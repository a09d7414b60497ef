# Model of the czconsole image pipeline, keypad, login throttle and path handling

The model covers the parts of the console whose correctness depends on state, arithmetic or parsing,
and proves properties of whole runs of them. Each module follows one source file.

**Heatmap images.** `PngToR565` converts a PNG file into the flat `.r565` format. Below it stand
`IdatReader` (joins the IDAT payloads; a class over a buffered reader whose reads may be short),
`PngChunks` (the chunk list of RFC 2083, section 3.2), `PngFilter` (the scanline filters of RFC 2083,
section 6, and their inverse in place) and `R565Rows` (the row loop with its two swapping buffers).
`ImageView` pans a window over such a file, `Framebuffer` presents a canvas on the panel and reads the
panel back for the web mirror, and `Pipeline` puts the four together: what a panel cell shows is the
packed source pixel under it. `Rgb565`, `Bits`, `RowGrid`, `ByteOrder`, `Canvas` and `PixelBytes` hold
what they share; `ImageBytes` says what the bytes of scanlines, files, canvases and
framebuffers mean, in arithmetic on offsets, and the main results are stated in it.

**Keypad.** `KeyMap` and `KeyController` are the decoding and the timed controller with software
auto-repeat, `TextField` the line editor, `ConfigForm` the focus and scroll logic of a tool's form.

**Login.** `RateLimiter` is the throttle, `Throttle` its runs under the login handler, with any number
of keys and of requests in flight, and `FailureLimits` the numbers that bound them. `Session` prints and
parses tokens, over `Base64Url` (RFC 4648, section 5), `Decimal` and `Splitting`.

**Templates and paths.** `Template` expands argv templates, `PathJail` confines client paths.

Classes and loops stand where the source has them; each method is proved against a function of its
inputs or of the old state, and the lemmas are about those functions. Go's `int` is unbounded here;
bytes and 16-bit words are bounded types, and sums that wrap are written with `%`. Shifts are
multiplications and divisions, and fields that the source joins with an or are added; `Bits` defines
shifts, ors and masks bit by bit, and `Rgb565.PackIsOr`, `ExpandIsOr` and `WordIsOr` connect the two.
Clock readings are integers passed to each step (nanoseconds in `KeyController` and `Session`, any unit
in `Throttle`).

Some places where the code does not do what its comments or its callers may lead one to expect; the model
follows the code:

- "Allow max failures per window, then lock": every throttle bounds the failures of a key per window, but
  not by max. The least bound for c requests in flight is `FailureLimits.Most` (`Throttle.BoundExact`).
  With a lockout as long as the window it is 2 max + c - 3, or one more, or c if max is one, so 2 max - 2
  or 1 for requests one at a time. With a shorter lockout it is larger: a tripped bucket fills up again as
  soon as the lockout is over, once for each lockout that fits into the window
  (`FailureLimits.ShortMostIs`). The number for long lockouts bounds all runs exactly when the lockout is
  that long (`Throttle.BoundedIff`).
- A lockout is cut short by the late failure of a second request in flight when the lockout is longer
  than the window and more than one failure is needed to trip it, and only then
  (`Throttle.PersistentForIff`). With the deployed settings, equal window and lockout, lockouts last
  (`Throttle.Deployed`).
- `safe` accepts every client path under a clean root that has elements, absolute or not. Under `/` and
  `.` it refuses everything that does not clean to the root itself, under a root that is not clean
  everything, and under the empty root nothing (`PathJail.SafeIff`).
- The per-run output path reaches `{{outfile}}` tokens only (`Template.OutfileIff`); an element
  `{{outfile...}}` splits the input value of that name instead.

## Model

| member | source | states |
|---|---|---|
| `IdatReader.IdatReader.Read` | internal/img/r565.go:35-75 | Any buffer size, any short read below: the bytes handed out are the next IDAT bytes, nothing behind them in the buffer changes, an error comes only when nothing is left, and it is the right one |
| `IdatReader.IdatReader.NextChunk` | internal/img/r565.go:36-66 | Skipping chunk headers, ancillary chunks and empty IDATs changes neither what is still to be delivered nor the final error |
| `IdatReader.IdatReader.Deliver` | internal/img/r565.go:67-75 | Handing out a part of a chunk, and the CRC skip after its last byte, keep the sequence still to come |
| `IdatReader.ReadRun` | internal/img/r565.go:29-75 | For any list of buffer sizes, what has been delivered plus what is pending is what was pending: delivery is a prefix at every moment |
| `IdatReader.Drain` | internal/img/r565.go:35-75 | Read to the first error with buffers of any sizes: exactly the pending bytes, then the error that ends the file |
| `PngChunks.PayloadOfChunks` | internal/img/r565.go:26-33 | On the serialisation of any chunk list the byte-level reader yields the joined IDAT bodies before IEND |
| `PngChunks.EndingOfChunks` | internal/img/r565.go:36-62 | On such a list the run ends in a plain EOF, not an unexpected one |
| `PngChunks.EndingOfCut` | internal/img/r565.go:40-46 | A list that breaks off inside a length or a type ends in an unexpected EOF, one that breaks off between them in a plain one, and everything before is delivered |
| `PngChunks.ChunkLayout` | internal/img/r565.go:40-50 | A chunk is its length, most significant byte first, its type, its data and four more bytes; the types are the letters IDAT and IEND |
| `ByteOrder.FourBytes` | internal/img/r565.go:114-115 | What each of four bytes counts for, in either order |
| `PngChunks.DrainChunks` | internal/img/r565.go:29-75 | A reader over a chunk list delivers exactly the joined IDAT bodies and then reports EOF |
| `PngChunks.Rechunked` | internal/img/r565.go:50-65 | Cutting an IDAT in two, with empty IDATs and ancillary chunks between, leaves the joined bodies unchanged |
| `PngFilter.Paeth` | internal/img/r565.go:220-231 | The result is one of a, b, c and is nearest to a+b-c, ties resolved in that order |
| `PngFilter.DecodeEncode` | internal/img/r565.go:189-218 | Reconstruction undoes filtering, for every predictor, row length, prior row and bytes per pixel |
| `PngFilter.EncodeDecode` | internal/img/r565.go:189-218 | Filtering a reconstructed row gives the transmitted row: reconstruction is the only solution of the filter equations |
| `PngFilter.Unfilter` | internal/img/r565.go:189-218 | The in-place loops leave in the row's own buffer the bytes that solve the filter equations of RFC 2083, section 6, each stated by index: Sub, Up, the floor of half the sum, the nearest of left, above and above left, or the byte itself; the previous row is not touched |
| `PngFilter.EquationsIff` | internal/img/r565.go:189-231 | Reconstruction solves these equations, and it is the only row that does |
| `R565Rows.PackPixels` | internal/img/r565.go:166-170 | The inner loop fills the output row with the packed pixels of the unfiltered row |
| `R565Rows.ConvertRow` | internal/img/r565.go:159-170 | One turn of the row loop: the buffer then holds the reconstructed row, the output row its packing |
| `R565Rows.ConvertRows` | internal/img/r565.go:150-186 | The loop over two buffers that take turns computes the recursion over rows in which each row is reconstructed from the one before, zeros above the first; the buffers never alias |
| `R565Rows.RowLoop` | internal/img/r565.go:158-186 | That recursion, told by row index: all rows packed in order behind the header, or a failure naming the first row the stream is too short for, and whether its filter byte or its data is missing |
| `R565Rows.BodyPixel` | internal/img/r565.go:166-171 | Pixel (x, y) of the output is the packed pixel of decoded row y, at offset 16 + (y w + x) 2 |
| `R565Rows.FileSize` | internal/img/r565.go:146-171 | The output is the 16-byte header and exactly 2 w h bytes |
| `R565Rows.RowsOfEncoded` | internal/img/r565.go:153-174 | Whatever filter each row was written with, the decoded rows are the image's rows |
| `PngToR565.PNGToR565` | internal/img/r565.go:80-186 | Reader, header checks, inflation and row loop compute the conversion function of the whole file, every error branch included |
| `PngToR565.OpenPngFile` | internal/img/r565.go:88-131 | Every 8-bit RGB or RGBA non-interlaced header with positive dimensions is accepted with its own layout, and reading goes on behind its CRC |
| `PngToR565.ChunkingIrrelevant` | internal/img/r565.go:26-75 | Two files whose IDAT bodies join to the same bytes convert to the same result, success or failure, whatever zlib does |
| `PngToR565.ScanlinesIff` | internal/img/r565.go:153-174 | The rows that the loop decodes are those of the image, byte by byte, exactly when every byte of the stream solves its filter equation, with zeros above and to the left of the image |
| `PngToR565.EncodedScanlines` | internal/img/r565.go:153-165 | Every image has such a stream for every choice of filter per row |
| `PngToR565.EndToEnd` | internal/img/r565.go:80-186 | For every image, stream of its scanlines, chunking and zlib that inverts the compression, the output is 16 + 2 w h bytes: R565, 1, width and height little-endian, and at 16 + (y w + x) 2 the bytes lo, hi with lo + 256 hi = r/8 2048 + g/4 32 + b/8 for the bytes r, g, b of source pixel (x, y) |
| `PngToR565.SuccessHolds` | internal/img/r565.go:133-186 | Whatever the input, a success is, in the same terms, the file of the image whose scanlines the stream begins with |
| `PngToR565.OpenIff` | internal/img/r565.go:88-131 | Exactly which files get as far as the stream, told by their bytes, and the width, height, channels and chunks read off them |
| `PngToR565.StopsWith` | internal/img/r565.go:92-131 | Exactly which files are refused as no PNG, without IHDR, unsupported, interlaced or empty |
| `Rgb565.LoHiLittleEndian` | internal/img/r565.go:169 | The two stored bytes read little-endian give the word |
| `Rgb565.PackExpand` | internal/fb/fb.go:128-136 | Expanding any word and packing again gives the word |
| `Rgb565.QuantisationError` | internal/fb/display.go:77-79 | Packing and expanding moves red and blue by at most 7 and green by at most 3 |
| `Rgb565.PackIsOr` | internal/img/r565.go:168 | The packed word is the source's expression of shifts and ors, bit by bit; the same expression stands in the framebuffer writer |
| `Rgb565.ExpandIsOr` | internal/lcd/imageview.go:198-204 | So are the three channels of an expanded word, masks included |
| `Rgb565.WordIsOr` | internal/lcd/imageview.go:197 | And a word joined from two bytes |
| `Framebuffer.Display.Present` | internal/fb/display.go:71-84 | Every row of the framebuffer becomes the packed canvas row; the padding behind each row, to the end of the mapping, is unchanged |
| `Framebuffer.PresentPixel` | internal/fb/display.go:72-82 | The two bytes at y stride + 2 x of the framebuffer are, low byte first, the word of the three bytes at (y w + x) 4 of the canvas |
| `Framebuffer.PresentElsewhere` | internal/fb/display.go:71-84 | Every byte outside the pixels is as it was |
| `Framebuffer.Snapshot` | internal/fb/fb.go:122-139 | The mirror's image is the expanded pixels of each framebuffer row, at any stride |
| `Framebuffer.MirrorPixel` | internal/fb/fb.go:125-138 | The four bytes at (y w + x) 4 of the mirror's image are the fields of the word at y stride + 2 x, each with its high bits repeated below, and 255 |
| `Framebuffer.MirrorOfPresented` | internal/fb/fb.go:125-139 | What the mirror decodes after a present is the canvas, each pixel quantised to 565, opaque, within the channel errors |
| `Framebuffer.PresentedMirror` | internal/fb/display.go:69-84 | Presenting what the mirror decoded stores the same pixel bytes and leaves padding alone |
| `ImageView.BlitR565Row` | internal/lcd/imageview.go:194-207 | The row's words are expanded into consecutive opaque pixels and no other byte of the canvas changes |
| `ImageView.ImageView.Key` | internal/lcd/imageview.go:169-190 | A navigation key moves the pan offset one step once the image is ready; Back leaves the screen and moves nothing |
| `ImageView.ImageView.DrawImage` | internal/lcd/imageview.go:133-160 | From any pan state and for a file of any length: the offset is clamped to the image, every view row is drawn as the words in the row buffer followed by background, bytes the file lacks being those left from the rows above, and the footer's rows are untouched |
| `ImageView.ReadInRow` | internal/lcd/imageview.go:151-156 | Every read for a view row lies within one stored row and, if the file is complete, within the file |
| `ImageView.ClampedWindow` | internal/lcd/imageview.go:139-142 | Clamping puts the window on the image wherever the image is large enough, and clamping again changes nothing |
| `ImageView.ViewCell` | internal/lcd/imageview.go:144-160 | Cell (rx, ry) of a drawn view is the expanded stored pixel (panX+rx, panY+ry) if the image reaches it and the file, complete or cut off, holds it; it is background if the image does not reach it |
| `ImageView.ViewPixel` | internal/lcd/imageview.go:144-160 | The same in bytes: four on the canvas from the two at 16 + ((panY + ry) w + panX + rx) 2 of the file, or the background's 7, 11, 9, 255 |
| `ImageView.TurnIs` | internal/lcd/imageview.go:179-188 | Each pan key moves the drawn window 32 pixels its own way or as far as the image goes; no other key moves it |
| `ImageView.OpenCacheIff` | internal/lcd/imageview.go:73-80 | A cache opens exactly when it has a whole header that begins with R565 |
| `ImageView.Coverage` | internal/lcd/imageview.go:179-188 | With a view at least one step wide and high, any pixel of any image can be brought into view by a computed number of keys, a draw after each |
| `ImageView.NoShorter` | internal/lcd/imageview.go:139-142 | No key sequence brings it into view in fewer |
| `Pipeline.CacheOfConverted` | internal/lcd/imageview.go:68-82 | The viewer opens every converted file with the image's own dimensions, as a complete picture |
| `Pipeline.PanelShowsImage` | internal/lcd/app.go:49-52 | Convert, pan anywhere, draw, present: each panel cell over the image holds the 565 word of the source pixel under it, and the mirror shows that word expanded |
| `Pipeline.ShowPng` | internal/lcd/app.go:49-100 | A whole run: convert a PNG of any image under any filters and chunking, open the result, draw, and draw again after each key; each panel cell then holds, in bytes, the 565 word of the source pixel that the keys panned under it |
| `KeyMap.CommitKeys` | internal/lcd/input.go:95-118 | Enter, Esc and Tab have one key code each, these are the non-repeatable codes, and nothing else decodes to them |
| `KeyMap.ShiftIsCase` | internal/lcd/input.go:120-140 | Letter keys print small letters without shift and the same letters, capital, with it; no other key prints a letter or depends on shift |
| `KeyMap.Navigation` | internal/lcd/input.go:38-41 | The letters f, x, z and c are up, down, left and right as well as characters, p shows passwords, and the keys that only navigate print nothing |
| `KeyMap.Observed` | internal/lcd/input_test.go:14-25 | The codes observed on the device print what they did there, and the number row its digits in order |
| `KeyMap.OneKey` | internal/lcd/input.go:69-91 | No two keys print the same character under any shift, and only printable ASCII is printed |
| `KeyMap.SomeKey` | internal/lcd/input.go:120-140 | Every printable ASCII character can be typed |
| `KeyController.Controller.Handle` | internal/lcd/input.go:263-297 | One turn of the select loop is one step of the state machine and sends what the step emits |
| `KeyController.HeldKey` | internal/lcd/input.go:276-287 | The latest non-shift press, if repeatable, accepted and not released since, is the held key, with its event decoded under the shift state at press time |
| `KeyController.HeldPress` | internal/lcd/input.go:252-297 | In every reachable state with a held key there is such a press |
| `KeyController.OutputSpec` | internal/lcd/input.go:263-297 | The output told from the input trace alone: one event per accepted press, per tick the held press's event once it is 320 ms old, nothing else |
| `KeyController.PressSends` | internal/lcd/input.go:271-282 | Over a trace: an accepted press of a letter key sends the capital exactly when the last shift event before it was not a release, the small letter otherwise; the events of other keys do not depend on shift |
| `KeyController.CommitCount` | internal/lcd/input.go:192-200 | Over any run the Enter, Esc and Tab events number exactly the presses of those codes |
| `KeyController.RepeatLimit` | internal/lcd/input.go:187-190 | With ticks at least 45 ms apart, a hold of D >= 320 ms sends at most 2 + (D - 320)/45 events, the press included |
| `TextField.TextField.Edit` | internal/lcd/textfield.go:25-47 | Every edit of the buffer, overwriting in place or reallocating, is the edit of the pair (text before the caret, text after it) |
| `TextField.Run` | internal/lcd/textfield.go:25-47 | Any run of events refines the run on the pair |
| `TextField.Typing` | internal/lcd/textfield.go:27-29 | Events with runes insert exactly those characters at the caret, whatever navigation keys they carry |
| `TextField.TypeThenErase` | internal/lcd/textfield.go:26-34 | Typing any text and backspacing as often restores text and caret |
| `TextField.Arrows` | internal/lcd/textfield.go:35-42 | Arrows keep the text and undo each other away from the ends |
| `TextField.AtTheEnds` | internal/lcd/textfield.go:30-45 | Backspace and left at the start, right at the end and events that are not consumed change nothing |
| `TextField.TextField.Window` | internal/lcd/textfield.go:60-78 | The drawn slice is in range, as long as fits, and contains the caret; the caret is inside the box whenever one character fits |
| `TextField.MaxCharsIs` | internal/lcd/textfield.go:60-67 | The box shows as many characters as fit between its margins, at least one |
| `ConfigForm.ConfigForm.constructor` | internal/lcd/toolscreen.go:55-80 | Focus starts on the first field that is not a note, if there is one |
| `ConfigForm.ConfigForm.MoveFocus` | internal/lcd/toolscreen.go:336-347 | Focus goes to the nearest non-note in the direction, around the ends, and stays on a non-note whenever one exists |
| `ConfigForm.NearestUnique` | internal/lcd/toolscreen.go:341-346 | There is only one such field |
| `ConfigForm.NearestIs` | internal/lcd/toolscreen.go:341-346 | Forwards the focus skips only notes up to the next field, else all notes behind and before it around the end; backwards likewise |
| `ConfigForm.NearestInverse` | internal/lcd/toolscreen.go:336-347 | Moving forwards and back, or back and forwards, returns to the same field |
| `ConfigForm.ConfigForm.KeyConfig` | internal/lcd/toolscreen.go:311-333 | Which branch a key takes; moving changes only the focus, to the nearest field, editing only the focused editor, toggling only the focused box, leaving and submitting nothing |
| `ConfigForm.ConfigForm.TypingEdits` | internal/lcd/toolscreen.go:311-327 | On a line of text every event with a rune but Tab, Esc and Enter edits it, and so do Backspace and the side arrows; real up and down arrows move the focus |
| `ConfigForm.ConfigForm.SpaceToggles` | internal/lcd/toolscreen.go:328-330 | On a box space and the side arrows toggle it and other characters do nothing |
| `ConfigForm.ConfigForm.CommandKeys` | internal/lcd/toolscreen.go:311-320 | Esc leaves, Enter submits and nothing else does; Tab moves on |
| `ConfigForm.HeightIs` | internal/lcd/toolscreen.go:182-187 | A note is 13 for each line it is drawn in and 6 more, every other field 34 |
| `ConfigForm.ConfigForm.AdjustScroll` | internal/lcd/toolscreen.go:200-215 | The loop ends at the least sufficient scroll not below the smaller of old scroll and focus |
| `ConfigForm.LeastScrollStable` | internal/lcd/toolscreen.go:200-215 | That scroll is unique, and redrawing from it moves nothing |
| `ConfigForm.ConfigForm.DrawConfig` | internal/lcd/toolscreen.go:189-249 | Fields are placed one below the other from the scroll on; the focused field is always among them, and fully inside the content area whenever its own height fits |
| `RateLimiter.RateLimiter.Allowed` | internal/auth/ratelimit.go:33-41 | A key passes unless a lockout of it has not yet passed |
| `RateLimiter.RateLimiter.Fail` | internal/auth/ratelimit.go:45-60 | The table of buckets becomes the specified one: this key's bucket counted, renewed or tripped, every other bucket as it was |
| `RateLimiter.RateLimiter.Reset` | internal/auth/ratelimit.go:63-67 | Exactly this key's bucket goes |
| `Throttle.HandleLogin` | internal/server/server.go:133-161 | A login request asks first and then records failure, success or neither; its effect on the table is that step of a run |
| `Throttle.Serve` | internal/server/server.go:133-161 | Any interleaving of requests of any keys yields a well-formed run whose table is the limiter's; every turn is answered as that run says; a key that has been answered 303 is let through until it has got max 401 answers again; in any window that a key does not log in in, it gets no more 401 answers than the bound allows for its requests in flight |
| `Throttle.SuccessForgets` | internal/server/server.go:155-157 | After a success a key is, whatever follows, as if nothing had happened before it |
| `Throttle.SuccessClears` | internal/auth/ratelimit.go:63-67 | So with fewer than max failures since its last success a key passes |
| `Throttle.FailuresRefuse` | internal/auth/ratelimit.go:54-59 | And max failures at once refuse it |
| `Throttle.ThrottleBound` | internal/auth/ratelimit.go:33-60 | Whatever other keys do, a key with at most c requests in flight fails at most `FailureLimits.Most` times in any interval no longer than the window, for every lockout >= 0, if its successes all come before anything of it in the interval. For lockout >= window that is 2 max + c - 3; once more if c > max, or if c = max and lockout < 2 window; c if max is one |
| `FailureLimits.ShortMostIs` | internal/auth/ratelimit.go:50-59 | For a shorter lockout it is max + c - 1, and max (1 + (c - 1) / max) more for each time that lockout + 1 goes into the window, and max - 1 more if that leaves a remainder |
| `Throttle.SerialBound` | internal/auth/ratelimit.go:33-60 | With one request of the key at a time: 2 max - 2, or 1 if max is one, for lockout >= window; for a shorter one, with q = window / (lockout + 1), (q + 1) max if that leaves no remainder and (q + 2) max - 1 if it does |
| `Throttle.Attained` | internal/auth/ratelimit.go:33-60 | For every lockout >= 0, window >= 1 and c >= 1 a run of the login handler attains that number |
| `Throttle.BoundedIff` | internal/auth/ratelimit.go:8-19 | The number for long lockouts bounds all runs exactly when lockout >= window |
| `Throttle.BoundExact` | internal/auth/ratelimit.go:33-60 | For every lockout >= 0 and window >= 1: a number bounds the failures of all runs in one window exactly when it is no smaller than `FailureLimits.Most` |
| `Throttle.LockLasts` | internal/auth/ratelimit.go:50-59 | After a trip at T, if lockout <= window or max <= 1, the bucket stays locked to T + lockout under any further events but a success of the key |
| `Throttle.SerialLockLasts` | internal/auth/ratelimit.go:33-60 | Whatever the settings, it does so when the key's requests run one at a time |
| `Throttle.LateFailureUnlocks` | internal/auth/ratelimit.go:50-52 | With lockout > window, max >= 2 and two requests in flight, a run of the login handler exists in which the late failure of the second opens a fresh bucket and ends the lockout |
| `Throttle.PersistentForIff` | internal/server/server.go:133-161 | Under the login handler a lockout lasts in all runs exactly when at most one request of the key is in flight at a time, or lockout <= window, or max <= 1 |
| `Throttle.PersistentIff` | internal/auth/ratelimit.go:33-60 | For callers that report failures without asking first, exactly when lockout <= window or max <= 1 |
| `Throttle.Deployed` | cmd/czconsole/main.go:83 | Lockouts of the deployed throttle last, and the most failures in one window are c + 7 with fewer than five requests in flight and c + 8 from five on |
| `Session.Sessions.ValidateSigned` | internal/auth/session.go:43-77 | A signed token gives back its user, any bytes, exactly while it has not expired |
| `Session.Sessions.IssuedLives` | internal/auth/session.go:51-63 | An issued token is good for its time to live, to the nanosecond, and no more than a second longer |
| `Session.Sessions.TokenParts` | internal/auth/session.go:42-48 | A token is the user in base64url, the expiry in decimal and the MAC of these with their dot, in base64url, with dots between |
| `Session.Sessions.AcceptedIsSealed` | internal/auth/session.go:57-77 | An accepted token is, character for character, its first two parts and the encoded MAC of exactly these |
| `Session.Sessions.OnlyIssued` | internal/auth/session.go:57-77 | If seals exist only for issued bodies, every accepted token is an issued token, for its own user and before its own expiry |
| `Session.BodyInjective` | internal/auth/session.go:44 | Different users or expiries have different bodies |
| `Base64Url.RoundTrip` | internal/auth/session.go:72 | Decoding what was encoded without padding gives every byte string back |
| `Base64Url.DigitIs` | internal/auth/session.go:44 | The alphabet of section 5 of RFC 4648 |
| `Base64Url.GroupIs` | internal/auth/session.go:44 | The six-bit digits of a group are its eight-bit bytes, most significant first, padded with zero bits |
| `Base64Url.EncodeIs` | internal/auth/session.go:44 | Three bytes to a group, in order |
| `Decimal.RoundTrip` | internal/auth/session.go:62 | Parsing a printed 64-bit integer gives it back |
| `Decimal.DigitsAre` | internal/auth/session.go:44 | Decimal digits, last one last, and a minus |
| `Splitting.PartsRejoin` | internal/auth/session.go:58 | Splitting joined dot-free parts gives the parts |
| `Template.TokenAtUnique` | internal/tool/command.go:10 | At most one token begins at a place |
| `Template.ScanCuts` | internal/tool/command.go:33-47 | Scanning cuts a text into literals and tokens without loss, and takes every leftmost token |
| `Template.ScanUnique` | internal/tool/command.go:33-47 | It is the only such cutting |
| `Template.ValueVerbatim` | internal/tool/command.go:40-46 | A token becomes the value of that name, nothing if there is none, or the output path, as it is, tokens inside it included, and the text around it is expanded on its own |
| `Template.FilledIs` | internal/tool/command.go:40-46 | An ordinary element's argument is its text with each token replaced in place by the value itself, literals in order |
| `Template.OneToken` | internal/tool/command.go:40-46 | An element that is one token is that value, or the output path |
| `Template.OneSplit` | internal/tool/command.go:36-38 | A split element is the words of the value of that name |
| `Template.Characters` | internal/tool/command.go:10-12 | The characters of names and the white space between words, by number |
| `Template.FieldsSpaced` | internal/tool/command.go:37 | Word splitting reads a text as words between white space |
| `Template.SpacedUnique` | internal/tool/command.go:37 | There is no other way to read it so |
| `Template.SplitNameOf` | internal/tool/command.go:12 | Every element that is exactly a split token is recognised, with its name |
| `Template.Substitute` | internal/tool/command.go:33-49 | The loop computes the concatenation of what each element becomes |
| `Template.SubstitutedCount` | internal/tool/command.go:33-49 | The argument count is one per ordinary element plus the word count of each split value |
| `Template.Located` | internal/tool/command.go:35-47 | What an element becomes stands exactly behind what the elements before it count for |
| `Template.Independence` | internal/tool/command.go:33-49 | Two runs with any two value maps: arguments before the first split element have the same positions and differ only if one of their tokens other than outfile does |
| `Template.CommandFixed` | internal/tool/command.go:33-49 | A token-free element 0 is argv[0] of every run |
| `Template.OutfileIff` | internal/tool/command.go:33-49 | The arguments are the same for every output path exactly when each element is a split element or has no outfile token |
| `Template.ExpandStringFilled` | internal/tool/command.go:17-21 | A header expands as a command argument does, outfile apart |
| `Template.ExpandStringIs` | internal/tool/command.go:17-21 | A header is its text with each token replaced by the value itself, outfile a name like any other |
| `PathJail.SafeIs` | internal/modules/files.go:77-83 | Under a clean root with elements, absolute or relative, every client path comes out as the root followed by its own cleaned elements |
| `PathJail.Contained` | internal/modules/files.go:75-83 | The result is the root or below it, clean, and only goes down from the root; under an absolute root it has no `..` at all |
| `PathJail.Idempotent` | internal/modules/files.go:77-83 | The part of a result below the root leads to the same result |
| `PathJail.Descend` | internal/modules/files.go:77-83 | Appending a plain name to the input appends it to the output |
| `PathJail.UpTakesBack` | internal/modules/files.go:77-83 | A name and `..` behind it cancel out, under every root |
| `PathJail.Nothing` | internal/modules/files.go:77-83 | At the top `..` does nothing, and `.` and a second separator never do |
| `PathJail.SafeIff` | internal/modules/files.go:77-83 | For every root: a client path is accepted exactly when the root is empty, or is clean and has elements, or is / or . and the path cleans to nothing |
| `PathJail.TopRefuses` | internal/modules/files.go:79-81 | Under / and . the answer is the root for a path that cleans to nothing and a refusal for every other |
| `PathJail.EmptyRoot` | internal/modules/files.go:78-82 | Under the empty root every path is accepted and comes out absolute |
| `PathJail.UncleanRefuses` | internal/modules/files.go:78-81 | Under any other root that cleaning changes, absolute or relative, every path is refused |

## Left out

- Inflate, HMAC and JPEG encoding: library code. Inflate is any function of the joined compressed bytes, and the whole compressed stream is read before it is applied; how far zlib reads ahead is not modelled. The MAC is any function of the signed text; the mirror stops before JPEG.
- I/O errors other than the end of a file, and errors of writing the output; the file being written is a byte string.
- `PngToR565.PNGToR565`: an IHDR shorter than 13 bytes, which makes the program panic, is a failure value here.
- Overflow of Go's 64-bit integers, which an image with both sides near 2^32 could reach in a file offset.
- `Framebuffer.Display.Present`: a stride of less than 2 w, in which rows would overlap; the same holds of `Snapshot`.
- `ImageView.ImageView.DrawImage`: the footer text, the progress screen and the error screen, and read errors other than the end of the file.
- `Pipeline.ShowPng`: other screens, the footer's pixels and the check that a cached file is newer than its PNG; the run starts from a fresh conversion.
- `TextField.TextField.Window`: fonts and colours; the width of a character is a parameter.
- `ConfigForm.ConfigForm.KeyConfig`: what leaving and submitting then do (closing the screen, collecting the values, starting the tool).
- `KeyController.Controller.Handle`: channels, cancellation and the evdev reader in front of it; a trace lists the inputs in the order in which the loop takes them.
- `RateLimiter.RateLimiter.Fail`: the mutex, lockouts of negative length in the bounds, and Go's saturation of time differences beyond 292 years.
- `Session.Sessions.OnlyIssued`: that seals exist only for issued bodies is its hypothesis; that a MAC cannot be forged is not modelled. Nor are cookies, the random secret and the default time to live.
- `Template.Substitute`: bytes that are not valid UTF-8; text is a sequence of characters.
- HTTP handlers, authentication back ends, the runner, the wardrive screens, menus, log and history screens, sysinfo, packaging.
