/** Scanline filters of the PNG format (RFC 2083, section 6) and the converter's in-place
    inverse of them. */
module PngFilter {
  import opened ByteOrder

  type Row = Bytes

  /** Byte arithmetic is modulo 256. */
  function Wrap(x: int): byte {
    x % 0x100
  }

  function Abs(x: int): int {
    if x < 0 then -x else x
  }

  /** a is at least as near to a+b-c as q is */
  ghost predicate NearestTo(p: int, r: int, q: int) {
    Abs(p - r) <= Abs(p - q)
  }

  /** The Paeth predictor: whichever of a, b, c is nearest to a+b-c, ties resolved in that order. */
  function Paeth(a: int, b: int, c: int): (r: int)
    ensures r == a || r == b || r == c
    ensures var p := a + b - c; NearestTo(p, r, a) && NearestTo(p, r, b) && NearestTo(p, r, c)
    ensures NearestTo(a + b - c, a, r) ==> r == a
    ensures NearestTo(a + b - c, b, r) ==> r == a || r == b
  {
    var p := a + b - c;
    var pa, pb, pc := Abs(p - a), Abs(p - b), Abs(p - c);
    if pa <= pb && pa <= pc then a
    else if pb <= pc then b
    else c
  }

  /** A predictor guesses a byte from the byte to its left, the byte above and the byte above left. */
  type Predictor = (byte, byte, byte) -> byte

  function Nothing(left: byte, up: byte, upLeft: byte): byte { 0 }

  function Sub(left: byte, up: byte, upLeft: byte): byte { left }

  function Up(left: byte, up: byte, upLeft: byte): byte { up }

  /** `byte((a + int(b)) / 2)`: the sum is taken in full integers, so it does not wrap. */
  function Mean(a: byte, b: byte): byte {
    ((a + b) / 2)
  }

  function Average(left: byte, up: byte, upLeft: byte): byte { Mean(left, up) }

  function PaethByte(left: byte, up: byte, upLeft: byte): byte {
    Paeth(left, up, upLeft)
  }

  /** The predictor of a filter type byte. The format defines types 0 to 4; the converter leaves
      the row as it is for every other value, which is what predicting nothing does. */
  function PredictorOf(ftype: byte): Predictor {
    match ftype
    case 1 => Sub
    case 2 => Up
    case 3 => Average
    case 4 => PaethByte
    case _ => Nothing
  }

  /** The byte `bpp` positions back, 0 before the start of the row. */
  function Back(row: Row, bpp: nat, i: nat): byte
    requires 1 <= bpp && i <= |row|
  {
    if i >= bpp then row[i - bpp] else 0
  }

  /** The prediction for byte `i`, from bytes to its left in the unfiltered row and from the
      unfiltered row above. */
  function Prediction(f: Predictor, raw: Row, prior: Row, bpp: nat, i: nat): byte
    requires 1 <= bpp && i <= |raw| && i < |prior|
  {
    f(Back(raw, bpp, i), prior[i], Back(prior, bpp, i))
  }

  /** The filter equations: every transmitted byte is the raw byte minus its prediction, mod 256. */
  function Encode(f: Predictor, raw: Row, prior: Row, bpp: nat): (filtered: Row)
    requires 1 <= bpp && |raw| <= |prior|
    ensures |filtered| == |raw|
  {
    seq(|raw|, i requires 0 <= i < |raw| => Wrap(raw[i] - Prediction(f, raw, prior, bpp, i)))
  }

  /** Reconstruction of a row, one byte at a time from the left. */
  function Decode(f: Predictor, filtered: Row, prior: Row, bpp: nat): (raw: Row)
    requires 1 <= bpp && |filtered| <= |prior|
    ensures |raw| == |filtered|
  {
    if filtered == [] then [] else
      var n := |filtered| - 1;
      var head := Decode(f, filtered[..n], prior, bpp);
      head + [Wrap(filtered[n] + Prediction(f, head, prior, bpp, n))]
  }

  /** A prediction looks only to the left. */
  lemma PredictionPrefix(f: Predictor, raw: Row, prior: Row, bpp: nat, i: nat)
    requires 1 <= bpp && i <= |raw| && i < |prior|
    ensures Prediction(f, raw, prior, bpp, i) == Prediction(f, raw[..i], prior, bpp, i)
  {}

  lemma WrapUndone(x: byte, p: byte)
    ensures Wrap(Wrap(x - p) + p) == x
  {}

  lemma {:induction false} DecodeEncode(f: Predictor, raw: Row, prior: Row, bpp: nat)
    requires 1 <= bpp && |raw| <= |prior|
    ensures Decode(f, Encode(f, raw, prior, bpp), prior, bpp) == raw
  {
    hide Wrap, Prediction;
    if raw != [] {
      var n := |raw| - 1;
      var filtered := Encode(f, raw, prior, bpp);
      assert filtered[..n] == Encode(f, raw[..n], prior, bpp) by { EncodePrefix(f, raw, prior, bpp, n); }
      DecodeEncode(f, raw[..n], prior, bpp);
      PredictionPrefix(f, raw, prior, bpp, n);
      WrapUndone(raw[n], Prediction(f, raw[..n], prior, bpp, n));
      assert raw[..n] + [raw[n]] == raw;
    }
  }

  lemma EncodePrefix(f: Predictor, raw: Row, prior: Row, bpp: nat, n: nat)
    requires 1 <= bpp && n <= |raw| <= |prior|
    ensures Encode(f, raw, prior, bpp)[..n] == Encode(f, raw[..n], prior, bpp)
  {
    forall i | 0 <= i < n
      ensures Encode(f, raw, prior, bpp)[i] == Encode(f, raw[..n], prior, bpp)[i]
    {
      PredictionPrefix(f, raw, prior, bpp, i);
      PredictionPrefix(f, raw[..n], prior, bpp, i);
      assert raw[..n][..i] == raw[..i];
    }
  }

  lemma {:induction false} EncodeDecode(f: Predictor, filtered: Row, prior: Row, bpp: nat)
    requires 1 <= bpp && |filtered| <= |prior|
    ensures Encode(f, Decode(f, filtered, prior, bpp), prior, bpp) == filtered
  {
    hide Wrap, Prediction;
    if filtered != [] {
      var n := |filtered| - 1;
      var raw, head := Decode(f, filtered, prior, bpp), Decode(f, filtered[..n], prior, bpp);
      assert raw[..n] == head;
      EncodeDecode(f, filtered[..n], prior, bpp);
      EncodePrefix(f, raw, prior, bpp, n);
      PredictionPrefix(f, raw, prior, bpp, n);
      WrapBack(filtered[n], Prediction(f, head, prior, bpp, n));
      var again := Encode(f, raw, prior, bpp);
      assert again[..n] == filtered[..n] && again[n] == filtered[n];
      assert again == again[..n] + [again[n]] && filtered == filtered[..n] + [filtered[n]];
    }
  }

  lemma WrapBack(x: byte, p: byte)
    ensures Wrap(Wrap(x + p) - p) == x
  {}

  /** Where nothing is predicted the bytes stay as they are. */
  lemma {:induction false} DecodeUnpredicted(filtered: Row, prior: Row, bpp: nat)
    requires 1 <= bpp && |filtered| <= |prior|
    ensures Decode(Nothing, filtered, prior, bpp) == filtered
  {
    if filtered != [] {
      DecodeUnpredicted(filtered[..|filtered| - 1], prior, bpp);
    }
  }

  /** Byte `k` satisfies the filter equation if it is among the first `n`, else it is as given. */
  ghost predicate DecodedAt(f: Predictor, given: Row, now: Row, prior: Row, bpp: nat, n: nat, k: nat)
    requires 1 <= bpp && k < |given| == |now| == |prior|
  {
    now[k] == if k < n then Wrap(given[k] + Prediction(f, now, prior, bpp, k)) else given[k]
  }

  ghost predicate Decoded(f: Predictor, given: Row, now: Row, prior: Row, bpp: nat, n: nat) {
    && 1 <= bpp && |given| == |now| == |prior|
    && forall k: nat | k < |given| :: DecodedAt(f, given, now, prior, bpp, n, k)
  }

  lemma DecodedStep(f: Predictor, given: Row, now: Row, prior: Row, bpp: nat, i: nat)
    requires Decoded(f, given, now, prior, bpp, i) && i < |given|
    ensures Decoded(f, given, now[i := Wrap(now[i] + Prediction(f, now, prior, bpp, i))], prior, bpp, i + 1)
  {
    var next := now[i := Wrap(now[i] + Prediction(f, now, prior, bpp, i))];
    forall k: nat {:trigger DecodedAt(f, given, next, prior, bpp, i + 1, k)} | k < |given|
      ensures DecodedAt(f, given, next, prior, bpp, i + 1, k)
    {
      assert DecodedAt(f, given, now, prior, bpp, i, k);
      if k <= i {
        assert Back(next, bpp, k) == Back(now, bpp, k);
      }
    }
  }

  lemma DecodedAll(f: Predictor, given: Row, now: Row, prior: Row, bpp: nat)
    requires Decoded(f, given, now, prior, bpp, |given|)
    ensures now == Decode(f, given, prior, bpp)
  {
    forall k: nat | k < |given|
      ensures Encode(f, now, prior, bpp)[k] == given[k]
    {
      assert DecodedAt(f, given, now, prior, bpp, |given|, k);
    }
    assert Encode(f, now, prior, bpp) == given;
    DecodeEncode(f, now, prior, bpp);
  }

  // ---- the equations of RFC 2083, section 6, byte by byte ----

  /** Half of `s`, rounded down. */
  ghost predicate Half(m: int, s: int) {
    2 * m <= s <= 2 * m + 1
  }

  function Distance(p: int, q: int): int {
    if p >= q then p - q else q - p
  }

  /** `r` is the one of a, b, c nearest to a + b - c; of two as near, the earlier one. */
  ghost predicate Nearest(r: int, a: int, b: int, c: int) {
    var p := a + b - c;
    var da, db, dc := Distance(p, a), Distance(p, b), Distance(p, c);
    || (r == a && da <= db && da <= dc)
    || (r == b && db < da && db <= dc)
    || (r == c && dc < da && dc < db)
  }

  /** What the transmitted byte `line` and the raw byte `raw` of a row of filter type `ftype` have to do with
      the raw bytes to the left, above and above left. */
  ghost predicate Equation(ftype: byte, line: byte, raw: byte, left: byte, up: byte, upLeft: byte) {
    match ftype
    case 1 => raw == (line + left) % 256
    case 2 => raw == (line + up) % 256
    case 3 => var sum := left + up; exists m: int :: Half(m, sum) && raw == (line + m) % 256
    case 4 => exists r: int :: Nearest(r, left, up, upLeft) && raw == (line + r) % 256
    case _ => raw == line
  }

  /** The equation of byte `i` of a row; before the row there are zeros. */
  ghost predicate EquationAt(ftype: byte, line: Row, raw: Row, prior: Row, bpp: nat, i: nat)
    requires 1 <= bpp && i < |line| == |raw| == |prior|
  {
    Equation(ftype, line[i], raw[i], if i < bpp then 0 else raw[i - bpp], prior[i],
             if i < bpp then 0 else prior[i - bpp])
  }

  ghost predicate Equations(ftype: byte, line: Row, raw: Row, prior: Row, bpp: nat) {
    && 1 <= bpp && |line| == |raw| == |prior|
    && forall i: nat | i < |line| :: EquationAt(ftype, line, raw, prior, bpp, i)
  }

  lemma WrapIff(line: byte, raw: byte, guess: byte)
    ensures raw == (line + guess) % 256 <==> line == Wrap(raw - guess)
    ensures (line + 0) % 256 == line
  {}

  lemma AverageIff(line: byte, raw: byte, left: byte, up: byte)
    ensures var sum := left + up;
            (exists m: int :: Half(m, sum) && raw == (line + m) % 256) <==> raw == (line + Mean(left, up)) % 256
  {
    var sum := left + up;
    assert Half(Mean(left, up), sum);
    assert forall m: int | Half(m, sum) :: m == Mean(left, up);
  }

  lemma PaethIff(line: byte, raw: byte, left: byte, up: byte, upLeft: byte)
    ensures (exists r: int :: Nearest(r, left, up, upLeft) && raw == (line + r) % 256)
       <==> raw == (line + Paeth(left, up, upLeft)) % 256
  {
    var p := Paeth(left, up, upLeft);
    assert Nearest(p, left, up, upLeft);
    assert forall r: int | Nearest(r, left, up, upLeft) :: r == p;
  }

  lemma EquationIff(ftype: byte, line: byte, raw: byte, left: byte, up: byte, upLeft: byte)
    ensures Equation(ftype, line, raw, left, up, upLeft)
       <==> line == Wrap(raw - PredictorOf(ftype)(left, up, upLeft))
  {
    hide Wrap, Half, Nearest, Mean, Paeth, PredictorOf;
    GuessIs(ftype, left, up, upLeft);
    WrapIff(line, raw, PredictorOf(ftype)(left, up, upLeft));
    AverageIff(line, raw, left, up);
    PaethIff(line, raw, left, up, upLeft);
  }

  lemma GuessIs(ftype: byte, left: byte, up: byte, upLeft: byte)
    ensures PredictorOf(ftype)(left, up, upLeft)
         == match ftype
            case 1 => left
            case 2 => up
            case 3 => Mean(left, up)
            case 4 => Paeth(left, up, upLeft)
            case _ => 0
  {
    hide Mean, Paeth;
  }

  /** Reconstruction solves the equations, and nothing else does. */
  lemma EquationsIff(ftype: byte, line: Row, raw: Row, prior: Row, bpp: nat)
    requires 1 <= bpp && |line| == |raw| == |prior|
    ensures Equations(ftype, line, raw, prior, bpp) <==> raw == Decode(PredictorOf(ftype), line, prior, bpp)
  {
    var f := PredictorOf(ftype);
    hide Equation, PredictorOf, Wrap, Decode;
    forall i: nat | i < |line|
      ensures EquationAt(ftype, line, raw, prior, bpp, i) <==> line[i] == Encode(f, raw, prior, bpp)[i]
    {
      EquationIff(ftype, line[i], raw[i], Back(raw, bpp, i), prior[i], Back(prior, bpp, i));
    }
    if Equations(ftype, line, raw, prior, bpp) {
      assert line == Encode(f, raw, prior, bpp);
      DecodeEncode(f, raw, prior, bpp);
    }
    EncodeDecode(f, line, prior, bpp);
  }

  /** Undoes a scanline filter in the row's own buffer. */
  method Unfilter(ftype: byte, cur: array<byte>, prev: array<byte>, bpp: nat)
    requires 1 <= bpp && cur != prev && cur.Length == prev.Length
    modifies cur
    ensures cur[..] == Decode(PredictorOf(ftype), old(cur[..]), prev[..], bpp)
    ensures Equations(ftype, old(cur[..]), cur[..], prev[..], bpp)
  {
    ghost var line := cur[..];
    UnfilterAny(ftype, cur, prev, bpp);
    EquationsIff(ftype, line, cur[..], prev[..], bpp);
  }

  /** The switch over the filter types. */
  method UnfilterAny(ftype: byte, cur: array<byte>, prev: array<byte>, bpp: nat)
    requires 1 <= bpp && cur != prev && cur.Length == prev.Length
    modifies cur
    ensures cur[..] == Decode(PredictorOf(ftype), old(cur[..]), prev[..], bpp)
  {
    match ftype
    case 1 => UnfilterSub(cur, prev, bpp);
    case 2 => UnfilterUp(cur, prev, bpp);
    case 3 => UnfilterAverage(cur, prev, bpp);
    case 4 => UnfilterPaeth(cur, prev, bpp);
    case _ => DecodeUnpredicted(cur[..], prev[..], bpp);
  }

  /** `cur[i] += guess`, one byte of every filter's loop. */
  method AddTo(cur: array<byte>, i: nat, guess: byte, ghost f: Predictor, ghost given: Row, ghost prior: Row,
               ghost bpp: nat)
    requires Decoded(f, given, cur[..], prior, bpp, i) && i < cur.Length
    requires guess == Prediction(f, cur[..], prior, bpp, i)
    modifies cur
    ensures Decoded(f, given, cur[..], prior, bpp, i + 1)
  {
    ghost var now := cur[..];
    DecodedStep(f, given, now, prior, bpp, i);
    cur[i] := Wrap(cur[i] + guess);
    assert cur[..] == now[i := Wrap(now[i] + Prediction(f, now, prior, bpp, i))];
  }

  method UnfilterSub(cur: array<byte>, ghost prev: array<byte>, bpp: nat)
    requires 1 <= bpp && cur != prev && cur.Length == prev.Length
    modifies cur
    ensures cur[..] == Decode(Sub, old(cur[..]), prev[..], bpp)
  {
    ghost var given, prior := cur[..], prev[..];
    var i := bpp;
    while i < cur.Length
      invariant bpp <= i
      invariant Decoded(Sub, given, cur[..], prior, bpp, if i < cur.Length then i else cur.Length)
    {
      AddTo(cur, i, cur[i - bpp], Sub, given, prior, bpp);
      i := i + 1;
    }
    DecodedAll(Sub, given, cur[..], prior, bpp);
  }

  method UnfilterUp(cur: array<byte>, prev: array<byte>, ghost bpp: nat)
    requires 1 <= bpp && cur != prev && cur.Length == prev.Length
    modifies cur
    ensures cur[..] == Decode(Up, old(cur[..]), prev[..], bpp)
  {
    ghost var given, prior := cur[..], prev[..];
    for i := 0 to cur.Length
      invariant prev[..] == prior && Decoded(Up, given, cur[..], prior, bpp, i)
    {
      AddTo(cur, i, prev[i], Up, given, prior, bpp);
    }
    DecodedAll(Up, given, cur[..], prior, bpp);
  }

  method UnfilterAverage(cur: array<byte>, prev: array<byte>, bpp: nat)
    requires 1 <= bpp && cur != prev && cur.Length == prev.Length
    modifies cur
    ensures cur[..] == Decode(Average, old(cur[..]), prev[..], bpp)
  {
    ghost var given, prior := cur[..], prev[..];
    for i := 0 to cur.Length
      invariant prev[..] == prior && Decoded(Average, given, cur[..], prior, bpp, i)
    {
      var a: byte := 0;
      if i >= bpp {
        a := cur[i - bpp];
      }
      AddTo(cur, i, Mean(a, prev[i]), Average, given, prior, bpp);
    }
    DecodedAll(Average, given, cur[..], prior, bpp);
  }

  method UnfilterPaeth(cur: array<byte>, prev: array<byte>, bpp: nat)
    requires 1 <= bpp && cur != prev && cur.Length == prev.Length
    modifies cur
    ensures cur[..] == Decode(PaethByte, old(cur[..]), prev[..], bpp)
  {
    ghost var given, prior := cur[..], prev[..];
    for i := 0 to cur.Length
      invariant prev[..] == prior && Decoded(PaethByte, given, cur[..], prior, bpp, i)
    {
      var a: byte, c: byte := 0, 0;
      if i >= bpp {
        a := cur[i - bpp];
        c := prev[i - bpp];
      }
      AddTo(cur, i, Paeth(a, prev[i], c), PaethByte, given, prior, bpp);
    }
    DecodedAll(PaethByte, given, cur[..], prior, bpp);
  }
}
