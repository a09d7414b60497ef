/** The single-line text editor: a buffer with spare capacity that edits overwrite in place. */
module TextField {
  import opened KeyMap

  /** What an editor holds: the text before the caret and the text after it. */
  datatype Zipper = Zipper(before: string, after: string) {
    function Text(): string {
      before + after
    }
  }

  /** One event on the pair of texts. A non-zero rune is always a character. */
  function Edited(z: Zipper, ev: Event): Zipper {
    var b := |z.before|;
    if ev.rune != NO_RUNE then z.(before := z.before + [ev.rune])
    else if ev.key == KeyBackspace && b > 0 then z.(before := z.before[..b - 1])
    else if ev.key == KeyLeft && b > 0 then Zipper(z.before[..b - 1], [z.before[b - 1]] + z.after)
    else if ev.key == KeyRight && z.after != [] then Zipper(z.before + [z.after[0]], z.after[1..])
    else z
  }

  predicate Consumed(ev: Event) {
    ev.rune != NO_RUNE || ev.key == KeyBackspace || ev.key == KeyLeft || ev.key == KeyRight
  }

  /** append(base[:n], src[from:to]...): in place when the capacity allows, even when `src` is
      `base`, and into a new array otherwise. */
  method Append(base: array<char>, n: nat, src: array<char>, from: nat, to: nat) returns (r: array<char>)
    requires n <= base.Length && from <= to <= src.Length
    modifies base
    ensures r == base || fresh(r)
    ensures n + to - from <= r.Length
    ensures r[..n + to - from] == old(base[..n]) + old(src[from..to])
  {
    var len := n + to - from;
    if len <= base.Length {
      r := base;
      forall k | 0 <= k < to - from {
        base[n + k] := src[from + k];
      }
    } else {
      var capacity: nat :| capacity >= len;
      r := new char[capacity];
      forall k | 0 <= k < len {
        r[k] := if k < n then base[k] else src[from + k - n];
      }
    }
  }

  /** append(buf[:at], append([]rune{r}, buf[at:]...)...) */
  method Inserted(buf: array<char>, at: nat, len: nat, r: char) returns (res: array<char>)
    requires at <= len <= buf.Length
    modifies buf
    ensures res == buf || fresh(res)
    ensures len + 1 <= res.Length && res[..len + 1] == (old(buf[..at]) + [r]) + old(buf[at..len])
  {
    ghost var before, after := buf[..at], buf[at..len];
    var one := new char[1] [r];
    assert one[..1] == [r];
    var tail := Append(one, 1, buf, at, len);
    var n := 1 + len - at;
    assert tail[..n] == [r] + after;
    res := Append(buf, at, tail, 0, n);
    assert before + ([r] + after) == (before + [r]) + after;
  }

  lemma CutAt(s: string, a: string, b: string)
    requires s == a + b
    ensures s[..|a|] == a && s[|a|..] == b
  {}

  class TextField {
    var buf: array<char>
    var len: nat
    var cursor: nat

    ghost predicate Valid()
      reads this
    {
      cursor <= len <= buf.Length
    }

    function Abs(): Zipper
      requires Valid()
      reads this, buf
    {
      Zipper(buf[..cursor], buf[cursor..len])
    }

    constructor (initial: string)
      ensures Valid() && fresh(buf) && Abs() == Zipper(initial, "")
    {
      buf := new char[|initial|](i requires 0 <= i < |initial| => initial[i]);
      len, cursor := |initial|, |initial|;
    }

    method Edit(ev: Event) returns (consumed: bool)
      requires Valid()
      modifies this, buf
      ensures Valid() && (buf == old(buf) || fresh(buf))
      ensures Abs() == Edited(old(Abs()), ev) && consumed == Consumed(ev)
    {
      ghost var z := Abs();
      consumed := true;
      if ev.rune != NO_RUNE {
        Insert(ev.rune);
      } else if ev.key == KeyBackspace {
        if cursor > 0 {
          Delete();
        }
      } else if ev.key == KeyLeft {
        if cursor > 0 {
          cursor := cursor - 1;
          assert buf[cursor..len] == [z.before[cursor]] + z.after;
        }
      } else if ev.key == KeyRight {
        if cursor < len {
          cursor := cursor + 1;
          assert buf[..cursor] == z.before + [z.after[0]];
        }
      } else {
        consumed := false;
      }
    }

    /** Writes the rune and a copy of the tail over the buffer from the caret on. */
    method Insert(r: char)
      requires Valid()
      modifies this, buf
      ensures Valid() && (buf == old(buf) || fresh(buf))
      ensures Abs() == Zipper(old(Abs()).before + [r], old(Abs()).after)
    {
      ghost var z := Abs();
      buf := Inserted(buf, cursor, len, r);
      len, cursor := len + 1, cursor + 1;
      ghost var text := buf[..len];
      CutAt(text, z.before + [r], z.after);
      assert buf[..cursor] == text[..cursor] && buf[cursor..len] == text[cursor..];
    }

    /** Moves the tail one place to the left within the buffer. */
    method Delete()
      requires Valid() && cursor > 0
      modifies this, buf
      ensures Valid() && (buf == old(buf) || fresh(buf))
      ensures Abs() == Zipper(old(Abs()).before[..old(cursor) - 1], old(Abs()).after)
    {
      ghost var z := Abs();
      buf := Append(buf, cursor - 1, buf, cursor, len);
      len, cursor := len - 1, cursor - 1;
      assert buf[..len] == z.before[..cursor] + z.after;
      assert buf[..cursor] == buf[..len][..cursor] && buf[cursor..len] == buf[..len][cursor..];
    }

    /** The part of the text that is drawn in a box `dx` wide with characters `charW` wide, and the
        horizontal offset of the caret in it. */
    method Window(dx: int, charW: int) returns (start: nat, end: nat, caret: int)
      requires Valid()
      ensures start <= cursor <= end <= len
      ensures cursor - start < MaxChars(dx, charW)
      ensures end - start == if len - start < MaxChars(dx, charW) then len - start else MaxChars(dx, charW)
      ensures start == if cursor < MaxChars(dx, charW) then 0 else cursor - (MaxChars(dx, charW) - 1)
      ensures caret == 4 + (cursor - start) * CharWidth(charW)
      ensures dx - 8 >= CharWidth(charW) ==> 4 <= caret <= dx - 4 - CharWidth(charW)
    {
      var w := charW;
      if w < 1 {
        w := 6;
      }
      var maxChars := Quotient(dx - 8, w);
      if maxChars < 1 {
        maxChars := 1;
      }
      start := 0;
      if cursor > maxChars - 1 {
        start := cursor - (maxChars - 1);
      }
      end := start + maxChars;
      if end > len {
        end := len;
      }
      caret := 4 + (cursor - start) * w;
      CaretInBox(dx - 8, w, cursor - start);
    }
  }

  function CharWidth(charW: int): int {
    if charW < 1 then 6 else charW
  }

  /** Division as Go rounds it, towards zero. */
  function Quotient(a: int, b: int): int
    requires b > 0
  {
    if a >= 0 then a / b else -(-a / b)
  }

  /** How many characters a box shows, at least one. */
  function MaxChars(dx: int, charW: int): (n: int)
    ensures n >= 1
  {
    var n := Quotient(dx - 8, CharWidth(charW));
    if n < 1 then 1 else n
  }

  /** As many as fit into the box less its two margins of four, but at least one; a character without width
      counts for six. */
  lemma MaxCharsIs(dx: int, charW: int)
    ensures var w, n := if charW < 1 then 6 else charW, MaxChars(dx, charW);
            w == CharWidth(charW) && if dx - 8 < w then n == 1 else n * w <= dx - 8 < (n + 1) * w
  {
    var w, space := CharWidth(charW), dx - 8;
    if space >= w {
      var q := space / w;
      assert space == q * w + space % w;
      assert q >= 1;
      assert (q + 1) * w == q * w + w;
    } else if space >= 0 {
      assert space / w == 0;
    }
  }

  lemma CaretInBox(space: int, w: int, k: nat)
    requires w > 0
    requires k < if Quotient(space, w) < 1 then 1 else Quotient(space, w)
    ensures space >= w ==> 0 <= k * w <= space - w
  {
    if space >= w {
      var n := space / w;
      assert n * w <= space;
      assert n >= 1;
      assert k * w <= (n - 1) * w == n * w - w;
    }
  }

  // ---- runs of events ----

  function EditedBy(z: Zipper, events: seq<Event>): Zipper {
    if events == [] then z else
      var n := |events| - 1;
      Edited(EditedBy(z, events[..n]), events[n])
  }

  /** Any run on the buffer is the same run on the pair of texts. */
  method Run(t: TextField, events: seq<Event>)
    requires t.Valid()
    modifies t, t.buf
    ensures t.Valid() && t.Abs() == EditedBy(old(t.Abs()), events)
  {
    ghost var z := t.Abs();
    for i := 0 to |events|
      invariant t.Valid() && (t.buf == old(t.buf) || fresh(t.buf))
      invariant t.Abs() == EditedBy(z, events[..i])
    {
      assert events[..i + 1][..i] == events[..i];
      var _ := t.Edit(events[i]);
    }
    assert events[..|events|] == events;
  }

  /** Events that type `s`, whatever navigation keys they carry. */
  ghost predicate Types(events: seq<Event>, s: string) {
    |events| == |s| && forall i | 0 <= i < |s| :: events[i].rune == s[i] != NO_RUNE
  }

  ghost predicate Backspaces(events: seq<Event>) {
    forall i | 0 <= i < |events| :: events[i] == Event(KeyBackspace, NO_RUNE)
  }

  lemma {:induction false} EditedByAppend(z: Zipper, a: seq<Event>, b: seq<Event>)
    ensures EditedBy(z, a + b) == EditedBy(EditedBy(z, a), b)
  {
    hide Edited;
    if b == [] {
      assert a + b == a;
    } else {
      var n := |b| - 1;
      EditedByAppend(z, a, b[..n]);
      assert (a + b)[..|a| + n] == a + b[..n];
    }
  }

  /** Typing inserts exactly the typed text at the caret. */
  lemma {:induction false} Typing(z: Zipper, events: seq<Event>, s: string)
    requires Types(events, s)
    ensures EditedBy(z, events) == Zipper(z.before + s, z.after)
  {
    if s == [] {
      assert z.before + s == z.before;
    } else {
      var n := |s| - 1;
      Typing(z, events[..n], s[..n]);
      assert z.before + s[..n] + [s[n]] == z.before + s;
    }
  }

  lemma {:induction false} Erasing(z: Zipper, events: seq<Event>)
    requires Backspaces(events) && |events| <= |z.before|
    ensures EditedBy(z, events) == z.(before := z.before[..|z.before| - |events|])
  {
    if events == [] {
      assert z.before[..|z.before|] == z.before;
    } else {
      Erasing(z, events[..|events| - 1]);
    }
  }

  /** Typing any text and backspacing as often restores text and caret, wherever the caret was. */
  lemma TypeThenErase(z: Zipper, typed: seq<Event>, s: string, erased: seq<Event>)
    requires Types(typed, s) && Backspaces(erased) && |erased| == |s|
    ensures EditedBy(z, typed + erased) == z
  {
    EditedByAppend(z, typed, erased);
    Typing(z, typed, s);
    Erasing(Zipper(z.before + s, z.after), erased);
    assert (z.before + s)[..|z.before|] == z.before;
  }

  /** Arrows move the caret over the text without changing it, and undo each other. */
  lemma Arrows(z: Zipper)
    ensures var left, right := Event(KeyLeft, NO_RUNE), Event(KeyRight, NO_RUNE);
            && Edited(z, left).Text() == z.Text() == Edited(z, right).Text()
            && (z.before != "" ==> Edited(Edited(z, left), right) == z)
            && (z.after != "" ==> Edited(Edited(z, right), left) == z)
  {
    hide Zipper.Text;
    LeftArrow(z);
    RightArrow(z);
  }

  lemma LeftArrow(z: Zipper)
    ensures var left := Edited(z, Event(KeyLeft, NO_RUNE));
            left.Text() == z.Text() && (z.before != "" ==> Edited(left, Event(KeyRight, NO_RUNE)) == z)
  {
    var a, b := z.before, z.after;
    if a != "" {
      var front, last := a[..|a| - 1], [a[|a| - 1]];
      assert front + last == a && front + (last + b) == (front + last) + b;
      assert (last + b)[1..] == b;
    }
  }

  lemma RightArrow(z: Zipper)
    ensures var right := Edited(z, Event(KeyRight, NO_RUNE));
            right.Text() == z.Text() && (z.after != "" ==> Edited(right, Event(KeyLeft, NO_RUNE)) == z)
  {
    var a, b := z.before, z.after;
    if b != "" {
      var first, rest := [b[0]], b[1..];
      assert first + rest == b && a + (first + rest) == (a + first) + rest;
      assert (a + first)[..|a|] == a;
    }
  }

  /** At the ends of the text there is nothing to erase and nowhere to go, and what is not consumed does nothing. */
  lemma AtTheEnds(z: Zipper, ev: Event)
    ensures ev.rune == NO_RUNE && z.before == "" && ev.key in {KeyBackspace, KeyLeft} ==> Edited(z, ev) == z
    ensures ev.rune == NO_RUNE && z.after == "" && ev.key == KeyRight ==> Edited(z, ev) == z
    ensures Consumed(ev) <==> ev.rune != NO_RUNE || ev.key in {KeyBackspace, KeyLeft, KeyRight}
    ensures !Consumed(ev) ==> Edited(z, ev) == z
  {}
}
