/** The config form of a tool screen: which field has the focus, how far the form is scrolled, and
    where the visible fields are laid out. */
module ConfigForm {
  import opened KeyMap
  import T = TextField
  import opened Splitting

  const CFG_ROW_H := 34
  const CFG_NOTE_LN := 13
  const CFG_NOTE_PAD := 6

  datatype Field = Note(text: string) | Line(caption: string) | Checkbox(caption: string)

  /** What a key press does to the form. */
  datatype Response = Leave | MovedFocus | Submitted | EditedText | Toggled | Ignored

  function CountNewlines(s: string): nat {
    if s == "" then 0 else CountNewlines(s[1..]) + if s[0] == '\n' then 1 else 0
  }

  function FieldHeight(f: Field): (h: int)
    ensures h > 0
  {
    match f
    case Note(text) => (CountNewlines(text) + 1) * CFG_NOTE_LN + CFG_NOTE_PAD
    case _ => CFG_ROW_H
  }

  /** The height of fields i up to, not including, j. */
  function Height(fields: seq<Field>, i: nat, j: nat): (h: int)
    requires j <= |fields|
    ensures h >= 0
    decreases j
  {
    if i >= j then 0 else Height(fields, i, j - 1) + FieldHeight(fields[j - 1])
  }

  lemma {:induction false} HeightGrows(fields: seq<Field>, i: nat, j: nat, k: nat)
    requires j <= k <= |fields|
    ensures Height(fields, i, j) <= Height(fields, i, k)
  {
    if j < k {
      HeightGrows(fields, i, j, k - 1);
    }
  }

  // ---- cyclic order ----

  /** The position `k` steps from `f` around a ring of `n`, forwards or backwards. */
  function Around(f: nat, delta: int, k: nat, n: nat): (p: nat)
    requires f < n && k <= n && (delta == 1 || delta == -1)
    ensures p < n
  {
    if delta == 1 then (if f + k < n then f + k else f + k - n)
    else (if f >= k then f - k else f - k + n)
  }

  lemma AroundNext(f: nat, delta: int, k: nat, n: nat)
    requires f < n && k < n && (delta == 1 || delta == -1)
    ensures Around(f, delta, k + 1, n) == (Around(f, delta, k, n) + delta + n) % n
  {
    var p := Around(f, delta, k, n) + delta;
    assert p < 0 || p >= n || (p + n) % n == p by { Remainder(p, n); }
    if p < 0 { Remainder(n - 1, n); }
    if p >= n { Remainder(0, n); }
  }

  lemma Remainder(p: int, n: nat)
    requires n > 0
    ensures 0 <= p < n ==> p % n == p && (p + n) % n == p && (p + n + n) % n == p
  {
    if 0 <= p < n {
      assert p / n == 0;
      assert (p + n) / n == 1 && (p + n + n) / n == 2 by {
        assert p + n == 1 * n + p && p + n + n == 2 * n + p;
      }
    }
  }

  /** The first `k` - 1 fields met from `f` are notes. */
  ghost predicate NotesBefore(fields: seq<Field>, f: nat, delta: int, k: nat) {
    && f < |fields| && k <= |fields| + 1 && (delta == 1 || delta == -1)
    && forall j: nat | 1 <= j < k :: fields[Around(f, delta, j, |fields|)].Note?
  }

  ghost predicate NearestAt(fields: seq<Field>, f: nat, delta: int, t: nat, k: nat) {
    && 1 <= k <= |fields| && NotesBefore(fields, f, delta, k)
    && t == Around(f, delta, k, |fields|) && (k < |fields| ==> !fields[t].Note?)
  }

  /** `t` is the nearest non-note from `f` in that direction; `f` itself, a full turn away, when
      there is no other. */
  ghost predicate Nearest(fields: seq<Field>, f: nat, delta: int, t: nat) {
    exists k: nat :: NearestAt(fields, f, delta, t, k)
  }

  /** There is only one such field. */
  lemma NearestUnique(fields: seq<Field>, f: nat, delta: int, t: nat, u: nat)
    requires Nearest(fields, f, delta, t) && Nearest(fields, f, delta, u)
    ensures t == u
  {
    var k: nat :| NearestAt(fields, f, delta, t, k);
    var l: nat :| NearestAt(fields, f, delta, u, l);
  }

  /** And it is a non-note whenever there is one at all. */
  lemma NearestIsField(fields: seq<Field>, f: nat, delta: int, t: nat, some: nat)
    requires Nearest(fields, f, delta, t) && some < |fields| && !fields[some].Note?
    ensures !fields[t].Note?
  {
    var n := |fields|;
    var k: nat :| NearestAt(fields, f, delta, t, k);
    var j: nat := if delta == 1 then (if some > f then some - f else some - f + n)
                  else (if some < f then f - some else f - some + n);
    assert Around(f, delta, j, n) == some;
  }

  /** Forwards and back again: the two directions undo each other from a focused field. */
  lemma NearestInverse(fields: seq<Field>, f: nat, delta: int, t: nat)
    requires Nearest(fields, f, delta, t) && !fields[f].Note?
    ensures Nearest(fields, t, -delta, f)
  {
    var n := |fields|;
    var k: nat :| NearestAt(fields, f, delta, t, k);
    assert f == Around(t, -delta, k, n);
    forall j: nat {:trigger Around(t, -delta, j, n)} | 1 <= j < k
      ensures fields[Around(t, -delta, j, n)].Note?
    {
      assert Around(t, -delta, j, n) == Around(f, delta, k - j, n);
    }
    assert NearestAt(fields, t, -delta, f, k);
  }

  // ---- scrolling ----

  /** The fields from `s` to the focus fit into the content area. */
  predicate Fits(fields: seq<Field>, s: nat, focus: nat, space: int)
    requires focus < |fields|
  {
    Height(fields, s, focus + 1) <= space
  }

  /** `s` is the least scroll from `from` on that shows the focus. */
  ghost predicate LeastScroll(fields: seq<Field>, from: nat, focus: nat, space: int, s: nat)
    requires focus < |fields|
  {
    && from <= s <= focus && (s == focus || Fits(fields, s, focus, space))
    && forall r: nat | from <= r < s :: !Fits(fields, r, focus, space)
  }

  /** There is one such scroll, and drawing again from it moves nothing. */
  lemma LeastScrollStable(fields: seq<Field>, from: nat, focus: nat, space: int, s: nat, t: nat)
    requires focus < |fields| && LeastScroll(fields, from, focus, space, s)
    requires LeastScroll(fields, from, focus, space, t) || LeastScroll(fields, s, focus, space, t)
    ensures s == t
  {}

  /** A field drawn at `y`. */
  datatype Placed = Placed(index: nat, y: int, h: int)

  /** The fields from `scroll` on, one below the other from the top of the content area. */
  ghost predicate LaidOut(fields: seq<Field>, scroll: nat, top: int, placed: seq<Placed>) {
    && scroll + |placed| <= |fields|
    && forall k | 0 <= k < |placed| ::
         placed[k] == Placed(scroll + k, top + Height(fields, scroll, scroll + k), FieldHeight(fields[scroll + k]))
  }

  class ConfigForm {
    const fields: seq<Field>
    // one editor per field; only lines of text use theirs
    const editors: seq<T.TextField>
    var on: seq<bool>
    var focus: nat
    var scroll: nat

    /** The focus is on a field, and on a real one if there is one. */
    ghost predicate Valid()
      reads this
    {
      && |editors| == |on| == |fields|
      && (fields != [] ==> focus < |fields|)
      && (fields == [] ==> focus == 0 && scroll == 0)
      && (forall i | 0 <= i < |fields| :: !fields[i].Note? ==> !fields[focus].Note?)
    }

    constructor (fields: seq<Field>, editors: seq<T.TextField>, on: seq<bool>)
      requires |editors| == |on| == |fields|
      ensures Valid() && this.fields == fields && this.editors == editors && this.on == on && scroll == 0
      ensures forall i | 0 <= i < focus :: fields[i].Note?
    {
      this.fields, this.editors, this.on := fields, editors, on;
      focus, scroll := 0, 0;
      new;
      for i := 0 to |fields|
        invariant focus == 0 == scroll
        invariant forall j | 0 <= j < i :: fields[j].Note?
      {
        if !fields[i].Note? {
          focus := i;
          break;
        }
      }
    }

    method MoveFocus(delta: int)
      requires Valid() && (delta == 1 || delta == -1)
      modifies this`focus
      ensures Valid()
      ensures if fields == [] then focus == old(focus) else Nearest(fields, old(focus), delta, focus)
    {
      var n := |fields|;
      if n == 0 {
        return;
      }
      ghost var f := focus;
      for k := 0 to n
        invariant focus == Around(f, delta, k, n)
        invariant NotesBefore(fields, f, delta, k + 1)
      {
        AroundNext(f, delta, k, n);
        focus := (focus + delta + n) % n;
        if !fields[focus].Note? {
          assert NearestAt(fields, f, delta, focus, k + 1);
          NearestValid(f, delta);
          return;
        }
      }
      assert NearestAt(fields, f, delta, focus, n);
      NearestValid(f, delta);
    }

    lemma NearestValid(f: nat, delta: int)
      requires Nearest(fields, f, delta, focus) && |editors| == |on| == |fields|
      ensures Valid()
    {
      forall i | 0 <= i < |fields| && !fields[i].Note?
        ensures !fields[focus].Note?
      {
        NearestIsField(fields, f, delta, focus, i);
      }
    }

    /** Which branch a key press takes: leaving, moving and submitting come first; letters that double as
        arrows go to the focused field. */
    function ResponseTo(ev: Event): Response
      requires Valid()
      reads this
    {
      if ev.key == KeyBack then Leave
      else if ev.key == KeyTab || (ev.rune == NO_RUNE && (ev.key == KeyDown || ev.key == KeyUp)) then MovedFocus
      else if ev.key == KeyEnter then Submitted
      else if fields == [] then Ignored
      else if fields[focus].Line? then EditedText
      else if ev.rune == ' ' || ev.key == KeyLeft || ev.key == KeyRight then Toggled
      else Ignored
    }

    /** On a focused line of text every printable key, Tab, Esc and Enter apart, edits it, d-pad letters included,
        and so do the real side arrows and Backspace. */
    lemma TypingEdits(ev: Event)
      requires Valid() && fields != [] && fields[focus].Line?
      requires ev.key !in {KeyTab, KeyBack, KeyEnter}
      ensures ev.rune != NO_RUNE || ev.key !in {KeyUp, KeyDown} ==> ResponseTo(ev) == EditedText
      ensures ev.rune == NO_RUNE && ev.key in {KeyUp, KeyDown} ==> ResponseTo(ev) == MovedFocus
    {}

    /** A focused box is toggled by the space bar and by the side arrows, f, x and the other letters aside. */
    lemma SpaceToggles(ev: Event)
      requires Valid() && fields != [] && fields[focus].Checkbox?
      ensures ev.rune == ' ' && ev.key == KeyNone ==> ResponseTo(ev) == Toggled
      ensures ev.key in {KeyLeft, KeyRight} ==> ResponseTo(ev) == Toggled
      ensures ev.key == KeyNone && ev.rune != ' ' ==> ResponseTo(ev) == Ignored
    {}

    /** In every form Esc leaves, Enter submits and Tab moves on. */
    lemma CommandKeys(ev: Event)
      requires Valid()
      ensures (ResponseTo(ev) == Leave <==> ev.key == KeyBack) && (ResponseTo(ev) == Submitted <==> ev.key == KeyEnter)
      ensures ev.key == KeyTab ==> ResponseTo(ev) == MovedFocus
    {}

    /** A key press. Moving changes nothing but the focus, editing nothing but the focused editor, toggling
        nothing but the focused box, and leaving and submitting nothing. */
    method KeyConfig(ev: Event) returns (r: Response)
      requires Valid() && forall e <- editors :: e.Valid()
      modifies this`focus, this`on, if fields == [] then {} else {editors[focus], editors[focus].buf}
      ensures Valid() && r == old(ResponseTo(ev))
      ensures r == MovedFocus && fields != [] ==> Nearest(fields, old(focus), if ev.key == KeyUp then -1 else 1, focus)
      ensures r != MovedFocus ==> focus == old(focus)
      ensures on == if r == Toggled then old(on)[focus := !old(on)[focus]] else old(on)
      ensures r == EditedText ==>
                editors[focus].Valid() && editors[focus].Abs() == T.Edited(old(editors[focus].Abs()), ev)
      ensures r != EditedText && fields != [] ==>
                var e := editors[old(focus)]; unchanged(e) && unchanged(old(e.buf))
    {
      if ev.key == KeyBack {
        return Leave;
      } else if ev.key == KeyTab || (ev.rune == NO_RUNE && ev.key == KeyDown) {
        MoveFocus(1);
        r := MovedFocus;
      } else if ev.rune == NO_RUNE && ev.key == KeyUp {
        MoveFocus(-1);
        r := MovedFocus;
      } else if ev.key == KeyEnter {
        r := Submitted;
      } else {
        r := Ignored;
        if |fields| == 0 {
          return;
        }
        if fields[focus].Line? {
          var _ := editors[focus].Edit(ev);
          r := EditedText;
        } else if ev.rune == ' ' || ev.key == KeyLeft || ev.key == KeyRight {
          on := on[focus := !on[focus]];
          r := Toggled;
        }
      }
    }

    /** The scroll loop, which keeps the focused field in a content area `space` high. */
    method AdjustScroll(space: int)
      requires Valid()
      modifies this`scroll
      ensures Valid() && scroll <= focus
      ensures fields != [] ==>
                LeastScroll(fields, if focus < old(scroll) then focus else old(scroll), focus, space, scroll)
    {
      if focus < scroll {
        scroll := focus;
      }
      ghost var from := scroll;
      while scroll < focus
        invariant from <= scroll <= focus
        invariant forall r: nat | from <= r < scroll :: !Fits(fields, r, focus, space)
      {
        var h, fits := 0, true;
        var i := scroll;
        while i <= focus
          invariant scroll <= i <= focus + 1
          invariant fits && h == Height(fields, scroll, i) && (i > scroll ==> h <= space)
        {
          h := h + FieldHeight(fields[i]);
          i := i + 1;
          if h > space {
            fits := false;
            HeightGrows(fields, scroll, i, focus + 1);
            break;
          }
        }
        if fits {
          break;
        }
        scroll := scroll + 1;
      }
    }

    /** The layout loop: places fields from the scroll on, until one does not fit any more. */
    method Layout(top: int, bottom: int) returns (placed: seq<Placed>)
      requires Valid() && scroll <= |fields|
      ensures LaidOut(fields, scroll, top, placed)
      ensures forall k | 1 <= k < |placed| :: placed[k].y + placed[k].h <= bottom
      ensures scroll + |placed| < |fields| ==>
                Height(fields, scroll, scroll + |placed| + 1) > bottom - top && placed != []
    {
      placed := [];
      var y := top;
      var i := scroll;
      while i < |fields|
        invariant i == scroll + |placed| <= |fields|
        invariant LaidOut(fields, scroll, top, placed) && y == top + Height(fields, scroll, i)
        invariant forall k | 1 <= k < |placed| :: placed[k].y + placed[k].h <= bottom
      {
        var h := FieldHeight(fields[i]);
        if y + h > bottom && y > top {
          break;
        }
        placed := placed + [Placed(i, y, h)];
        y := y + h;
        i := i + 1;
      }
    }

    /** One frame of the form: the focused field is always drawn, and lies fully inside the content
        area whenever it is no higher than that area. */
    method DrawConfig(top: int, bottom: int) returns (placed: seq<Placed>)
      requires Valid()
      modifies this`scroll
      ensures Valid() && scroll <= focus && LaidOut(fields, scroll, top, placed)
      ensures fields != [] ==>
                LeastScroll(fields, if focus < old(scroll) then focus else old(scroll), focus, bottom - top, scroll)
      ensures fields != [] && scroll > old(scroll) ==> Height(fields, scroll - 1, focus + 1) > bottom - top
      ensures fields != [] ==>
                && focus - scroll < |placed| && placed[focus - scroll].index == focus
                && top <= placed[focus - scroll].y
                && (FieldHeight(fields[focus]) <= bottom - top ==>
                      placed[focus - scroll].y + placed[focus - scroll].h <= bottom)
    {
      ghost var from := scroll;
      AdjustScroll(bottom - top);
      assert fields != [] && scroll > from ==> !Fits(fields, scroll - 1, focus, bottom - top);
      placed := Layout(top, bottom);
      if fields != [] {
        FocusPlaced(fields, scroll, focus, top, bottom, placed);
      }
    }
  }

  lemma FocusPlaced(fields: seq<Field>, scroll: nat, focus: nat, top: int, bottom: int, placed: seq<Placed>)
    requires scroll <= focus < |fields| && LaidOut(fields, scroll, top, placed)
    requires scroll == focus || Fits(fields, scroll, focus, bottom - top)
    requires scroll + |placed| < |fields| ==>
               Height(fields, scroll, scroll + |placed| + 1) > bottom - top && placed != []
    ensures focus - scroll < |placed|
    ensures FieldHeight(fields[focus]) <= bottom - top ==>
              placed[focus - scroll].y + placed[focus - scroll].h <= bottom
  {
    if focus - scroll >= |placed| {
      HeightGrows(fields, scroll, scroll + |placed| + 1, focus + 1);
      assert false;
    }
  }

  // ---- the form's numbers and choices, told outright ----

  lemma {:induction false} LinesOf(s: string)
    ensures |Parts(s, '\n')| == CountNewlines(s) + 1
  {
    if s != "" {
      LinesOf(s[1..]);
    }
  }

  /** A note is as high as its lines, thirteen each, and six more; every other field is 34 high. */
  lemma HeightIs(f: Field)
    ensures FieldHeight(f) == if f.Note? then 13 * |Parts(f.text, '\n')| + 6 else 34
  {
    if f.Note? {
      LinesOf(f.text);
    }
  }

  /** Between i and j, both not included, there are only notes. */
  ghost predicate OnlyNotes(fields: seq<Field>, i: int, j: int) {
    forall k | 0 <= k < |fields| && i < k < j :: fields[k].Note?
  }

  /** Forwards the focus goes to the first field behind it that is not a note, else around to the first one of
      all; backwards to the last one before it, else around to the last one of all. */
  lemma NearestIs(fields: seq<Field>, f: nat, delta: int, t: nat)
    requires Nearest(fields, f, delta, t)
    ensures t < |fields|
    ensures delta == 1 ==> if t > f then OnlyNotes(fields, f, t)
                           else OnlyNotes(fields, f, |fields|) && OnlyNotes(fields, -1, t)
    ensures delta == -1 ==> if t < f then OnlyNotes(fields, t, f)
                            else OnlyNotes(fields, -1, f) && OnlyNotes(fields, t, |fields|)
  {
    var n := |fields|;
    var k: nat :| NearestAt(fields, f, delta, t, k);
    forall x | 0 <= x < n && x != f
      ensures var j := if delta == 1 then (if x > f then x - f else x - f + n)
                       else (if x < f then f - x else f - x + n);
              1 <= j < k ==> fields[x].Note?
    {
      var j: nat := if delta == 1 then (if x > f then x - f else x - f + n)
                    else (if x < f then f - x else f - x + n);
      assert Around(f, delta, j, n) == x;
    }
  }
}
