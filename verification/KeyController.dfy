/** The keypad controller: shift tracking and software auto-repeat over a trace of raw key events
    and ticks. Times are nanoseconds. */
module KeyController {
  import opened KeyMap

  const MS := 1_000_000
  const REPEAT_DELAY := 320 * MS
  const REPEAT_PERIOD := 45 * MS

  /** A raw key event as it is handled, or a tick with its timestamp. */
  datatype Input = Raw(c: code, value: int, now: int) | Tick(now: int)

  /** heldCode is 0 when no key is held. */
  datatype State = State(shift: bool, heldCode: code, heldEvent: Event, heldSince: int)

  const INIT := State(false, 0, Event(KeyNone, NO_RUNE), 0)

  predicate IsShift(c: code) {
    c == LSHIFT || c == RSHIFT
  }

  function Next(s: State, input: Input): State {
    match input
    case Raw(c, value, now) =>
      if IsShift(c) then s.(shift := value != 0)
      else if value == 1 then
        if Accepted(c, s.shift) && Repeatable(c) then
          s.(heldCode := c, heldEvent := Decode(c, s.shift), heldSince := now)
        else s.(heldCode := 0)
      else if value == 0 && c == s.heldCode then s.(heldCode := 0)
      else s
    case Tick(_) => s
  }

  function Emitted(s: State, input: Input): seq<Event> {
    match input
    case Raw(c, value, _) =>
      if !IsShift(c) && value == 1 && Accepted(c, s.shift) then [Decode(c, s.shift)] else []
    case Tick(now) =>
      if s.heldCode != 0 && now - s.heldSince >= REPEAT_DELAY then [s.heldEvent] else []
  }

  class Controller {
    var shift: bool
    var heldCode: code
    var heldEvent: Event
    var heldSince: int

    function Abs(): State
      reads this
    {
      State(shift, heldCode, heldEvent, heldSince)
    }

    constructor ()
      ensures Abs() == INIT
    {
      shift, heldCode, heldEvent, heldSince := false, 0, Event(KeyNone, NO_RUNE), 0;
    }

    /** One turn of the select loop; `out` is what it sends. */
    method Handle(input: Input) returns (out: seq<Event>)
      modifies this
      ensures Abs() == Next(old(Abs()), input) && out == Emitted(old(Abs()), input)
    {
      out := [];
      match input
      case Raw(c, value, now) =>
        if c == LSHIFT || c == RSHIFT {
          shift := value != 0;
          return;
        }
        if value == 1 {
          var e := Event(MapKey(c), PrintableRune(c, shift));
          if e.key == KeyNone && e.rune == NO_RUNE {
            heldCode := 0;
            return;
          }
          out := [e];
          if Repeatable(c) {
            heldCode, heldEvent, heldSince := c, e, now;
          } else {
            heldCode := 0;
          }
        } else if value == 0 {
          if c == heldCode {
            heldCode := 0;
          }
        }
      case Tick(now) =>
        if heldCode != 0 && now - heldSince >= REPEAT_DELAY {
          out := [heldEvent];
        }
    }

    /** A run of the loop over a trace. */
    method Run(trace: seq<Input>) returns (out: seq<Event>)
      requires Abs() == INIT
      modifies this
      ensures Abs() == After(trace) && out == Output(trace)
    {
      out := [];
      for i := 0 to |trace|
        invariant Abs() == After(trace[..i]) && out == Output(trace[..i])
      {
        var e := Handle(trace[i]);
        out := out + e;
        assert trace[..i + 1][..i] == trace[..i];
      }
      assert trace[..|trace|] == trace;
    }
  }

  function After(trace: seq<Input>): State {
    if trace == [] then INIT else
      var n := |trace| - 1;
      Next(After(trace[..n]), trace[n])
  }

  function Output(trace: seq<Input>): seq<Event> {
    if trace == [] then [] else
      var n := |trace| - 1;
      Output(trace[..n]) + Emitted(After(trace[..n]), trace[n])
  }

  // ---- the controller told by looking back over the trace ----

  predicate IsPress(input: Input) {
    input.Raw? && !IsShift(input.c) && input.value == 1
  }

  predicate IsRelease(input: Input, c: code) {
    input.Raw? && !IsShift(input.c) && input.value == 0 && input.c == c
  }

  /** Shift as the last shift event left it. */
  function ShiftAfter(trace: seq<Input>): bool {
    if trace == [] then false else
      var n := |trace| - 1;
      if trace[n].Raw? && IsShift(trace[n].c) then trace[n].value != 0 else ShiftAfter(trace[..n])
  }

  /** The event of the press at `i`, under the shift state at that moment. */
  function PressEvent(trace: seq<Input>, i: nat): Event
    requires i < |trace| && IsPress(trace[i])
  {
    Decode(trace[i].c, ShiftAfter(trace[..i]))
  }

  /** The press at `i` is the latest one, repeats, means something, and has not been released since. */
  ghost predicate HeldSince(trace: seq<Input>, i: nat) {
    && i < |trace| && IsPress(trace[i])
    && Repeatable(trace[i].c) && Accepted(trace[i].c, ShiftAfter(trace[..i]))
    && forall j | i < j < |trace| :: !IsPress(trace[j]) && !IsRelease(trace[j], trace[i].c)
  }

  lemma {:induction false} ShiftTracked(trace: seq<Input>)
    ensures After(trace).shift == ShiftAfter(trace)
  {
    if trace != [] {
      ShiftTracked(trace[..|trace| - 1]);
    }
  }

  lemma HeldSincePrefix(trace: seq<Input>, i: nat)
    requires i < |trace| - 1
    ensures HeldSince(trace, i) <==>
              HeldSince(trace[..|trace| - 1], i)
              && !IsPress(trace[|trace| - 1]) && !IsRelease(trace[|trace| - 1], trace[i].c)
  {
    var front := trace[..|trace| - 1];
    assert front[..i] == trace[..i];
    if HeldSince(trace, i) {
      assert forall j | i < j < |front| :: front[j] == trace[j];
    }
    if HeldSince(front, i) {
      assert forall j | i < j < |front| :: front[j] == trace[j];
    }
  }

  /** In every reachable state the held key is the latest press, with the event it was decoded to. */
  lemma {:induction false} HeldKey(trace: seq<Input>, i: nat)
    requires HeldSince(trace, i)
    ensures After(trace).heldCode == trace[i].c != 0
    ensures After(trace).heldEvent == PressEvent(trace, i)
    ensures After(trace).heldSince == trace[i].now
  {
    var n := |trace| - 1;
    ShiftTracked(trace[..n]);
    if i < n {
      HeldSincePrefix(trace, i);
      HeldKey(trace[..n], i);
      assert trace[..n][..i] == trace[..i];
    }
  }

  /** And nothing is held otherwise. */
  lemma {:induction false} HeldPress(trace: seq<Input>) returns (i: nat)
    requires After(trace).heldCode != 0
    ensures HeldSince(trace, i)
  {
    var n := |trace| - 1;
    ShiftTracked(trace[..n]);
    if IsPress(trace[n]) {
      i := n;
    } else {
      i := HeldPress(trace[..n]);
      HeldKey(trace[..n], i);
      HeldSincePrefix(trace, i);
    }
  }

  /** The output is a function of the input alone: an accepted press sends its event; a tick repeats
      the event of the held press once that press is REPEAT_DELAY old; nothing else sends anything. */
  lemma OutputSpec(trace: seq<Input>)
    requires trace != []
    ensures var n := |trace| - 1; var e := Output(trace)[|Output(trace[..n])|..];
            Output(trace) == Output(trace[..n]) + e
            && (IsPress(trace[n]) ==>
                  e == if Accepted(trace[n].c, ShiftAfter(trace[..n])) then [PressEvent(trace, n)] else [])
            && (trace[n].Raw? && !IsPress(trace[n]) ==> e == [])
            && (trace[n].Tick? ==>
                  (forall i: nat | HeldSince(trace[..n], i) ::
                     e == if trace[n].now - trace[i].now >= 320_000_000 then [PressEvent(trace, i)] else [])
                  && ((forall i: nat :: !HeldSince(trace[..n], i)) ==> e == []))
  {
    hide MapKey, PrintableRune, Repeatable;
    var n := |trace| - 1;
    var front := trace[..n];
    ShiftTracked(front);
    if trace[n].Tick? {
      forall i: nat | HeldSince(front, i)
        ensures After(front).heldCode != 0 && After(front).heldEvent == PressEvent(trace, i)
                && After(front).heldSince == trace[i].now
      {
        HeldKey(front, i);
        assert front[..i] == trace[..i];
      }
      if After(front).heldCode != 0 {
        var i := HeldPress(front);
      }
    }
  }

  // ---- letters over a trace ----

  /** A left or right shift key went down or up. */
  predicate IsShiftEvent(input: Input) {
    input.Raw? && (input.c == 42 || input.c == 54)
  }

  /** The last shift event of the trace was not a release. */
  ghost predicate ShiftDown(trace: seq<Input>) {
    exists j :: 0 <= j < |trace| && LastShift(trace, j) && trace[j].value != 0
  }

  ghost predicate LastShift(trace: seq<Input>, j: int)
    requires 0 <= j < |trace|
  {
    IsShiftEvent(trace[j]) && forall k | j < k < |trace| :: !IsShiftEvent(trace[k])
  }

  lemma {:induction false} ShiftAfterIs(trace: seq<Input>)
    ensures ShiftAfter(trace) <==> ShiftDown(trace)
  {
    if trace != [] {
      var n := |trace| - 1;
      var front := trace[..n];
      ShiftAfterIs(front);
      if IsShiftEvent(trace[n]) {
        assert LastShift(trace, n);
      } else {
        forall j | 0 <= j < n
          ensures LastShift(trace, j) <==> LastShift(front, j)
        {
          assert trace[j] == front[j];
        }
      }
    }
  }

  /** An accepted press sends one event. Its character is a capital letter exactly when the key is a letter key
      and shift is down, a small letter exactly when it is a letter key and shift is up; whatever else the event
      says does not depend on shift. */
  lemma PressSends(trace: seq<Input>)
    requires trace != [] && IsPress(trace[|trace| - 1])
    ensures var n := |trace| - 1; var e, c := Output(trace)[|Output(trace[..n])|..], trace[n].c;
            && Output(trace) == Output(trace[..n]) + e && |e| == (if Accepted(c, false) then 1 else 0)
            && (e != [] ==>
                  && e[0].key == MapKey(c)
                  && ('A' <= e[0].rune <= 'Z' <==> IsLetterKey(c) && ShiftDown(trace[..n]))
                  && ('a' <= e[0].rune <= 'z' <==> IsLetterKey(c) && !ShiftDown(trace[..n]))
                  && (!IsLetterKey(c) ==> e[0].rune == PrintableRune(c, false))
                  && (IsLetterKey(c) ==>
                        e[0].rune as int == PrintableRune(c, false) as int - if ShiftDown(trace[..n]) then 32 else 0))
  {
    hide MapKey, PrintableRune, Repeatable, HeldSince;
    var n := |trace| - 1;
    OutputSpec(trace);
    ShiftAfterIs(trace[..n]);
    ShiftIsCase(trace[n].c);
  }

  /** The key prints a letter. */
  predicate IsLetterKey(c: code) {
    'a' <= PrintableRune(c, false) <= 'z'
  }

  // ---- commit keys ----

  function CountKey(events: seq<Event>, key: Key): nat {
    if events == [] then 0 else
      var n := |events| - 1;
      CountKey(events[..n], key) + if events[n].key == key then 1 else 0
  }

  function CountPresses(trace: seq<Input>, c: code): nat {
    if trace == [] then 0 else
      var n := |trace| - 1;
      CountPresses(trace[..n], c) + if IsPress(trace[n]) && trace[n].c == c then 1 else 0
  }

  lemma CountOne(events: seq<Event>, more: seq<Event>, key: Key)
    requires |more| <= 1
    ensures CountKey(events + more, key) == CountKey(events, key) + if more != [] && more[0].key == key then 1 else 0
  {
    if more == [] {
      assert events + more == events;
    } else {
      assert (events + more)[..|events|] == events;
    }
  }

  /** A held key never repeats Enter, Esc or Tab: their events number exactly their presses. */
  lemma {:induction false} CommitCount(trace: seq<Input>, key: Key, c: code)
    requires (key == KeyEnter && c == ENTER) || (key == KeyBack && c == ESC) || (key == KeyTab && c == TAB)
    ensures CountKey(Output(trace), key) == CountPresses(trace, c)
  {
    if trace != [] {
      var n := |trace| - 1;
      var front := trace[..n];
      CommitCount(front, key, c);
      CountOne(Output(front), Emitted(After(front), trace[n]), key);
      if trace[n].Raw? {
        CommitKeys(trace[n].c, After(front).shift);
      } else if After(front).heldCode != 0 {
        var i := HeldPress(front);
        HeldKey(front, i);
        CommitKeys(front[i].c, ShiftAfter(front[..i]));
      }
    }
  }

  // ---- how fast a held key repeats ----

  /** Ticks after `i` carry timestamps at least one period apart. */
  ghost predicate TicksSpaced(trace: seq<Input>, i: nat) {
    forall j, k | i < j < k < |trace| && trace[j].Tick? && trace[k].Tick? ::
      trace[k].now - trace[j].now >= 45_000_000
  }

  /** What has been sent from the press at `i` on. */
  function SentSince(trace: seq<Input>, i: nat): int
    requires i <= |trace|
  {
    |Output(trace)| - |Output(trace[..i])|
  }

  /** The latest repeat is late enough for as many repeats as there have been. */
  lemma {:induction false} RepeatPace(trace: seq<Input>, i: nat) returns (k: nat)
    requires HeldSince(trace, i) && TicksSpaced(trace, i)
    ensures SentSince(trace, i) >= 1
    ensures SentSince(trace, i) >= 2 ==>
              i < k < |trace| && trace[k].Tick?
              && trace[k].now - trace[i].now >= REPEAT_DELAY + REPEAT_PERIOD * (SentSince(trace, i) - 2)
  {
    hide MapKey, PrintableRune, Repeatable, Decode;
    var n := |trace| - 1;
    var front := trace[..n];
    k := 0;
    if i == n {
      ShiftTracked(front);
    } else {
      HeldSincePrefix(trace, i);
      assert front[..i] == trace[..i];
      assert TicksSpaced(front, i);
      k := RepeatPace(front, i);
      HeldKey(front, i);
      if trace[n].Tick? && trace[n].now - trace[i].now >= REPEAT_DELAY {
        if SentSince(front, i) >= 2 {
          assert trace[n].now - trace[k].now >= REPEAT_PERIOD;
        }
        k := n;
      }
    }
  }

  /** A hold of `d` sends the press and at most one repeat per period after the delay. */
  lemma RepeatLimit(trace: seq<Input>, i: nat, d: int)
    requires HeldSince(trace, i) && TicksSpaced(trace, i) && d >= 320_000_000
    requires forall k | i < k < |trace| && trace[k].Tick? :: trace[k].now - trace[i].now <= d
    ensures SentSince(trace, i) <= 2 + (d - 320_000_000) / 45_000_000
  {
    var k := RepeatPace(trace, i);
    var r := SentSince(trace, i);
    if r >= 2 {
      assert REPEAT_PERIOD * (r - 2) <= d - REPEAT_DELAY;
    }
  }
}
