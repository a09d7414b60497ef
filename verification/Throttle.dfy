/** Whole runs of the login throttle, with any number of keys and of requests in flight. */
module Throttle {
  import opened RateLimiter
  import opened FailureLimits

  /** What the login handler does to the throttle: ask at the start of a request; then record a
      failure, clear the key after a success, or do neither when the verifier is unavailable. */
  datatype Event = Begin(key: string, now: int) | Fail(key: string, now: int)
                 | Success(key: string) | Abort(key: string)

  function Step(cfg: Config, table: Table, e: Event): Table {
    match e
    case Begin(_, _) => table
    case Fail(key, now) => Failed(cfg, table, key, now)
    case Success(key) => table - {key}
    case Abort(_) => table
  }

  function After(cfg: Config, trace: seq<Event>): Table {
    if trace == [] then map[] else
      var n := |trace| - 1;
      Step(cfg, After(cfg, trace[..n]), trace[n])
  }

  /** The key's requests in flight: allowed and not yet answered. */
  function InFlight(cfg: Config, trace: seq<Event>, key: string): int {
    if trace == [] then 0 else
      var n := |trace| - 1;
      var before := InFlight(cfg, trace[..n], key);
      if trace[n].key != key then before
      else if !trace[n].Begin? then before - 1
      else if Passes(After(cfg, trace[..n]), key, trace[n].now) then before + 1
      else before
  }

  predicate Timed(e: Event) {
    e.Begin? || e.Fail?
  }

  /** Nothing has been timed later than `t`. */
  ghost predicate Until(trace: seq<Event>, t: int) {
    forall i | 0 <= i < |trace| && Timed(trace[i]) :: trace[i].now <= t
  }

  /** Time does not run backwards, every answer of the key is to a request in flight, and at most
      `c` of its requests are in flight at once. */
  ghost predicate Handled(cfg: Config, trace: seq<Event>, key: string, c: nat) {
    trace != [] ==>
      var n := |trace| - 1;
      && Handled(cfg, trace[..n], key, c)
      && (Timed(trace[n]) ==> Until(trace[..n], trace[n].now))
      && (trace[n].key == key && !trace[n].Begin? ==> InFlight(cfg, trace[..n], key) >= 1)
      && InFlight(cfg, trace, key) <= c
  }

  ghost predicate NoSuccess(trace: seq<Event>, key: string) {
    forall i | 0 <= i < |trace| :: trace[i] != Success(key)
  }

  /** The key's failures between `a` and `b`. */
  function Failures(trace: seq<Event>, key: string, a: int, b: int): nat {
    if trace == [] then 0 else
      var n := |trace| - 1;
      Failures(trace[..n], key, a, b)
      + if trace[n].Fail? && trace[n].key == key && a <= trace[n].now <= b then 1 else 0
  }

  lemma OtherKey(cfg: Config, table: Table, e: Event, key: string)
    requires e.key != key
    ensures key in Step(cfg, table, e) <==> key in table
    ensures key in table ==> Step(cfg, table, e)[key] == table[key]
  {}

  lemma {:induction false} InFlightNonNegative(cfg: Config, trace: seq<Event>, key: string, c: nat)
    requires Handled(cfg, trace, key, c)
    ensures 0 <= InFlight(cfg, trace, key) <= c
  {
    if trace != [] {
      InFlightNonNegative(cfg, trace[..|trace| - 1], key, c);
    }
  }

  // ---- the bound on failures per window ----

  /** Nothing of the key has happened later than `b`. */
  ghost predicate By(trace: seq<Event>, key: string, b: int) {
    forall i | 0 <= i < |trace| && Timed(trace[i]) && trace[i].key == key :: trace[i].now <= b
  }

  /** The key's successes, if any, come before anything of it that is timed at `a` or later. */
  ghost predicate NoSuccessSince(trace: seq<Event>, key: string, a: int) {
    forall i | 0 <= i < |trace| && trace[i] == Success(key) :: By(trace[..i], key, a - 1)
  }

  lemma NoSuccessFront(trace: seq<Event>, key: string, a: int)
    requires trace != [] && NoSuccessSince(trace, key, a)
    ensures var n := |trace| - 1;
            NoSuccessSince(trace[..n], key, a) && (trace[n] == Success(key) ==> By(trace[..n], key, a - 1))
  {
    var front := trace[..|trace| - 1];
    forall i | 0 <= i < |front| && front[i] == Success(key)
      ensures By(front[..i], key, a - 1)
    {
      assert trace[..i] == front[..i];
    }
  }

  /** What `n` failures in the interval from `a` to `b`, and `o` requests in flight, mean for the key's
      bucket, with a lockout as long as the window: it began before the interval with a failure or with a
      trip; or it began in the interval with a failure or with a trip, and is locked to the end of the
      interval if it was a trip. `quiet` says that no clock reading so far lies behind the bucket's lockout. */
  ghost predicate LongAccounts(cfg: Config, e: Entry, a: int, b: int, n: nat, o: int, c: nat, quiet: bool) {
    || (e.first < a && 1 <= e.fails && (n == 0 || n < e.fails))
    || (e.first < a && e.lockedTo == e.first + cfg.lockout && n <= e.fails && n <= c - 1
        && (n >= 1 ==> a <= e.first + cfg.window) && (quiet ==> n + o <= c - 1))
    || (a <= e.first && 1 <= e.fails && n <= Carry(cfg, c) + e.fails)
    || (a <= e.first && b <= e.lockedTo && n + o <= LongMost(cfg, c))
  }

  /** With a shorter one: it began before the interval; or in it with a failure, possibly after a bucket that
      ran out; or in it with a trip. During a lockout only requests in flight fail, and each `max` of
      those trip it once more. */
  ghost predicate ShortAccounts(cfg: Config, e: Entry, a: int, n: nat, o: int, c: nat, quiet: bool)
    requires Settings(cfg, c)
  {
    || (e.first < a && n <= e.fails && (n >= 1 ==> a <= e.first + cfg.window))
    || (a <= e.first && 1 <= e.fails && (n <= e.fails || (a < e.first && n <= cfg.max - 1 + e.fails)))
    || AfterTrip(cfg, e, a, n, o, c, quiet)
  }

  /** It began in the interval with a trip. */
  ghost predicate AfterTrip(cfg: Config, e: Entry, a: int, n: nat, o: int, c: nat, quiet: bool)
    requires Settings(cfg, c)
  {
    && a <= e.first && e.lockedTo == e.first + cfg.lockout && 0 <= e.fails
    && (quiet ==> e.fails + o <= c - 1)
    && n - e.fails <= UpTo(cfg, c, e.first - a)
                      + Floor(if quiet && e.fails + o <= c - 1 then c - 1 - o - e.fails else c - 1, cfg.max)
  }

  ghost predicate Accounts(cfg: Config, table: Table, key: string, a: int, b: int, n: nat, o: int, c: nat,
                           quiet: bool)
    requires Settings(cfg, c)
  {
    if key !in table then n == 0 else
      var e := table[key];
      && 0 <= e.fails < cfg.max
      && if cfg.lockout >= cfg.window then LongAccounts(cfg, e, a, b, n, o, c, quiet)
         else ShortAccounts(cfg, e, a, n, o, c, quiet)
  }

  ghost predicate Quiet(table: Table, key: string, trace: seq<Event>) {
    key in table && Until(trace, table[key].lockedTo)
  }

  /** What the order of events says when one comes at `now`: the bucket began no later, it is quiet if it is
      still locked, and it is quiet afterwards with the same lockout only if it was before. */
  ghost predicate Comes(table: Table, key: string, now: int, after: Table, quiet: bool, next: bool) {
    key in table ==>
      && table[key].first <= now
      && (now <= table[key].lockedTo ==> quiet)
      && (next && key in after && after[key].lockedTo == table[key].lockedTo ==> quiet)
  }

  /** One failure of the key, inside the interval. */
  lemma LongFail(cfg: Config, table: Table, key: string, now: int, a: int, b: int, n: nat, o: int, c: nat,
                 quiet: bool, next: bool)
    requires Settings(cfg, c) && cfg.lockout >= cfg.window && a <= now <= b <= a + cfg.window && 1 <= o <= c
    requires Accounts(cfg, table, key, a, b, n, o, c, quiet)
    requires Comes(table, key, now, Failed(cfg, table, key, now), quiet, next)
    ensures Accounts(cfg, Failed(cfg, table, key, now), key, a, b, n + 1, o - 1, c, next)
  {}

  lemma ShortFail(cfg: Config, table: Table, key: string, now: int, a: int, b: int, n: nat, o: int, c: nat,
                  quiet: bool, next: bool)
    requires Settings(cfg, c) && cfg.lockout < cfg.window && a <= now <= b <= a + cfg.window && 1 <= o <= c
    requires Accounts(cfg, table, key, a, b, n, o, c, quiet)
    requires Comes(table, key, now, Failed(cfg, table, key, now), quiet, next)
    ensures Accounts(cfg, Failed(cfg, table, key, now), key, a, b, n + 1, o - 1, c, next)
  {
    hide UpTo, Floor;
    UpToStarts(cfg, c, now - a);
    if key in table && now - table[key].first <= cfg.window && AfterTrip(cfg, table[key], a, n, o, c, quiet) {
      FailAfterTrip(cfg, table[key], now, a, n, o, c, quiet, next);
    }
  }

  lemma FailAfterTrip(cfg: Config, e: Entry, now: int, a: int, n: nat, o: int, c: nat, quiet: bool, next: bool)
    requires Settings(cfg, c) && a <= e.first <= now && 1 <= o <= c && e.fails < cfg.max
    requires AfterTrip(cfg, e, a, n, o, c, quiet)
    requires (now <= e.lockedTo ==> quiet) && (next && e.fails + 1 < cfg.max ==> quiet)
    ensures AfterTrip(cfg, Failure(cfg, e, now), a, n + 1, o - 1, c, next)
  {
    hide UpTo, Floor;
    var d := e.first - a;
    UpToGrows(cfg, c, d, now - a);
    FloorGrows(c - o, c - 1, cfg.max);
    if e.fails + o <= c - 1 {
      FloorGrows(c - 1 - o - e.fails, c - 1, cfg.max);
      FloorNext(c - 1 - o - e.fails, cfg.max);
    }
    if now > e.lockedTo {
      UpToNext(cfg, c, d, now - a);
    }
  }

  /** One failure before the interval. */
  lemma AccountsEarly(cfg: Config, table: Table, key: string, now: int, a: int, b: int, o: int, c: nat,
                      quiet: bool, next: bool)
    requires Settings(cfg, c) && now < a && 1 <= o <= c
    requires Accounts(cfg, table, key, a, b, 0, o, c, quiet) && (key in table ==> table[key].first < a)
    ensures Accounts(cfg, Failed(cfg, table, key, now), key, a, b, 0, o - 1, c, next)
    ensures Failed(cfg, table, key, now)[key].first < a
  {}

  /** A request that begins in the interval, or one that ends without a failure. */
  lemma AccountsRequest(cfg: Config, table: Table, key: string, e: Event, a: int, b: int, n: nat, o: int, c: nat,
                        quiet: bool, next: bool)
    requires Settings(cfg, c) && Accounts(cfg, table, key, a, b, n, o, c, quiet) && (next ==> quiet) && o >= 0
    requires e.key == key && ((e.Abort? && o >= 1) || (e.Begin? && e.now <= b))
    requires next && e.Begin? ==> key in table && e.now <= table[key].lockedTo
    ensures Accounts(cfg, table, key, a, b, n,
                     if e.Abort? then o - 1 else if Passes(table, key, e.now) then o + 1 else o, c, next)
  {
    if key in table && table[key].fails >= 0 && table[key].fails + o <= c - 1 {
      var k := c - 1 - o - table[key].fails;
      FloorGrows(k, c - 1, cfg.max);
      FloorGrows(k, k + 1, cfg.max);
    }
  }

  lemma AccountsSame(cfg: Config, s: Table, t: Table, key: string, a: int, b: int, n: nat, o: int, c: nat,
                     quiet: bool, next: bool)
    requires Settings(cfg, c) && o >= 0
    requires (key in s <==> key in t) && (key in s ==> s[key] == t[key]) && (next ==> quiet)
    requires Accounts(cfg, s, key, a, b, n, o, c, quiet)
    ensures Accounts(cfg, t, key, a, b, n, o, c, next)
  {
    if key in s && s[key].fails >= 0 && s[key].fails + o <= c - 1 {
      FloorGrows(c - 1 - o - s[key].fails, c - 1, cfg.max);
    }
  }

  lemma AccountsBound(cfg: Config, table: Table, key: string, a: int, b: int, n: nat, o: int, c: nat, quiet: bool)
    requires Settings(cfg, c) && 0 <= o && Accounts(cfg, table, key, a, b, n, o, c, quiet)
    requires a <= b <= a + cfg.window
    requires key in table ==> table[key].first <= b && (quiet || table[key].lockedTo < b)
    ensures n <= Most(cfg, c)
  {
    if cfg.lockout < cfg.window {
      UpToGrows(cfg, c, 0, cfg.window);
      if key in table && a <= table[key].first {
        var d := table[key].first - a;
        UpToGrows(cfg, c, d, cfg.window);
        if d + cfg.lockout + 1 <= cfg.window {
          UpToNext(cfg, c, d, cfg.window);
        }
        UpToGrows(cfg, c, if d > 0 then 1 else 0, cfg.window);
      }
    }
  }

  ghost predicate SameKey(trace: seq<Event>, key: string) {
    trace != [] && trace[|trace| - 1].key == key
  }

  lemma ByLast(trace: seq<Event>, key: string, b: int)
    requires trace != [] && (Timed(trace[|trace| - 1]) ==> Until(trace[..|trace| - 1], trace[|trace| - 1].now))
    ensures By(trace, key, b) ==> By(trace[..|trace| - 1], key, b)
    ensures var e := trace[|trace| - 1];
            if SameKey(trace, key) && Timed(e) then By(trace, key, b) <==> e.now <= b
            else By(trace[..|trace| - 1], key, b) ==> By(trace, key, b)
  {}

  lemma ByBelow(trace: seq<Event>, key: string, a: int, b: int)
    requires a <= b && By(trace, key, a - 1)
    ensures By(trace, key, b)
  {}

  lemma UntilLast(trace: seq<Event>, t: int)
    requires trace != []
    ensures var n := |trace| - 1;
            Until(trace, t) <==> Until(trace[..n], t) && (Timed(trace[n]) ==> trace[n].now <= t)
  {
    var n := |trace| - 1;
    assert trace == trace[..n] + [trace[n]];
  }

  lemma UntilLater(trace: seq<Event>, t: int, u: int)
    requires Until(trace, t) && t <= u
    ensures Until(trace, u)
  {}

  /** A bucket began at some clock reading of its key. */
  lemma {:induction false} FirstBy(cfg: Config, trace: seq<Event>, key: string, t: int)
    requires Until(trace, t) && key in After(cfg, trace)
    ensures After(cfg, trace)[key].first <= t
  {
    var n := |trace| - 1;
    if trace[n].key != key {
      OtherKey(cfg, After(cfg, trace[..n]), trace[n], key);
    }
    if key in After(cfg, trace[..n]) {
      FirstBy(cfg, trace[..n], key, t);
    }
  }

  /** What the order of events says of an event of the key. */
  lemma OrderOfEvents(cfg: Config, trace: seq<Event>, key: string)
    requires SameKey(trace, key) && Timed(trace[|trace| - 1])
    requires var n := |trace| - 1; Until(trace[..n], trace[n].now)
    ensures var n := |trace| - 1;
            var before, after := After(cfg, trace[..n]), After(cfg, trace);
            && Comes(before, key, trace[n].now, after, Quiet(before, key, trace[..n]), Quiet(after, key, trace))
            && (key in after ==> after[key].first <= trace[n].now)
            && (key in after ==> Quiet(after, key, trace) || after[key].lockedTo < trace[n].now)
  {
    hide After;
    var n := |trace| - 1;
    var front, now := trace[..n], trace[n].now;
    var before, after := After(cfg, front), After(cfg, trace);
    UntilLast(trace, now);
    if key in before {
      FirstBy(cfg, front, key, now);
      UntilLast(trace, before[key].lockedTo);
      if now <= before[key].lockedTo {
        UntilLater(front, now, before[key].lockedTo);
      }
    }
    if key in after {
      FirstBy(cfg, trace, key, now);
      if now <= after[key].lockedTo {
        UntilLater(trace, now, after[key].lockedTo);
      }
    }
  }

  /** What the induction carries along a run. */
  ghost predicate Accounted(cfg: Config, trace: seq<Event>, key: string, c: nat, a: int, b: int)
    requires Settings(cfg, c)
  {
    var table, n := After(cfg, trace), Failures(trace, key, a, b);
    && (By(trace, key, b) ==>
          Accounts(cfg, table, key, a, b, n, InFlight(cfg, trace, key), c, Quiet(table, key, trace)))
    && (By(trace, key, a - 1) ==> n == 0 && (key in table ==> table[key].first < a))
    && n <= Most(cfg, c)
  }

  lemma AccountedFail(cfg: Config, trace: seq<Event>, key: string, c: nat, a: int, b: int)
    requires Settings(cfg, c) && a <= b <= a + cfg.window
    requires SameKey(trace, key) && trace[|trace| - 1].Fail? && Handled(cfg, trace, key, c)
    requires Accounted(cfg, trace[..|trace| - 1], key, c, a, b)
    ensures Accounted(cfg, trace, key, c, a, b)
  {
    hide Accounts, Failed, By, Most, Until, Comes;
    var k := |trace| - 1;
    var front, e := trace[..k], trace[k];
    var table, n, o := After(cfg, front), Failures(front, key, a, b), InFlight(cfg, front, key);
    var quiet, next := Quiet(table, key, front), Quiet(After(cfg, trace), key, trace);
    InFlightNonNegative(cfg, front, key, c);
    ByLast(trace, key, b);
    ByLast(trace, key, a - 1);
    OrderOfEvents(cfg, trace, key);
    if e.now < a {
      ByBelow(front, key, a, b);
      AccountsEarly(cfg, table, key, e.now, a, b, o, c, quiet, next);
    } else if e.now <= b {
      if cfg.lockout >= cfg.window {
        LongFail(cfg, table, key, e.now, a, b, n, o, c, quiet, next);
      } else {
        ShortFail(cfg, table, key, e.now, a, b, n, o, c, quiet, next);
      }
      AccountsBound(cfg, After(cfg, trace), key, a, b, n + 1, o - 1, c, next);
    }
  }

  lemma AccountedStep(cfg: Config, trace: seq<Event>, key: string, c: nat, a: int, b: int)
    requires Settings(cfg, c) && a <= b <= a + cfg.window
    requires trace != [] && Handled(cfg, trace, key, c) && NoSuccessSince(trace, key, a)
    requires Accounted(cfg, trace[..|trace| - 1], key, c, a, b)
    ensures Accounted(cfg, trace, key, c, a, b)
  {
    hide Accounts, Failed, Passes, By, Most, Until;
    var k := |trace| - 1;
    var front, e := trace[..k], trace[k];
    var table, n, o := After(cfg, front), Failures(front, key, a, b), InFlight(cfg, front, key);
    var quiet, next := Quiet(table, key, front), Quiet(After(cfg, trace), key, trace);
    InFlightNonNegative(cfg, front, key, c);
    NoSuccessFront(trace, key, a);
    ByLast(trace, key, b);
    ByLast(trace, key, a - 1);
    if key in table {
      UntilLast(trace, table[key].lockedTo);
    }
    if e == Success(key) {
      NothingCounted(cfg, After(cfg, trace), key, a, b, o - 1, c, next);
    } else if e.key != key {
      OtherKey(cfg, table, e, key);
      if By(trace, key, b) {
        AccountsSame(cfg, table, Step(cfg, table, e), key, a, b, n, o, c, quiet, next);
      }
    } else if e.Fail? {
      AccountedFail(cfg, trace, key, c, a, b);
    } else if By(trace, key, b) {
      AccountsRequest(cfg, table, key, e, a, b, n, o, c, quiet, next);
    }
  }

  lemma NothingCounted(cfg: Config, table: Table, key: string, a: int, b: int, o: int, c: nat, quiet: bool)
    requires Settings(cfg, c) && key !in table
    ensures Accounts(cfg, table, key, a, b, 0, o, c, quiet)
  {}

  lemma {:induction false} AccountedRun(cfg: Config, trace: seq<Event>, key: string, c: nat, a: int, b: int)
    requires Settings(cfg, c) && a <= b <= a + cfg.window
    requires Handled(cfg, trace, key, c) && NoSuccessSince(trace, key, a)
    ensures Accounted(cfg, trace, key, c, a, b)
  {
    if trace == [] {
      MostPositive(cfg, c);
    } else {
      NoSuccessFront(trace, key, a);
      AccountedRun(cfg, trace[..|trace| - 1], key, c, a, b);
      AccountedStep(cfg, trace, key, c, a, b);
    }
  }

  lemma {:induction false} NoFailures(trace: seq<Event>, key: string, a: int, b: int)
    requires b < a
    ensures Failures(trace, key, a, b) == 0
  {
    if trace != [] {
      NoFailures(trace[..|trace| - 1], key, a, b);
    }
  }

  /** A key with at most `c` requests in flight fails at most that often in any interval no longer than
      the window that it does not log in in, whatever other keys do. */
  lemma ThrottleBound(cfg: Config, trace: seq<Event>, key: string, c: nat, a: int, b: int)
    requires Settings(cfg, c) && b <= a + cfg.window
    requires Handled(cfg, trace, key, c) && NoSuccessSince(trace, key, a)
    ensures Failures(trace, key, a, b) <= Most(cfg, c)
  {
    if a <= b {
      AccountedRun(cfg, trace, key, c, a, b);
    } else {
      NoFailures(trace, key, a, b);
      MostPositive(cfg, c);
    }
  }

  /** One request at a time. */
  lemma SerialBound(cfg: Config, trace: seq<Event>, key: string, a: int, b: int)
    requires cfg.max >= 1 && cfg.lockout >= 0 && b <= a + cfg.window
    requires Handled(cfg, trace, key, 1) && NoSuccessSince(trace, key, a)
    ensures Failures(trace, key, a, b)
         <= if cfg.lockout >= cfg.window then (if cfg.max == 1 then 1 else 2 * cfg.max - 2)
            else var q := cfg.window / (cfg.lockout + 1);
                 if cfg.window % (cfg.lockout + 1) == 0 then (q + 1) * cfg.max else (q + 2) * cfg.max - 1
  {
    ThrottleBound(cfg, trace, key, 1, a, b);
    if cfg.lockout < cfg.window {
      ShortMostIs(cfg, 1);
      var q := cfg.window / (cfg.lockout + 1);
      assert (1 - 1) / cfg.max == 0;
      assert (q + 1) * cfg.max == q * cfg.max + cfg.max && (q + 2) * cfg.max == q * cfg.max + 2 * cfg.max;
    }
  }

  // ---- runs that attain it ----

  /** A run up to time `t` that leaves `o` of the key's requests in flight. */
  ghost predicate Reached(cfg: Config, trace: seq<Event>, key: string, c: nat, t: int, o: int) {
    && Handled(cfg, trace, key, c) && NoSuccess(trace, key)
    && InFlight(cfg, trace, key) == o && Until(trace, t)
  }

  lemma OneMore(cfg: Config, trace: seq<Event>, e: Event, key: string, a: int, b: int)
    ensures var next := trace + [e];
            && next[..|trace|] == trace && After(cfg, next) == Step(cfg, After(cfg, trace), e)
            && Failures(next, key, a, b)
               == Failures(trace, key, a, b) + (if e.Fail? && e.key == key && a <= e.now <= b then 1 else 0)
            && InFlight(cfg, next, key) == InFlight(cfg, trace, key)
               + (if e.key != key then 0 else if !e.Begin? then -1
                  else if Passes(After(cfg, trace), key, e.now) then 1 else 0)
  {
    assert (trace + [e])[..|trace|] == trace;
  }

  lemma ReachedNext(cfg: Config, trace: seq<Event>, key: string, c: nat, t: int, o: int, e: Event)
    requires Reached(cfg, trace, key, c, t, o)
    requires (e == Begin(key, t) && o < c && Passes(After(cfg, trace), key, t)) || (e == Fail(key, t) && o >= 1)
    ensures Reached(cfg, trace + [e], key, c, t, if e.Begin? then o + 1 else o - 1)
  {
    hide Passes, After, InFlight;
    OneMore(cfg, trace, e, key, t, t);
    InFlightNonNegative(cfg, trace, key, c);
    UntilLast(trace + [e], t);
  }

  function FailedTimes(cfg: Config, table: Table, key: string, t: int, n: nat): Table {
    if n == 0 then table else Failed(cfg, FailedTimes(cfg, table, key, t, n - 1), key, t)
  }

  /** Too few failures to trip the bucket. */
  lemma {:induction false} Counting(cfg: Config, table: Table, key: string, t: int, n: nat)
    requires cfg.window >= 0 && n >= 1 && Current(cfg, table, key, t).fails + n < cfg.max
    ensures var e, next := Current(cfg, table, key, t), FailedTimes(cfg, table, key, t, n);
            key in next && next[key] == e.(fails := e.fails + n)
  {
    if n > 1 {
      Counting(cfg, table, key, t, n - 1);
    }
  }

  /** `n` requests begin at once. */
  lemma {:induction false} Begins(cfg: Config, trace: seq<Event>, key: string, c: nat, t: int, o: int, n: nat,
                                  a: int, b: int) returns (next: seq<Event>)
    requires Reached(cfg, trace, key, c, t, o) && o + n <= c && Passes(After(cfg, trace), key, t)
    ensures Reached(cfg, next, key, c, t, o + n) && After(cfg, next) == After(cfg, trace)
    ensures Failures(next, key, a, b) == Failures(trace, key, a, b)
  {
    hide Reached, Passes, After, Failures, InFlight;
    next := trace;
    if n > 0 {
      var before := Begins(cfg, trace, key, c, t, o, n - 1, a, b);
      next := before + [Begin(key, t)];
      OneMore(cfg, before, Begin(key, t), key, a, b);
      ReachedNext(cfg, before, key, c, t, o + n - 1, Begin(key, t));
    }
  }

  /** `n` requests in flight fail at once. */
  lemma {:induction false} Fails(cfg: Config, trace: seq<Event>, key: string, c: nat, t: int, o: int, n: nat,
                                 a: int, b: int) returns (next: seq<Event>)
    requires Reached(cfg, trace, key, c, t, o) && n <= o
    ensures Reached(cfg, next, key, c, t, o - n)
    ensures After(cfg, next) == FailedTimes(cfg, After(cfg, trace), key, t, n)
    ensures Failures(next, key, a, b) == Failures(trace, key, a, b) + (if a <= t <= b then n else 0)
  {
    hide Reached, Failed, After, Failures, InFlight;
    next := trace;
    if n > 0 {
      var before := Fails(cfg, trace, key, c, t, o, n - 1, a, b);
      next := before + [Fail(key, t)];
      OneMore(cfg, before, Fail(key, t), key, a, b);
      ReachedNext(cfg, before, key, c, t, o - n + 1, Fail(key, t));
    }
  }

  /** `n` attempts one after the other at time `t`, too few to trip the bucket. */
  lemma {:induction false} Attempts(cfg: Config, trace: seq<Event>, key: string, c: nat, t: int, n: nat, a: int, b: int)
      returns (next: seq<Event>)
    requires c >= 1 && cfg.window >= 0 && Reached(cfg, trace, key, c, t, 0) && Passes(After(cfg, trace), key, t)
    requires var e := Current(cfg, After(cfg, trace), key, t); e.fails + n < cfg.max && t > e.lockedTo
    ensures Reached(cfg, next, key, c, t, 0) && Passes(After(cfg, next), key, t)
    ensures After(cfg, next) == FailedTimes(cfg, After(cfg, trace), key, t, n)
    ensures Failures(next, key, a, b) == Failures(trace, key, a, b) + (if a <= t <= b then n else 0)
  {
    hide Reached, After, Failures;
    next := trace;
    if n > 0 {
      next := Attempts(cfg, trace, key, c, t, n - 1, a, b);
      next := Begins(cfg, next, key, c, t, 0, 1, a, b);
      next := Fails(cfg, next, key, c, t, 1, 1, a, b);
      assert FailedTimes(cfg, After(cfg, trace), key, t, n) == After(cfg, next);
      Counting(cfg, After(cfg, trace), key, t, n);
    }
  }

  /** Attempts up to one short of a lockout, then `k` requests at once that all fail. */
  lemma Finale(cfg: Config, trace: seq<Event>, key: string, c: nat, k: nat, t: int, n: nat, a: int, b: int)
      returns (next: seq<Event>)
    requires 1 <= k <= c && cfg.window >= 0
    requires Reached(cfg, trace, key, c, t, 0) && Passes(After(cfg, trace), key, t) && a <= t <= b
    requires var e := Current(cfg, After(cfg, trace), key, t); e.fails + n < cfg.max && t > e.lockedTo
    ensures Reached(cfg, next, key, c, t, 0)
    ensures After(cfg, next) == FailedTimes(cfg, FailedTimes(cfg, After(cfg, trace), key, t, n), key, t, k)
    ensures Failures(next, key, a, b) == Failures(trace, key, a, b) + n + k
  {
    hide Reached, After, Failures, FailedTimes, Passes;
    next := Attempts(cfg, trace, key, c, t, n, a, b);
    next := Begins(cfg, next, key, c, t, 0, k, a, b);
    next := Fails(cfg, next, key, c, t, k, k, a, b);
  }

  lemma ReachedLater(cfg: Config, trace: seq<Event>, key: string, c: nat, t: int, u: int, o: int)
    requires Reached(cfg, trace, key, c, t, o) && t <= u
    ensures Reached(cfg, trace, key, c, u, o)
  {}

  /** At time 1 the bucket trips with `o` more requests in flight. */
  lemma TripWith(cfg: Config, key: string, c: nat, o: nat, a: int, b: int) returns (trace: seq<Event>)
    requires cfg.max >= 1 && cfg.window >= 0 && o + 1 <= c && 1 < a
    ensures Reached(cfg, trace, key, c, 1, o) && Failures(trace, key, a, b) == 0
    ensures key in After(cfg, trace) && After(cfg, trace)[key] == Entry(0, 1, 1 + cfg.lockout)
  {
    assert Reached(cfg, [], key, c, 1, 0) && Failures([], key, a, b) == 0;
    hide Reached, Failures;
    trace := Attempts(cfg, [], key, c, 1, cfg.max - 1, a, b);
    if cfg.max > 1 {
      Counting(cfg, map[], key, 1, cfg.max - 1);
    }
    trace := Begins(cfg, trace, key, c, 1, 0, o + 1, a, b);
    trace := Fails(cfg, trace, key, c, 1, o + 1, 1, a, b);
  }

  /** The bound is attained, whatever the settings and however many requests are in flight. */
  lemma Attained(cfg: Config, key: string, c: nat) returns (trace: seq<Event>, a: int)
    requires Settings(cfg, c) && cfg.window >= 1
    ensures Handled(cfg, trace, key, c) && NoSuccess(trace, key)
    ensures Failures(trace, key, a, a + cfg.window) == Most(cfg, c)
  {
    if cfg.lockout >= cfg.window {
      trace, a := AttainedLong(cfg, key, c);
    } else {
      trace, a := AttainedShort(cfg, key, c);
    }
  }

  lemma AttainedLong(cfg: Config, key: string, c: nat) returns (trace: seq<Event>, a: int)
    requires Settings(cfg, c) && 1 <= cfg.window <= cfg.lockout
    ensures Handled(cfg, trace, key, c) && NoSuccess(trace, key)
    ensures Failures(trace, key, a, a + cfg.window) == LongMost(cfg, c)
  {
    a := 2;
    if cfg.max == 1 {
      trace := Finale(cfg, [], key, c, c, a, 0, a, a + cfg.window);
    } else if c > cfg.max {
      trace := AttainedByMany(cfg, key, c);
    } else if c == cfg.max && cfg.lockout < 2 * cfg.window {
      a := 2 + cfg.lockout - cfg.window;
      trace := AttainedByMax(cfg, key, a);
    } else {
      trace := AttainedByFew(cfg, key, c);
    }
  }

  /** One failure just before the interval, the rest of that bucket at its start, a full bucket at its end. */
  lemma AttainedByFew(cfg: Config, key: string, c: nat) returns (trace: seq<Event>)
    requires cfg.max >= 2 && 1 <= cfg.window <= cfg.lockout && c >= 1
    ensures Handled(cfg, trace, key, c) && NoSuccess(trace, key)
    ensures Failures(trace, key, 2, 2 + cfg.window) == 2 * cfg.max + c - 3
  {
    var b := 2 + cfg.window;
    trace := Attempts(cfg, [], key, c, 1, 1, 2, b);
    assert After(cfg, trace)[key] == Entry(1, 1, ZERO_TIME) by { Counting(cfg, map[], key, 1, 1); }
    hide After, Failures, InFlight, Handled;
    trace := AttemptsAgain(cfg, trace, key, c, 2, cfg.max - 2, 2, b);
    ReachedLater(cfg, trace, key, c, 2, b, 0);
    trace := Finale(cfg, trace, key, c, c, b, cfg.max - 1, 2, b);
  }

  /** More attempts in a bucket that has counted some failures. */
  lemma AttemptsAgain(cfg: Config, trace: seq<Event>, key: string, c: nat, t: int, n: nat, a: int, b: int)
      returns (next: seq<Event>)
    requires c >= 1 && Reached(cfg, trace, key, c, t - 1, 0) && key in After(cfg, trace)
    requires var e := After(cfg, trace)[key]; e.fails + n < cfg.max && t > e.lockedTo && 0 <= t - e.first <= cfg.window
    ensures Reached(cfg, next, key, c, t, 0) && key in After(cfg, next)
    ensures var e := After(cfg, trace)[key]; After(cfg, next)[key] == e.(fails := e.fails + n)
    ensures Failures(next, key, a, b) == Failures(trace, key, a, b) + (if a <= t <= b then n else 0)
  {
    hide After, Failures, InFlight, Handled;
    ReachedLater(cfg, trace, key, c, t - 1, t, 0);
    next := Attempts(cfg, trace, key, c, t, n, a, b);
    if n > 0 {
      Counting(cfg, After(cfg, trace), key, t, n);
    }
  }

  /** A trip with max - 1 more requests in flight; these fail as late as their bucket counts them, and a full
      bucket follows as soon as the lockout is over. */
  lemma AttainedByMax(cfg: Config, key: string, a: int) returns (trace: seq<Event>)
    requires cfg.max >= 2 && 1 <= cfg.window <= cfg.lockout < 2 * cfg.window && a == 2 + cfg.lockout - cfg.window
    ensures Handled(cfg, trace, key, cfg.max) && NoSuccess(trace, key)
    ensures Failures(trace, key, a, a + cfg.window) == 3 * cfg.max - 2
  {
    var c, b := cfg.max, a + cfg.window;
    trace := TripWith(cfg, key, c, c - 1, a, b);
    hide After, Failures, InFlight, Handled;
    ReachedLater(cfg, trace, key, c, 1, a, c - 1);
    Counting(cfg, After(cfg, trace), key, a, c - 1);
    trace := Fails(cfg, trace, key, c, a, c - 1, c - 1, a, b);
    ReachedLater(cfg, trace, key, c, a, b, 0);
    trace := Finale(cfg, trace, key, c, c, b, c - 1, a, b);
  }

  /** A trip with max more requests in flight; max - 1 of them fail late, and the last one later still, which
      opens a bucket without a lockout. */
  lemma AttainedByMany(cfg: Config, key: string, c: nat) returns (trace: seq<Event>)
    requires 2 <= cfg.max < c && 1 <= cfg.window <= cfg.lockout
    ensures Handled(cfg, trace, key, c) && NoSuccess(trace, key)
    ensures Failures(trace, key, 2, 2 + cfg.window) == 2 * cfg.max + c - 2
  {
    var m, b := cfg.max, 2 + cfg.window;
    trace := TripWith(cfg, key, c, m, 2, b);
    hide After, Failures, InFlight, Handled;
    ReachedLater(cfg, trace, key, c, 1, 2, m);
    Counting(cfg, After(cfg, trace), key, 2, m - 1);
    trace := Fails(cfg, trace, key, c, 2, m, m - 1, 2, b);
    ReachedLater(cfg, trace, key, c, 2, b, 1);
    Counting(cfg, After(cfg, trace), key, b, 1);
    trace := Fails(cfg, trace, key, c, b, 1, 1, 2, b);
    trace := Finale(cfg, trace, key, c, c, b, m - 2, 2, b);
  }

  // ---- runs under a shorter lockout ----

  /** What a trip and `k` - 1 late failures leave in the bucket. */
  function Left(cfg: Config, k: nat): nat
    requires cfg.max >= 1 && k >= 1
  {
    k - 1 - Floor(k - 1, cfg.max)
  }

  lemma LeftNext(cfg: Config, k: nat)
    requires cfg.max >= 1 && k >= 1
    ensures Left(cfg, k) < cfg.max
    ensures Left(cfg, k + 1) == if Left(cfg, k) + 1 == cfg.max then 0 else Left(cfg, k) + 1
  {
    FloorStep(k - 1, cfg.max);
  }

  lemma {:induction false} TrippedTimes(cfg: Config, table: Table, key: string, t: int, k: nat)
    requires cfg.max >= 1 && cfg.window >= 0 && k >= 1 && Current(cfg, table, key, t).fails + 1 == cfg.max
    ensures var next := FailedTimes(cfg, table, key, t, k);
            key in next && next[key] == Entry(Left(cfg, k), t, t + cfg.lockout)
  {
    hide Left;
    if k == 1 {
      assert Left(cfg, 1) == 0 by { LeftNone(cfg); }
    } else {
      TrippedTimes(cfg, table, key, t, k - 1);
      LeftNext(cfg, k - 1);
    }
  }

  lemma LeftNone(cfg: Config)
    requires cfg.max >= 1
    ensures Left(cfg, 1) == 0
  {}

  /** The bucket after a finale. */
  lemma AfterFinale(cfg: Config, table: Table, key: string, t: int, n: nat, k: nat)
    requires cfg.max >= 1 && cfg.window >= 0 && k >= 1 && Current(cfg, table, key, t).fails + n + 1 == cfg.max
    ensures var next := FailedTimes(cfg, FailedTimes(cfg, table, key, t, n), key, t, k);
            key in next && next[key] == Entry(Left(cfg, k), t, t + cfg.lockout)
  {
    if n > 0 {
      Counting(cfg, table, key, t, n);
    }
    TrippedTimes(cfg, FailedTimes(cfg, table, key, t, n), key, t, k);
  }

  /** A bucket that trips as soon as each lockout is over, to the end of the interval. */
  lemma {:induction false} Rounds(cfg: Config, trace: seq<Event>, key: string, c: nat, t: int, a: int, b: int)
      returns (next: seq<Event>)
    requires Settings(cfg, c) && cfg.lockout < cfg.window && a <= t <= b
    requires Reached(cfg, trace, key, c, t, 0) && key in After(cfg, trace)
    requires After(cfg, trace)[key] == Entry(Left(cfg, c), t, t + cfg.lockout)
    ensures Handled(cfg, next, key, c) && NoSuccess(next, key)
    ensures Failures(next, key, a, b) == Failures(trace, key, a, b) + Gains(cfg, c, b - t)
    decreases b - t
  {
    next := trace;
    var u := t + cfg.lockout + 1;
    if u <= b {
      LeftNext(cfg, c);
      var n := cfg.max - 1 - Left(cfg, c);
      ReachedLater(cfg, trace, key, c, t, u, 0);
      hide Reached, After, Failures, Handled;
      next := Finale(cfg, trace, key, c, c, u, n, a, b);
      AfterFinale(cfg, After(cfg, trace), key, u, n, c);
      next := Rounds(cfg, next, key, c, u, a, b);
    }
  }

  /** Trips from the start of the interval on; or one short of a trip there in a bucket that runs out, and
      trips from the next instant on. */
  lemma AttainedShort(cfg: Config, key: string, c: nat) returns (trace: seq<Event>, a: int)
    requires Settings(cfg, c) && cfg.lockout < cfg.window
    ensures Handled(cfg, trace, key, c) && NoSuccess(trace, key)
    ensures Failures(trace, key, a, a + cfg.window) == ShortMost(cfg, c)
  {
    var w := cfg.window;
    if cfg.max + Gains(cfg, c, w) >= 2 * cfg.max - 1 + Gains(cfg, c, w - 1) {
      a := 1;
      trace := TripsFrom(cfg, [], key, c, a, a, a + w);
    } else {
      a := 1 + w;
      trace := TripsLater(cfg, key, c, a);
    }
  }

  /** A full bucket at `t`, and one more after each lockout. */
  lemma TripsFrom(cfg: Config, trace: seq<Event>, key: string, c: nat, t: int, a: int, b: int)
      returns (next: seq<Event>)
    requires Settings(cfg, c) && cfg.lockout < cfg.window && a <= t <= b && t > 0
    requires Reached(cfg, trace, key, c, t, 0) && Passes(After(cfg, trace), key, t)
    requires Current(cfg, After(cfg, trace), key, t) == Entry(0, t, ZERO_TIME)
    ensures Handled(cfg, next, key, c) && NoSuccess(next, key)
    ensures Failures(next, key, a, b)
         == Failures(trace, key, a, b) + cfg.max + c - 1 + Gains(cfg, c, b - t)
  {
    hide Reached, After, Failures, Handled;
    next := Finale(cfg, trace, key, c, c, t, cfg.max - 1, a, b);
    AfterFinale(cfg, After(cfg, trace), key, t, cfg.max - 1, c);
    next := Rounds(cfg, next, key, c, t, a, b);
  }

  lemma TripsLater(cfg: Config, key: string, c: nat, a: int) returns (trace: seq<Event>)
    requires Settings(cfg, c) && cfg.lockout < cfg.window && a == 1 + cfg.window
    ensures Handled(cfg, trace, key, c) && NoSuccess(trace, key)
    ensures Failures(trace, key, a, a + cfg.window) == 2 * cfg.max - 1 + c - 1 + Gains(cfg, c, cfg.window - 1)
  {
    var b := a + cfg.window;
    hide Reached, After, Failures, Handled;
    trace := TripWith(cfg, key, c, 0, a, b);
    ReachedLater(cfg, trace, key, c, 1, a, 0);
    ghost var before := After(cfg, trace);
    trace := Attempts(cfg, trace, key, c, a, cfg.max - 1, a, b);
    if cfg.max > 1 {
      Counting(cfg, before, key, a, cfg.max - 1);
    }
    ReachedLater(cfg, trace, key, c, a, a + 1, 0);
    trace := TripsFrom(cfg, trace, key, c, a + 1, a, b);
  }

  // ---- the least bound ----

  ghost predicate Bounded(cfg: Config, c: nat, m: int) {
    forall trace, key, a, b | b <= a + cfg.window && Handled(cfg, trace, key, c) && NoSuccessSince(trace, key, a) ::
      Failures(trace, key, a, b) <= m
  }

  lemma MostBounds(cfg: Config, c: nat)
    requires Settings(cfg, c)
    ensures Bounded(cfg, c, Most(cfg, c))
  {
    forall trace, key, a, b | b <= a + cfg.window && Handled(cfg, trace, key, c) && NoSuccessSince(trace, key, a)
      ensures Failures(trace, key, a, b) <= Most(cfg, c)
    {
      ThrottleBound(cfg, trace, key, c, a, b);
    }
  }

  /** A number bounds the failures of all runs exactly when it is no smaller than that. */
  lemma BoundExact(cfg: Config, c: nat, m: int)
    requires Settings(cfg, c) && cfg.window >= 1
    ensures Bounded(cfg, c, m) <==> m >= Most(cfg, c)
  {
    MostBounds(cfg, c);
    if Bounded(cfg, c, m) {
      var trace, a := Attained(cfg, "", c);
      NoneSince(trace, "", a);
    }
  }

  lemma NoneSince(trace: seq<Event>, key: string, a: int)
    requires NoSuccess(trace, key)
    ensures NoSuccessSince(trace, key, a)
  {}

  /** The two buckets of a long lockout bound all runs exactly when the lockout is as long as the window. */
  lemma BoundedIff(cfg: Config, c: nat)
    requires Settings(cfg, c) && cfg.window >= 0
    ensures Bounded(cfg, c, LongMost(cfg, c)) <==> cfg.lockout >= cfg.window
  {
    MostBounds(cfg, c);
    if cfg.lockout < cfg.window {
      ShortIsMore(cfg, c);
      BoundExact(cfg, c, LongMost(cfg, c));
    }
  }

  // ---- a lockout lasts ----

  /** The failure of `key` at `t` after `trace` trips the lockout. */
  ghost predicate Trips(cfg: Config, trace: seq<Event>, key: string, t: int) {
    Current(cfg, After(cfg, trace), key, t).fails + 1 >= cfg.max
  }

  /** Anything but a success of the key, with every time between `t` and `u`. */
  ghost predicate Between(more: seq<Event>, key: string, t: int, u: int) {
    NoSuccess(more, key) && forall i | 0 <= i < |more| && Timed(more[i]) :: t <= more[i].now <= u
  }

  /** The run of a trip at `t` and what follows. */
  function Tripped(trace: seq<Event>, key: string, t: int, more: seq<Event>): (run: seq<Event>)
    ensures run != []
  {
    trace + [Fail(key, t)] + more
  }

  lemma TrippedFront(trace: seq<Event>, key: string, t: int, more: seq<Event>)
    ensures var run := Tripped(trace, key, t, more); var n := |run| - 1;
            if more == [] then run[..n] == trace && run[n] == Fail(key, t)
            else run[..n] == Tripped(trace, key, t, more[..|more| - 1]) && run[n] == more[|more| - 1]
  {
    if more == [] {
      assert trace + [Fail(key, t)] + more == trace + [Fail(key, t)];
    }
  }

  /** A lockout no longer than the window, or one that every failure trips. */
  lemma {:induction false} LockLasts(cfg: Config, trace: seq<Event>, key: string, t: int, more: seq<Event>)
    requires Trips(cfg, trace, key, t) && Between(more, key, t, t + cfg.lockout)
    requires cfg.lockout <= cfg.window || cfg.max <= 1
    ensures var table := After(cfg, Tripped(trace, key, t, more));
            key in table && table[key].lockedTo >= t + cfg.lockout && table[key].first >= t
  {
    hide Tripped;
    var run := Tripped(trace, key, t, more);
    TrippedFront(trace, key, t, more);
    if more != [] {
      var n := |more| - 1;
      LockLasts(cfg, trace, key, t, more[..n]);
      var table, e := After(cfg, run[..|run| - 1]), more[n];
      assert e != Success(key);
      if e.key != key {
        OtherKey(cfg, table, e, key);
      }
    }
  }

  /** Or any lockout, when the key's requests run one at a time: no failure can come late. */
  lemma {:induction false} SerialLockLasts(cfg: Config, trace: seq<Event>, key: string, t: int, more: seq<Event>,
                                           c: nat)
    requires Trips(cfg, trace, key, t) && Between(more, key, t, t + cfg.lockout)
    requires Handled(cfg, Tripped(trace, key, t, more), key, c) && c <= 1
    ensures var run := Tripped(trace, key, t, more); var table := After(cfg, run);
            key in table && table[key].lockedTo == t + cfg.lockout && InFlight(cfg, run, key) == 0
  {
    hide Tripped;
    var run := Tripped(trace, key, t, more);
    TrippedFront(trace, key, t, more);
    var front := run[..|run| - 1];
    InFlightNonNegative(cfg, front, key, c);
    if more != [] {
      var n := |more| - 1;
      SerialLockLasts(cfg, trace, key, t, more[..n], c);
      var e := more[n];
      assert e != Success(key);
      if e.key != key {
        OtherKey(cfg, After(cfg, front), e, key);
      }
    }
  }

  /** Once tripped, a key is refused until its lockout is over, whatever else happens: for all callers, */
  ghost predicate Persistent(cfg: Config) {
    forall trace, key, t, more, u |
      Trips(cfg, trace, key, t) && Between(more, key, t, t + cfg.lockout) && u <= t + cfg.lockout ::
      !Passes(After(cfg, Tripped(trace, key, t, more)), key, u)
  }

  /** and for the login handler with at most `c` requests of the key in flight. */
  ghost predicate PersistentFor(cfg: Config, c: nat) {
    forall trace, key, t, more, u |
      && Trips(cfg, trace, key, t) && Between(more, key, t, t + cfg.lockout) && u <= t + cfg.lockout
      && Handled(cfg, Tripped(trace, key, t, more), key, c) ::
      !Passes(After(cfg, Tripped(trace, key, t, more)), key, u)
  }

  /** A lockout longer than the window is cleared by a late failure of a second request in flight, which
      opens a fresh bucket. */
  lemma LateFailureUnlocks(cfg: Config, key: string, c: nat)
    requires cfg.max >= 2 && 0 <= cfg.window < cfg.lockout && c >= 2
    ensures !PersistentFor(cfg, c)
  {
    var u := 1 + cfg.lockout;
    var trace := Attempts(cfg, [], key, c, 1, cfg.max - 1, 1, 1);
    Counting(cfg, map[], key, 1, cfg.max - 1);
    trace := Begins(cfg, trace, key, c, 1, 0, 2, 1, 1);
    var fail, late := Fail(key, 1), Fail(key, u);
    var tripped, run := trace + [fail], trace + [fail] + [late];
    assert Trips(cfg, trace, key, 1) && Between([late], key, 1, u);
    OneMore(cfg, trace, fail, key, 1, 1);
    ReachedNext(cfg, trace, key, c, 1, 2, fail);
    OneMore(cfg, tripped, late, key, 1, 1);
    ReachedLater(cfg, tripped, key, c, 1, u, 1);
    ReachedNext(cfg, tripped, key, c, u, 1, late);
    hide After, InFlight, Handled, Trips, Between;
    assert run == Tripped(trace, key, 1, [late]);
    assert Passes(After(cfg, run), key, u);
  }

  /** Under the login handler a lockout persists in all runs exactly when a key's requests run one at a
      time, or the lockout is no longer than the window, or every failure trips. */
  lemma PersistentForIff(cfg: Config, c: nat)
    requires cfg.window >= 0
    ensures PersistentFor(cfg, c) <==> c <= 1 || cfg.lockout <= cfg.window || cfg.max <= 1
  {
    if c <= 1 || cfg.lockout <= cfg.window || cfg.max <= 1 {
      forall trace, key, t, more, u |
        && Trips(cfg, trace, key, t) && Between(more, key, t, t + cfg.lockout) && u <= t + cfg.lockout
        && Handled(cfg, Tripped(trace, key, t, more), key, c)
        ensures !Passes(After(cfg, Tripped(trace, key, t, more)), key, u)
      {
        if c <= 1 {
          SerialLockLasts(cfg, trace, key, t, more, c);
        } else {
          LockLasts(cfg, trace, key, t, more);
        }
      }
    } else {
      LateFailureUnlocks(cfg, "", c);
    }
  }

  /** For callers that ask nothing before they report a failure, the last two conditions remain. */
  lemma PersistentIff(cfg: Config)
    requires cfg.window >= 0
    ensures Persistent(cfg) <==> cfg.lockout <= cfg.window || cfg.max <= 1
  {
    if cfg.lockout <= cfg.window || cfg.max <= 1 {
      forall trace, key, t, more, u |
        Trips(cfg, trace, key, t) && Between(more, key, t, t + cfg.lockout) && u <= t + cfg.lockout
        ensures !Passes(After(cfg, Tripped(trace, key, t, more)), key, u)
      {
        LockLasts(cfg, trace, key, t, more);
      }
    } else {
      PersistentForIff(cfg, 2);
    }
  }

  /** The deployed throttle: five failures, five minutes, five minutes. */
  lemma Deployed(window: int, c: nat)
    requires window >= 1 && c >= 1
    ensures var cfg := Config(5, window, window);
            && Persistent(cfg)
            && forall m: int :: Bounded(cfg, c, m) <==> m >= (if c < 5 then c + 7 else c + 8)
  {
    var cfg := Config(5, window, window);
    PersistentIff(cfg);
    forall m: int
      ensures Bounded(cfg, c, m) <==> m >= Most(cfg, c)
    {
      BoundExact(cfg, c, m);
    }
  }

  // ---- a success forgets ----

  /** After a success the key is as if nothing had happened before it. */
  lemma {:induction false} SuccessForgets(cfg: Config, trace: seq<Event>, key: string, more: seq<Event>)
    ensures var with, without := After(cfg, trace + [Success(key)] + more), After(cfg, more);
            (key in with <==> key in without) && (key in with ==> with[key] == without[key])
  {
    var run := trace + [Success(key)] + more;
    var n := |run| - 1;
    if more == [] {
      assert run[..n] == trace && run[n] == Success(key);
    } else {
      var m := |more| - 1;
      assert run[..n] == trace + [Success(key)] + more[..m] && run[n] == more[m];
      SuccessForgets(cfg, trace, key, more[..m]);
      var s, t, e := After(cfg, run[..n]), After(cfg, more[..m]), more[m];
      if e.key != key {
        OtherKey(cfg, s, e, key);
        OtherKey(cfg, t, e, key);
      }
    }
  }

  /** The failures of a key, at any time. */
  function FailCount(trace: seq<Event>, key: string): nat {
    if trace == [] then 0 else
      var n := |trace| - 1;
      FailCount(trace[..n], key) + if trace[n].Fail? && trace[n].key == key then 1 else 0
  }

  /** Fewer failures than max never lock a key. */
  lemma {:induction false} FewFailures(cfg: Config, trace: seq<Event>, key: string)
    requires FailCount(trace, key) < cfg.max
    ensures var table := After(cfg, trace);
            key in table ==> 0 <= table[key].fails <= FailCount(trace, key) && table[key].lockedTo == ZERO_TIME
  {
    if trace != [] {
      var n := |trace| - 1;
      FewFailures(cfg, trace[..n], key);
      if trace[n].key != key {
        OtherKey(cfg, After(cfg, trace[..n]), trace[n], key);
      }
    }
  }

  /** So it takes max further failures to refuse a key that has logged in, and that many at once do. */
  lemma SuccessClears(cfg: Config, trace: seq<Event>, key: string, more: seq<Event>, now: int)
    requires now > ZERO_TIME
    ensures FailCount(more, key) < cfg.max ==> Passes(After(cfg, trace + [Success(key)] + more), key, now)
  {
    SuccessForgets(cfg, trace, key, more);
    if FailCount(more, key) < cfg.max {
      FewFailures(cfg, more, key);
    }
  }

  lemma FailuresRefuse(cfg: Config, trace: seq<Event>, key: string, more: seq<Event>, t: int)
    requires cfg.max >= 1 && cfg.window >= 0 && cfg.lockout >= 0
    requires |more| == cfg.max && forall i | 0 <= i < |more| :: more[i] == Fail(key, t)
    ensures !Passes(After(cfg, trace + [Success(key)] + more), key, t)
  {
    SuccessForgets(cfg, trace, key, more);
    ManyFailures(cfg, key, more, t);
  }

  lemma {:induction false} ManyFailures(cfg: Config, key: string, more: seq<Event>, t: int)
    requires 1 <= |more| <= cfg.max && cfg.window >= 0 && forall i | 0 <= i < |more| :: more[i] == Fail(key, t)
    ensures var table := After(cfg, more);
            key in table && table[key] == if |more| == cfg.max then Entry(0, t, t + cfg.lockout)
                                          else Entry(|more|, t, ZERO_TIME)
  {
    var n := |more| - 1;
    if n > 0 {
      ManyFailures(cfg, key, more[..n], t);
    }
  }

  // ---- the login handler ----

  datatype Verdict = Accepted | Wrong | Unavailable

  /** The handler once the verifier has come back: records the outcome and answers. */
  method Answer(limiter: RateLimiter, key: string, verdict: Verdict, now: int) returns (status: int)
    requires limiter.Valid()
    modifies limiter, limiter.attempts.Values
    ensures limiter.Valid() && fresh(limiter.attempts.Values - old(limiter.attempts.Values))
    ensures limiter.Abs() == Step(limiter.cfg, old(limiter.Abs()), EventOf(Verified(key, verdict, now)))
    ensures status == match verdict case Accepted => 303 case Wrong => 401 case Unavailable => 502
  {
    match verdict
    case Unavailable =>
      status := 502;
    case Wrong =>
      limiter.Fail(key, now);
      status := 401;
    case Accepted =>
      limiter.Reset(key);
      status := 303;
  }

  /** One login request from the key, with no other beside it: asks, verifies, and records the outcome.
      `answered` is when the verifier came back; the events say what the request did to the throttle. */
  method HandleLogin(limiter: RateLimiter, key: string, arrived: int, verdict: Verdict, answered: int)
      returns (status: int, ghost events: seq<Event>)
    requires limiter.Valid()
    modifies limiter, limiter.attempts.Values
    ensures limiter.Valid()
    ensures status == (if !Passes(old(limiter.Abs()), key, arrived) then 429
                       else match verdict case Accepted => 303 case Wrong => 401 case Unavailable => 502)
    ensures events == [Begin(key, arrived)]
                      + if status == 429 then [] else [EventOf(Verified(key, verdict, answered))]
    ensures limiter.Abs() == Step(limiter.cfg, old(limiter.Abs()), events[|events| - 1])
  {
    events := [Begin(key, arrived)];
    var allowed := limiter.Allowed(key, arrived);
    if !allowed {
      return 429, events;
    }
    status := Answer(limiter, key, verdict, answered);
    events := events + [EventOf(Verified(key, verdict, answered))];
  }

  // ---- serving many requests at once ----

  /** A turn of the server: a request arrives, or the verifier comes back to a handler that waits for it. */
  datatype Turn = Arrives(key: string, now: int) | Verified(key: string, verdict: Verdict, now: int)

  function EventOf(turn: Turn): Event {
    match turn
    case Arrives(key, now) => Begin(key, now)
    case Verified(key, Accepted, _) => Success(key)
    case Verified(key, Wrong, now) => Fail(key, now)
    case Verified(key, Unavailable, _) => Abort(key)
  }

  ghost predicate InOrder(turns: seq<Turn>) {
    forall i, j | 0 <= i < j < |turns| :: turns[i].now <= turns[j].now
  }

  /** What the turns do to the throttle; no handler waits unless a request of the key is in flight. */
  function RunOf(cfg: Config, turns: seq<Turn>): seq<Event> {
    if turns == [] then [] else
      var n := |turns| - 1;
      var before := RunOf(cfg, turns[..n]);
      if turns[n].Verified? && InFlight(cfg, before, turns[n].key) <= 0 then before else before + [EventOf(turns[n])]
  }

  /** There are never more than `c` of the key's requests in flight. */
  ghost predicate AtMost(cfg: Config, trace: seq<Event>, key: string, c: nat) {
    InFlight(cfg, trace, key) <= c && (trace != [] ==> AtMost(cfg, trace[..|trace| - 1], key, c))
  }

  lemma {:induction false} RunHandled(cfg: Config, turns: seq<Turn>, key: string, c: nat)
    requires InOrder(turns) && AtMost(cfg, RunOf(cfg, turns), key, c)
    ensures Handled(cfg, RunOf(cfg, turns), key, c)
    ensures turns != [] ==> Until(RunOf(cfg, turns), turns[|turns| - 1].now)
  {
    hide After, InFlight, Until, AtMost, Handled;
    if turns == [] {
      HandledNone(cfg, key, c);
    } else {
      var n := |turns| - 1;
      var before, run := RunOf(cfg, turns[..n]), RunOf(cfg, turns);
      if run != before {
        assert run == before + [EventOf(turns[n])];
        AtMostFront(cfg, before, EventOf(turns[n]), key, c);
      }
      RunHandled(cfg, turns[..n], key, c);
      if n == 0 {
        HandledNone(cfg, key, c);
      }
      UntilTurn(before, turns, n);
      if run != before {
        HandledNext(cfg, before, EventOf(turns[n]), key, c);
        assert run[..|run| - 1] == before;
        UntilLast(run, turns[n].now);
      }
    }
  }

  lemma HandledNone(cfg: Config, key: string, c: nat)
    ensures Handled(cfg, [], key, c)
    ensures forall t :: Until([], t)
  {}

  lemma HandledNext(cfg: Config, before: seq<Event>, e: Event, key: string, c: nat)
    requires Handled(cfg, before, key, c) && InFlight(cfg, before + [e], key) <= c
    requires Timed(e) ==> Until(before, e.now)
    requires e.key == key && !e.Begin? ==> InFlight(cfg, before, key) >= 1
    ensures Handled(cfg, before + [e], key, c)
  {
    hide InFlight, Until;
    assert (before + [e])[..|before|] == before;
  }

  lemma AtMostFront(cfg: Config, before: seq<Event>, e: Event, key: string, c: nat)
    requires AtMost(cfg, before + [e], key, c)
    ensures AtMost(cfg, before, key, c) && InFlight(cfg, before + [e], key) <= c
  {
    hide InFlight;
    assert (before + [e])[..|before|] == before;
  }

  lemma UntilTurn(run: seq<Event>, turns: seq<Turn>, n: nat)
    requires InOrder(turns) && n < |turns|
    requires if n == 0 then run == [] else Until(run, turns[n - 1].now)
    ensures Until(run, turns[n].now)
  {}

  /** Wrong passwords answered for the key between `a` and `b`. */
  function WrongAnswers(turns: seq<Turn>, statuses: seq<int>, key: string, a: int, b: int): nat
    requires |statuses| == |turns|
  {
    if turns == [] then 0 else
      var n := |turns| - 1;
      WrongAnswers(turns[..n], statuses[..n], key, a, b)
      + if statuses[n] == 401 && turns[n].key == key && a <= turns[n].now <= b then 1 else 0
  }

  /** The handlers that wait for the verifier are those of the requests in flight. */
  ghost predicate Waits(cfg: Config, run: seq<Event>, waiting: map<string, int>) {
    forall key :: InFlight(cfg, run, key) == Waiting(waiting, key)
  }

  function Waiting(waiting: map<string, int>, key: string): int {
    if key in waiting then waiting[key] else 0
  }

  /** The 401 answers are the failures of the run. */
  ghost predicate Tallied(turns: seq<Turn>, statuses: seq<int>, run: seq<Event>)
    requires |statuses| == |turns|
  {
    forall key, a, b :: WrongAnswers(turns, statuses, key, a, b) == Failures(run, key, a, b)
  }

  /** When the bound applies to a run. */
  ghost predicate GuessesBounded(cfg: Config, run: seq<Event>, key: string, c: nat, a: int, b: int) {
    && Settings(cfg, c) && b <= a + cfg.window
    && AtMost(cfg, run, key, c) && NoSuccessSince(run, key, a)
  }

  /** Serves any interleaving of requests, with status 0 for a turn that answers nothing. A key that has logged
      in is let through until it has got max 401 answers again. In any window that
      a key does not log in in, it gets no more 401 answers than the bound allows for its requests in flight. */
  method Serve(limiter: RateLimiter, turns: seq<Turn>) returns (statuses: seq<int>, ghost run: seq<Event>)
    requires limiter.Valid() && limiter.Abs() == map[] && InOrder(turns)
    modifies limiter, limiter.attempts.Values
    ensures limiter.Valid() && limiter.Abs() == After(limiter.cfg, run)
    ensures run == RunOf(limiter.cfg, turns) && |statuses| == |turns|
    ensures forall i: nat | i < |turns| :: Answered(limiter.cfg, turns, statuses, i)
    ensures forall i: nat, j: nat | LoggedIn(limiter.cfg, turns, statuses, i, j) :: statuses[j] == 0
    ensures forall key, c: nat | AtMost(limiter.cfg, run, key, c) :: Handled(limiter.cfg, run, key, c)
    ensures forall key, c: nat, a, b | GuessesBounded(limiter.cfg, run, key, c, a, b) ::
              WrongAnswers(turns, statuses, key, a, b) <= Most(limiter.cfg, c)
  {
    hide InFlight, Failures, WrongAnswers, After, Waits, Tallied, Step, Answered, LoggedIn, Passes;
    var cfg := limiter.cfg;
    var waiting: map<string, int> := map[];
    statuses, run := [], [];
    assert turns[..0] == [];
    ServedNone(cfg);
    for i := 0 to |turns|
      invariant limiter.Valid() && fresh(limiter.attempts.Values - old(limiter.attempts.Values))
      invariant run == RunOf(cfg, turns[..i]) && |statuses| == i && limiter.Abs() == After(cfg, run)
      invariant Waits(cfg, run, waiting) && Tallied(turns[..i], statuses, run)
      invariant AllAnswered(cfg, turns, statuses)
    {
      var status;
      ghost var now := waiting;
      status, waiting := ServeTurn(limiter, turns[i], waiting, run);
      ServedNext(cfg, turns, statuses, run, now, i, status, waiting);
      AnsweredNext(cfg, turns, statuses, now, status);
      run := RunOf(cfg, turns[..i + 1]);
      statuses := statuses + [status];
    }
    assert turns[..|turns|] == turns;
    ServedAll(cfg, turns, statuses, run);
    LoginsClear(cfg, turns, statuses);
  }

  /** Turn `i` is answered as the run before it says. */
  ghost predicate Answered(cfg: Config, turns: seq<Turn>, statuses: seq<int>, i: nat)
    requires i < |statuses| <= |turns|
  {
    var run := RunOf(cfg, turns[..i]);
    match turns[i]
    case Arrives(key, now) => statuses[i] == if Passes(After(cfg, run), key, now) then 0 else 429
    case Verified(key, verdict, _) =>
      if InFlight(cfg, run, key) <= 0 then statuses[i] == 0
      else statuses[i] == match verdict case Accepted => 303 case Wrong => 401 case Unavailable => 502
  }

  ghost predicate AllAnswered(cfg: Config, turns: seq<Turn>, statuses: seq<int>) {
    |statuses| <= |turns| && forall i: nat | i < |statuses| :: Answered(cfg, turns, statuses, i)
  }

  lemma AnsweredNext(cfg: Config, turns: seq<Turn>, statuses: seq<int>, waiting: map<string, int>, status: int)
    requires AllAnswered(cfg, turns, statuses) && |statuses| < |turns|
    requires Waits(cfg, RunOf(cfg, turns[..|statuses|]), waiting)
    requires status == StatusOf(After(cfg, RunOf(cfg, turns[..|statuses|])), waiting, turns[|statuses|])
    ensures AllAnswered(cfg, turns, statuses + [status])
  {
    hide RunOf, After, InFlight, Passes, Waits, Waiting;
    var n, next := |statuses|, statuses + [status];
    WaitsAt(cfg, RunOf(cfg, turns[..n]), waiting, turns[n].key);
    forall i: nat | i < |next|
      ensures Answered(cfg, turns, next, i)
    {
      if i < n {
        assert Answered(cfg, turns, statuses, i) && next[i] == statuses[i];
      }
    }
  }

  /** The wrong passwords answered for the key from turn `i` up to, not including, turn `j`. */
  function WrongSince(turns: seq<Turn>, statuses: seq<int>, key: string, i: nat, j: nat): nat
    requires j <= |statuses| <= |turns|
    decreases j
  {
    if j <= i then 0 else
      WrongSince(turns, statuses, key, i, j - 1) + if statuses[j - 1] == 401 && turns[j - 1].key == key then 1 else 0
  }

  /** Turn `j` is a request of a key that logged in at turn `i` and has got fewer than max 401 answers since. */
  ghost predicate LoggedIn(cfg: Config, turns: seq<Turn>, statuses: seq<int>, i: nat, j: nat) {
    && i < j < |statuses| <= |turns|
    && statuses[i] == 303 && turns[j].Arrives? && turns[j].key == turns[i].key && turns[j].now > ZERO_TIME
    && WrongSince(turns, statuses, turns[i].key, i + 1, j) < cfg.max
  }

  /** What turn `n` adds to the run. */
  lemma TurnAdds(cfg: Config, turns: seq<Turn>, statuses: seq<int>, n: nat) returns (added: seq<Event>)
    requires AllAnswered(cfg, turns, statuses) && n < |statuses|
    ensures RunOf(cfg, turns[..n + 1]) == RunOf(cfg, turns[..n]) + added
    ensures added == [] || added == [EventOf(turns[n])]
    ensures statuses[n] == 303 ==> added == [Success(turns[n].key)]
    ensures statuses[n] == 401 <==> added != [] && EventOf(turns[n]).Fail?
  {
    hide After, Passes, InFlight;
    assert turns[..n + 1][..n] == turns[..n] && turns[..n + 1][n] == turns[n];
    assert Answered(cfg, turns, statuses, n);
    var before := RunOf(cfg, turns[..n]);
    added := if turns[n].Verified? && InFlight(cfg, before, turns[n].key) <= 0 then [] else [EventOf(turns[n])];
  }

  lemma FailCountNext(trace: seq<Event>, added: seq<Event>, key: string)
    requires |added| <= 1
    ensures FailCount(trace + added, key)
         == FailCount(trace, key) + if added != [] && added[0].Fail? && added[0].key == key then 1 else 0
  {
    if added == [] {
      assert trace + added == trace;
    } else {
      assert (trace + added)[..|trace|] == trace;
    }
  }

  lemma WrongSinceNext(turns: seq<Turn>, statuses: seq<int>, key: string, i: nat, j: nat)
    requires j < |statuses| <= |turns|
    ensures WrongSince(turns, statuses, key, i, j + 1)
         == if j < i then 0
            else WrongSince(turns, statuses, key, i, j) + if statuses[j] == 401 && turns[j].key == key then 1 else 0
    ensures WrongSince(turns, statuses, key, j, j) == 0
  {}

  lemma Associate(a: seq<Event>, b: seq<Event>, c: seq<Event>)
    ensures (a + b) + c == a + (b + c) && a + [] == a
  {}

  lemma KeyOf(turn: Turn)
    ensures EventOf(turn).key == turn.key
  {}

  /** The run since the login. */
  lemma {:induction false} RunSince(cfg: Config, turns: seq<Turn>, statuses: seq<int>, i: nat, j: nat)
      returns (more: seq<Event>)
    requires AllAnswered(cfg, turns, statuses) && i < j <= |statuses| <= |turns| && statuses[i] == 303
    ensures RunOf(cfg, turns[..j]) == (RunOf(cfg, turns[..i]) + [Success(turns[i].key)]) + more
    ensures FailCount(more, turns[i].key) == WrongSince(turns, statuses, turns[i].key, i + 1, j)
    decreases j
  {
    hide *;
    var n, key := j - 1, turns[i].key;
    var head := RunOf(cfg, turns[..i]) + [Success(key)];
    var added := TurnAdds(cfg, turns, statuses, n);
    WrongSinceNext(turns, statuses, key, i + 1, n);
    KeyOf(turns[n]);
    if n == i {
      more := [];
      FailCountNone(key);
      Associate(head, [], []);
    } else {
      var before := RunSince(cfg, turns, statuses, i, n);
      more := before + added;
      FailCountNext(before, added, key);
      Associate(head, before, added);
    }
  }

  lemma FailCountNone(key: string)
    ensures FailCount([], key) == 0
  {}

  lemma LoginsClear(cfg: Config, turns: seq<Turn>, statuses: seq<int>)
    requires AllAnswered(cfg, turns, statuses)
    ensures forall i: nat, j: nat | LoggedIn(cfg, turns, statuses, i, j) :: statuses[j] == 0
  {
    hide RunOf, After, Passes, InFlight, FailCount, WrongSince;
    forall i: nat, j: nat | LoggedIn(cfg, turns, statuses, i, j)
      ensures statuses[j] == 0
    {
      var more := RunSince(cfg, turns, statuses, i, j);
      SuccessClears(cfg, RunOf(cfg, turns[..i]), turns[i].key, more, turns[j].now);
      assert Answered(cfg, turns, statuses, j);
    }
  }

  /** One turn of the server. */
  method ServeTurn(limiter: RateLimiter, turn: Turn, waiting: map<string, int>, ghost run: seq<Event>)
      returns (status: int, next: map<string, int>)
    requires limiter.Valid() && limiter.Abs() == After(limiter.cfg, run) && Waits(limiter.cfg, run, waiting)
    modifies limiter, limiter.attempts.Values
    ensures limiter.Valid() && fresh(limiter.attempts.Values - old(limiter.attempts.Values))
    ensures limiter.Abs() == if Ignored(waiting, turn) then old(limiter.Abs())
                             else Step(limiter.cfg, old(limiter.Abs()), EventOf(turn))
    ensures status == StatusOf(old(limiter.Abs()), waiting, turn)
    ensures next == WaitingNext(old(limiter.Abs()), waiting, turn)
  {
    status, next := 0, waiting;
    var n := Waiting(waiting, turn.key);
    match turn
    case Arrives(key, now) =>
      var allowed := limiter.Allowed(key, now);
      if allowed {
        next := waiting[key := n + 1];
      } else {
        status := 429;
      }
    case Verified(key, verdict, now) =>
      if n > 0 {
        status := Answer(limiter, key, verdict, now);
        next := waiting[key := n - 1];
      }
  }

  /** The verifier comes back to nobody. */
  predicate Ignored(waiting: map<string, int>, turn: Turn) {
    turn.Verified? && Waiting(waiting, turn.key) <= 0
  }

  function StatusOf(table: Table, waiting: map<string, int>, turn: Turn): int {
    match turn
    case Arrives(key, now) => if Passes(table, key, now) then 0 else 429
    case Verified(_, verdict, _) =>
      if Ignored(waiting, turn) then 0
      else match verdict case Accepted => 303 case Wrong => 401 case Unavailable => 502
  }

  function WaitingNext(table: Table, waiting: map<string, int>, turn: Turn): map<string, int> {
    var n := Waiting(waiting, turn.key);
    match turn
    case Arrives(key, now) => if Passes(table, key, now) then waiting[key := n + 1] else waiting
    case Verified(key, _, _) => if n > 0 then waiting[key := n - 1] else waiting
  }

  lemma ServedNone(cfg: Config)
    ensures RunOf(cfg, []) == [] && After(cfg, []) == map[]
    ensures Waits(cfg, [], map[]) && Tallied([], [], [])
  {}

  lemma ServedNext(cfg: Config, turns: seq<Turn>, statuses: seq<int>, run: seq<Event>, waiting: map<string, int>,
                   i: nat, status: int, next: map<string, int>)
    requires i < |turns| && |statuses| == i && run == RunOf(cfg, turns[..i])
    requires Waits(cfg, run, waiting) && Tallied(turns[..i], statuses, run)
    requires status == StatusOf(After(cfg, run), waiting, turns[i])
    requires next == WaitingNext(After(cfg, run), waiting, turns[i])
    ensures var longer := RunOf(cfg, turns[..i + 1]);
            && longer == (if Ignored(waiting, turns[i]) then run else run + [EventOf(turns[i])])
            && Waits(cfg, longer, next) && Tallied(turns[..i + 1], statuses + [status], longer)
            && After(cfg, longer) == if Ignored(waiting, turns[i]) then After(cfg, run)
                                     else Step(cfg, After(cfg, run), EventOf(turns[i]))
  {
    hide Waits, Tallied, After, Passes, Step, InFlight, WrongAnswers;
    var turn := turns[i];
    assert turns[..i + 1][..i] == turns[..i];
    WaitsAt(cfg, run, waiting, turn.key);
    WaitsNext(cfg, run, waiting, turn, next);
    TalliedNext(cfg, turns[..i], statuses, run, waiting, turn, status);
    assert turns[..i] + [turn] == turns[..i + 1];
    OneMore(cfg, run, EventOf(turn), turn.key, 0, 0);
  }

  lemma WaitsAt(cfg: Config, run: seq<Event>, waiting: map<string, int>, key: string)
    requires Waits(cfg, run, waiting)
    ensures InFlight(cfg, run, key) == Waiting(waiting, key)
  {}

  lemma WaitsNext(cfg: Config, run: seq<Event>, waiting: map<string, int>, turn: Turn, next: map<string, int>)
    requires Waits(cfg, run, waiting) && next == WaitingNext(After(cfg, run), waiting, turn)
    ensures Waits(cfg, if Ignored(waiting, turn) then run else run + [EventOf(turn)], next)
  {
    hide Waits, After, Passes, InFlight;
    var longer := if Ignored(waiting, turn) then run else run + [EventOf(turn)];
    forall key
      ensures InFlight(cfg, longer, key) == Waiting(next, key)
    {
      WaitsAt(cfg, run, waiting, key);
      OneMore(cfg, run, EventOf(turn), key, 0, 0);
    }
    assert Waits(cfg, longer, next) by { AllWait(cfg, longer, next); }
  }

  lemma AllWait(cfg: Config, run: seq<Event>, waiting: map<string, int>)
    requires forall key :: InFlight(cfg, run, key) == Waiting(waiting, key)
    ensures Waits(cfg, run, waiting)
  {}

  lemma TalliedNext(cfg: Config, turns: seq<Turn>, statuses: seq<int>, run: seq<Event>, waiting: map<string, int>,
                    turn: Turn, status: int)
    requires |statuses| == |turns| && Tallied(turns, statuses, run)
    requires status == 401 <==> !Ignored(waiting, turn) && EventOf(turn).Fail?
    ensures Tallied(turns + [turn], statuses + [status],
                    if Ignored(waiting, turn) then run else run + [EventOf(turn)])
  {
    hide InFlight, After, Waiting;
    assert (turns + [turn])[..|turns|] == turns && (statuses + [status])[..|turns|] == statuses;
    var longer := if Ignored(waiting, turn) then run else run + [EventOf(turn)];
    forall key, a, b
      ensures WrongAnswers(turns + [turn], statuses + [status], key, a, b) == Failures(longer, key, a, b)
    {
      assert WrongAnswers(turns, statuses, key, a, b) == Failures(run, key, a, b);
      if longer != run {
        OneMore(cfg, run, EventOf(turn), key, a, b);
      }
    }
  }

  lemma ServedAll(cfg: Config, turns: seq<Turn>, statuses: seq<int>, run: seq<Event>)
    requires InOrder(turns) && |statuses| == |turns| && run == RunOf(cfg, turns) && Tallied(turns, statuses, run)
    ensures forall key, c: nat | AtMost(cfg, run, key, c) :: Handled(cfg, run, key, c)
    ensures forall key, c: nat, a, b | GuessesBounded(cfg, run, key, c, a, b) ::
              WrongAnswers(turns, statuses, key, a, b) <= Most(cfg, c)
  {
    hide AtMost, Handled, WrongAnswers, Failures, Most, NoSuccessSince;
    forall key, c: nat | AtMost(cfg, run, key, c)
      ensures Handled(cfg, run, key, c)
    {
      RunHandled(cfg, turns, key, c);
    }
    forall key, c: nat, a, b | GuessesBounded(cfg, run, key, c, a, b)
      ensures WrongAnswers(turns, statuses, key, a, b) <= Most(cfg, c)
    {
      ThrottleBound(cfg, run, key, c, a, b);
    }
  }
}
