/** The login throttle: failures per key within a window, then a lockout. Times are integers; the
    zero time of a bucket that was never locked lies before every clock reading. */
module RateLimiter {

  datatype Config = Config(max: int, window: int, lockout: int)

  datatype Entry = Entry(fails: int, first: int, lockedTo: int)

  type Table = map<string, Entry>

  const ZERO_TIME := 0

  predicate Passes(table: Table, key: string, now: int) {
    key in table ==> now > table[key].lockedTo
  }

  /** The bucket that a failure at `now` counts in: a fresh one when the window has passed. */
  function Current(cfg: Config, table: Table, key: string, now: int): Entry {
    if key !in table || now - table[key].first > cfg.window then Entry(0, now, ZERO_TIME) else table[key]
  }

  function Failure(cfg: Config, e: Entry, now: int): Entry {
    if e.fails + 1 >= cfg.max then Entry(0, now, now + cfg.lockout) else e.(fails := e.fails + 1)
  }

  function Failed(cfg: Config, table: Table, key: string, now: int): Table {
    table[key := Failure(cfg, Current(cfg, table, key, now), now)]
  }

  class Bucket {
    var fails: int
    var first: int
    var lockedTo: int

    constructor (first: int)
      ensures fails == 0 && this.first == first && lockedTo == ZERO_TIME
    {
      fails, this.first, lockedTo := 0, first, ZERO_TIME;
    }
  }

  class RateLimiter {
    var attempts: map<string, Bucket>
    const cfg: Config

    /** No two keys share a bucket. */
    ghost predicate Valid()
      reads this
    {
      forall k, l | k in attempts && l in attempts && k != l :: attempts[k] != attempts[l]
    }

    ghost function Abs(): Table
      reads this, attempts.Values
    {
      map k | k in attempts :: Entry(attempts[k].fails, attempts[k].first, attempts[k].lockedTo)
    }

    constructor (max: int, window: int, lockout: int)
      ensures Valid() && cfg == Config(max, window, lockout) && Abs() == map[]
    {
      attempts := map[];
      cfg := Config(max, window, lockout);
    }

    method Allowed(key: string, now: int) returns (ok: bool)
      requires Valid()
      ensures ok == Passes(Abs(), key, now)
    {
      if key !in attempts {
        return true;
      }
      return now > attempts[key].lockedTo;
    }

    method Fail(key: string, now: int)
      requires Valid()
      modifies this, attempts.Values
      ensures Valid() && fresh(attempts.Values - old(attempts.Values))
      ensures Abs() == Failed(cfg, old(Abs()), key, now)
    {
      if key !in attempts || now - attempts[key].first > cfg.window {
        StartBucket(key, now);
      }
      Count(key, now);
    }

    /** `r.attempts[key] = &bucket{first: now}` */
    method StartBucket(key: string, now: int)
      requires Valid()
      modifies this
      ensures Valid() && key in attempts && fresh(attempts[key])
      ensures attempts.Values <= old(attempts.Values) + {attempts[key]}
      ensures Abs() == old(Abs())[key := Entry(0, now, ZERO_TIME)]
    {
      var b := new Bucket(now);
      ghost var before := attempts;
      attempts := attempts[key := b];
      assert forall k | k in attempts && k != key :: k in before && attempts[k] == before[k];
    }

    /** The counting of a failure in the key's bucket. */
    method Count(key: string, now: int)
      requires Valid() && key in attempts
      modifies attempts[key]
      ensures Valid()
      ensures Abs() == old(Abs())[key := Failure(cfg, old(Abs())[key], now)]
    {
      var b := attempts[key];
      b.fails := b.fails + 1;
      if b.fails >= cfg.max {
        b.lockedTo := now + cfg.lockout;
        b.fails := 0;
        b.first := now;
      }
    }

    method Reset(key: string)
      requires Valid()
      modifies this
      ensures Valid() && attempts.Values <= old(attempts.Values)
      ensures Abs() == old(Abs()) - {key}
    {
      attempts := attempts - {key};
    }
  }
}
