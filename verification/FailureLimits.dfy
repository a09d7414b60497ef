/** How many failures of a key fit into one window of the login throttle: the numbers. */
module FailureLimits {
  import opened RateLimiter

  predicate Settings(cfg: Config, c: nat) {
    cfg.max >= 1 && cfg.lockout >= 0 && c >= 1
  }

  // ---- lockouts as long as the window ----

  /** Two buckets and the late failures of the requests in flight when the second one trips. The bucket
      before the interval falls one short unless it was emptied by a trip, which late failures of other
      requests in flight then fill up to one short of the next. */
  function LongMost(cfg: Config, c: nat): int {
    if cfg.max <= 1 then c
    else if c > cfg.max || (c == cfg.max && cfg.lockout < 2 * cfg.window) then 2 * cfg.max + c - 2
    else 2 * cfg.max + c - 3
  }

  /** How many of them a bucket counts that began before the interval and does not trip in it. */
  function Carry(cfg: Config, c: nat): int {
    LongMost(cfg, c) - cfg.max - c + 1
  }

  // ---- shorter lockouts ----

  /** The greatest multiple of `max` up to `k`. */
  function Floor(k: nat, max: nat): (f: nat)
    requires max > 0
    ensures f <= k < f + max
  {
    if k < max then 0 else max + Floor(k - max, max)
  }

  lemma {:induction false} FloorGrows(k: nat, l: nat, max: nat)
    requires max > 0 && k <= l
    ensures Floor(k, max) <= Floor(l, max)
  {
    if k >= max {
      FloorGrows(k - max, l - max, max);
    }
  }

  lemma FloorNext(k: nat, max: nat)
    requires max > 0
    ensures Floor(k + max, max) == Floor(k, max) + max
  {}

  lemma {:induction false} FloorStep(k: nat, max: nat)
    requires max > 0
    ensures Floor(k + 1, max) == if k - Floor(k, max) + 1 == max then Floor(k, max) + max else Floor(k, max)
  {
    if k >= max {
      FloorStep(k - max, max);
    }
  }

  lemma {:induction false} FloorIs(k: nat, max: nat)
    requires max > 0
    ensures Floor(k, max) == k / max * max
  {
    if k < max {
      Quotient(k, max, 0, k);
    } else {
      FloorIs(k - max, max);
      OneMore(k, max);
    }
  }

  lemma OneMore(k: nat, d: nat)
    requires 0 < d <= k
    ensures k / d == (k - d) / d + 1
    ensures forall g: nat :: k / d * g == (k - d) / d * g + g
  {
    var q, r := (k - d) / d, (k - d) % d;
    assert k - d == q * d + r;
    assert (q + 1) * d == q * d + d;
    Quotient(k, d, q + 1, r);
  }

  lemma Quotient(n: nat, d: nat, q: nat, r: nat)
    requires n == q * d + r && r < d
    ensures n / d == q && n % d == r
  {
    var p, s := n / d, n % d;
    assert n == p * d + s;
    Multiples(p, q, d);
    Multiples(q, p, d);
  }

  lemma Multiples(p: nat, q: nat, d: nat)
    ensures p > q ==> p * d >= q * d + d
  {
    if p > q {
      assert p * d == q * d + (p - q) * d;
      assert (p - q) * d == d + (p - q - 1) * d;
    }
  }

  /** The failures from one lockout to the next: those that trip it, and as many more of the late ones as
      trip it again. */
  function Gain(cfg: Config, c: nat): nat
    requires Settings(cfg, c)
  {
    cfg.max + Floor(c - 1, cfg.max)
  }

  /** The gains that fit into `d`. */
  function Gains(cfg: Config, c: nat, d: nat): nat
    requires Settings(cfg, c)
    decreases d
  {
    if d <= cfg.lockout then 0 else Gain(cfg, c) + Gains(cfg, c, d - cfg.lockout - 1)
  }

  lemma {:induction false} GainsGrow(cfg: Config, c: nat, d: nat, e: nat)
    requires Settings(cfg, c) && d <= e
    ensures Gains(cfg, c, d) <= Gains(cfg, c, e)
    decreases d
  {
    if d > cfg.lockout {
      GainsGrow(cfg, c, d - cfg.lockout - 1, e - cfg.lockout - 1);
    }
  }

  lemma {:induction false} GainsIs(cfg: Config, c: nat, d: nat)
    requires Settings(cfg, c)
    ensures Gains(cfg, c, d) == d / (cfg.lockout + 1) * Gain(cfg, c)
    decreases d
  {
    var l, g := cfg.lockout + 1, Gain(cfg, c);
    hide Gain;
    if d < l {
      Quotient(d, l, 0, d);
    } else {
      GainsIs(cfg, c, d - l);
      OneMore(d, l);
    }
  }

  /** The failures up to a trip `d` after the start of the interval: of a bucket that trips at the start, or
      of one that runs out there one short of a trip, and of the next ones from the following instant on. */
  function UpTo(cfg: Config, c: nat, d: nat): nat
    requires Settings(cfg, c)
  {
    var one := cfg.max + Gains(cfg, c, d);
    if d == 0 then one else
      var two := 2 * cfg.max - 1 + Gains(cfg, c, d - 1);
      if one >= two then one else two
  }

  lemma UpToGrows(cfg: Config, c: nat, d: nat, e: nat)
    requires Settings(cfg, c) && d <= e
    ensures UpTo(cfg, c, d) <= UpTo(cfg, c, e)
  {
    hide Gains;
    GainsGrow(cfg, c, d, e);
    if d > 0 {
      GainsGrow(cfg, c, d - 1, e - 1);
    }
  }

  lemma UpToStarts(cfg: Config, c: nat, d: nat)
    requires Settings(cfg, c)
    ensures UpTo(cfg, c, d) >= cfg.max && (d > 0 ==> UpTo(cfg, c, d) >= 2 * cfg.max - 1)
  {}

  /** A lockout later there is one more gain. */
  lemma UpToNext(cfg: Config, c: nat, d: nat, e: nat)
    requires Settings(cfg, c) && d + cfg.lockout + 1 <= e
    ensures UpTo(cfg, c, d) + Gain(cfg, c) <= UpTo(cfg, c, e)
  {
    hide Gain;
    GainsGrow(cfg, c, d, e - cfg.lockout - 1);
    if d > 0 {
      GainsGrow(cfg, c, d - 1, e - cfg.lockout - 2);
    }
  }

  function ShortMost(cfg: Config, c: nat): nat
    requires Settings(cfg, c) && cfg.lockout < cfg.window
  {
    UpTo(cfg, c, cfg.window) + c - 1
  }

  /** In one formula: the lockouts that fit into the window, and one more bucket when they do not fill it. */
  lemma ShortMostIs(cfg: Config, c: nat)
    requires Settings(cfg, c) && cfg.lockout < cfg.window
    ensures var q, r := cfg.window / (cfg.lockout + 1), cfg.window % (cfg.lockout + 1);
            ShortMost(cfg, c) == cfg.max + c - 1 + q * (cfg.max * (1 + (c - 1) / cfg.max))
                                 + if r == 0 then 0 else cfg.max - 1
  {
    hide Gain, Gains;
    GainIs(cfg, c);
    GainsLast(cfg, c, cfg.window);
  }

  lemma GainIs(cfg: Config, c: nat)
    requires Settings(cfg, c)
    ensures Gain(cfg, c) == cfg.max * (1 + (c - 1) / cfg.max) >= cfg.max
  {
    FloorIs(c - 1, cfg.max);
    var q := (c - 1) / cfg.max;
    assert cfg.max * (1 + q) == cfg.max + q * cfg.max;
  }

  lemma GainsLast(cfg: Config, c: nat, d: nat)
    requires Settings(cfg, c) && d > cfg.lockout
    ensures Gains(cfg, c, d) == d / (cfg.lockout + 1) * Gain(cfg, c)
    ensures Gains(cfg, c, d - 1)
         == if d % (cfg.lockout + 1) == 0 then Gains(cfg, c, d) - Gain(cfg, c) else Gains(cfg, c, d)
  {
    hide Gains;
    var l, g := cfg.lockout + 1, Gain(cfg, c);
    hide Gain;
    GainsIs(cfg, c, d);
    GainsIs(cfg, c, d - 1);
    Before(d, l);
    var q := d / l;
    assert (q - 1) * g == q * g - g;
  }

  lemma Before(w: nat, l: nat)
    requires 0 < l <= w
    ensures (w - 1) / l == if w % l == 0 then w / l - 1 else w / l
  {
    var q, r := w / l, w % l;
    assert w == q * l + r;
    if r > 0 {
      Quotient(w - 1, l, q, r - 1);
    } else {
      assert (q - 1) * l == q * l - l;
      Quotient(w - 1, l, q - 1, l - 1);
    }
  }

  // ---- all lockouts ----

  /** The most failures of a key that fit into one window, with at most `c` of its requests in flight. */
  function Most(cfg: Config, c: nat): int
    requires Settings(cfg, c)
  {
    if cfg.lockout >= cfg.window then LongMost(cfg, c) else ShortMost(cfg, c)
  }

  /** A shorter lockout always lets more through. */
  lemma ShortIsMore(cfg: Config, c: nat)
    requires Settings(cfg, c) && cfg.lockout < cfg.window
    ensures ShortMost(cfg, c) > LongMost(cfg, c)
  {
    UpToNext(cfg, c, 0, cfg.window);
  }

  lemma MostPositive(cfg: Config, c: nat)
    requires Settings(cfg, c)
    ensures Most(cfg, c) >= 0
  {}
}
