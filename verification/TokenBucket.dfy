/** The per-client packet limiter of the relay, and what it admits over a whole mapping lifetime. */
module TokenBucket {
  datatype Config = Config(rate: real, burst: real)
  datatype Bucket = Bucket(tokens: real, stamp: nat)

  /** Tokens earned in `ms` milliseconds. */
  function Refill(cfg: Config, ms: nat): real {
    ms as real / 1000.0 * cfg.rate
  }

  /** One limiter decision: the new bucket and whether the packet passes. */
  function Allow(cfg: Config, b: Bucket, now: nat): (Bucket, bool) {
    if cfg.rate <= 0.0 then (b, true)
    else
      var c := if b.stamp == 0 then Bucket(cfg.burst, now) else b;
      var level := Topped(cfg, c.tokens, if now >= c.stamp then now - c.stamp else 0);
      if level < 1.0 then (Bucket(level, now), false) else (Bucket(level - 1.0, now), true)
  }

  function Topped(cfg: Config, tokens: real, ms: nat): real {
    var level := tokens + Refill(cfg, ms);
    if level > cfg.burst then cfg.burst else level
  }

  class RelayPeer {
    var tokens: real
    var tokenTimestamp: nat

    constructor (cfg: Config, now: nat)
      ensures tokens == cfg.burst && tokenTimestamp == now
    {
      tokens, tokenTimestamp := cfg.burst, now;
    }

    method RateAllow(now: nat, cfg: Config) returns (ok: bool)
      modifies this
      ensures (Bucket(tokens, tokenTimestamp), ok) == Allow(cfg, Bucket(old(tokens), old(tokenTimestamp)), now)
    {
      if cfg.rate <= 0.0 { return true; }
      if tokenTimestamp == 0 {
        tokenTimestamp := now;
        tokens := cfg.burst;
      }
      var elapsed := if now >= tokenTimestamp then now - tokenTimestamp else 0;
      tokens := tokens + Refill(cfg, elapsed);
      if tokens > cfg.burst {
        tokens := cfg.burst;
      }
      tokenTimestamp := now;
      if tokens < 1.0 { return false; }
      tokens := tokens - 1.0;
      return true;
    }
  }

  // ----- A mapping's lifetime -----

  /** The creation time of a mapping and the times of the packets that reach the limiter. */
  datatype Life = Life(cfg: Config, created: nat, times: seq<nat>) {
    /** A limited mapping under a clock that never goes back. */
    ghost predicate Orderly() {
      && cfg.rate > 0.0
      && (forall i :: 0 <= i < |times| ==> created <= times[i])
      && (forall i, j :: 0 <= i <= j < |times| ==> times[i] <= times[j])
    }

    /** The bucket after the first `k` packets. */
    function After(k: nat): Bucket
      requires k <= |times|
    {
      if k == 0 then Bucket(cfg.burst, created) else Allow(cfg, After(k - 1), times[k - 1]).0
    }

    predicate Passes(k: nat)
      requires k < |times|
    {
      Allow(cfg, After(k), times[k]).1
    }

    /** How many of the packets `j`, ..., `k - 1` passed. */
    function Passed(j: nat, k: nat): nat
      requires j <= k <= |times|
    {
      if j == k then 0 else Passed(j, k - 1) + if Passes(k - 1) then 1 else 0
    }

    /** Admitting packet `k` puts more packets into the window from packet `j` to now than it allows. */
    predicate Overfills(j: nat, k: nat)
      requires j <= k < |times| && Orderly()
    {
      Passed(j, k) as real + 1.0 > cfg.burst + Refill(cfg, times[k] - times[j])
    }

    /** The tokens that packet `k` finds. */
    function Level(k: nat): real
      requires k < |times|
    {
      var b := After(k);
      var c := if b.stamp == 0 then Bucket(cfg.burst, times[k]) else b;
      Topped(cfg, c.tokens, if times[k] >= c.stamp then times[k] - c.stamp else 0)
    }
  }

  lemma RefillAdds(cfg: Config, a: nat, b: nat)
    ensures Refill(cfg, a + b) == Refill(cfg, a) + Refill(cfg, b)
    ensures cfg.rate > 0.0 ==> Refill(cfg, a) >= 0.0
  {
  }

  /** A second earns the rate. */
  lemma RefillPerSecond(cfg: Config, seconds: nat)
    ensures Refill(cfg, 1000 * seconds) == seconds as real * cfg.rate
  {
    assert (1000 * seconds) as real == 1000.0 * seconds as real;
  }

  /** Without a positive rate nothing is limited. */
  lemma UnlimitedPasses(l: Life, k: nat)
    requires l.cfg.rate <= 0.0 && k < |l.times|
    ensures l.Passes(k)
  {
  }

  /**
    The level before packet `k`: the burst for the first one and at clock
    zero, and else what the previous one left.
   */
  lemma LevelStep(l: Life, k: nat)
    requires l.Orderly() && k < |l.times|
    ensures l.Passes(k) <==> l.Level(k) >= 1.0
    ensures if k == 0 || l.times[k - 1] == 0 then l.Level(k) == l.cfg.burst
            else l.Level(k)
                 == Topped(l.cfg, l.Level(k - 1) - (if l.Passes(k - 1) then 1.0 else 0.0), l.times[k] - l.times[k - 1])
  {
    Stamps(l, k);
    if k > 0 { Stamps(l, k - 1); }
    RefillAdds(l.cfg, l.times[0] - l.created, 0);
    RefillAdds(l.cfg, 0, 0);
  }

  lemma Stamps(l: Life, k: nat)
    requires l.Orderly() && k <= |l.times|
    ensures l.After(k).stamp == if k == 0 then l.created else l.times[k - 1]
  {
  }

  lemma {:induction false} LevelBelow(l: Life, j: nat, k: nat)
    requires l.Orderly() && j <= k < |l.times| && l.times[j] > 0
    ensures l.Level(k) <= l.cfg.burst + Refill(l.cfg, l.times[k] - l.times[j]) - l.Passed(j, k) as real
    decreases k
  {
    LevelStep(l, k);
    RefillAdds(l.cfg, 0, 0);
    if j < k {
      LevelBelow(l, j, k - 1);
      RefillAdds(l.cfg, l.times[k - 1] - l.times[j], l.times[k] - l.times[k - 1]);
    }
  }

  lemma {:induction false} LevelAttained(l: Life, k: nat) returns (j: nat)
    requires l.Orderly() && k < |l.times| && l.times[k] > 0
    ensures j <= k && l.times[j] > 0
    ensures l.Level(k) == l.cfg.burst + Refill(l.cfg, l.times[k] - l.times[j]) - l.Passed(j, k) as real
  {
    LevelStep(l, k);
    RefillAdds(l.cfg, 0, 0);
    if k == 0 || l.Level(k) == l.cfg.burst {
      j := k;
    } else {
      j := LevelAttained(l, k - 1);
      RefillAdds(l.cfg, l.times[k - 1] - l.times[j], l.times[k] - l.times[k - 1]);
    }
  }

  /**
    The limiter under every clock that never goes back. While the clock reads zero a packet is refused if and
    only if the burst is below one. Afterwards the limiter is exact: a packet is refused if and only if
    admitting it would overfill some window that ends now and starts at this or an earlier packet,
    not counting those at clock zero.
   */
  lemma RefusedIffOverfull(l: Life, k: nat)
    requires l.Orderly() && k < |l.times|
    ensures !l.Passes(k) <==> if l.times[k] == 0 then l.cfg.burst < 1.0
                              else exists j: nat :: j <= k && l.times[j] > 0 && l.Overfills(j, k)
  {
    LevelStep(l, k);
    if l.times[k] > 0 {
      if !l.Passes(k) {
        var j := LevelAttained(l, k);
        assert l.Overfills(j, k);
      }
      forall j: nat | j <= k && l.times[j] > 0 && l.Overfills(j, k) ensures !l.Passes(k) {
        LevelBelow(l, j, k);
      }
    }
  }

  /** Hence no window with an admitted packet that starts after clock zero ever holds more than its allowance. */
  lemma {:induction false} WindowsHold(l: Life, j: nat, k: nat)
    requires l.Orderly() && j <= k < |l.times| && l.times[j] > 0 && l.Passed(j, k + 1) > 0
    ensures l.Passed(j, k + 1) as real <= l.cfg.burst + Refill(l.cfg, l.times[k] - l.times[j])
    decreases k
  {
    if l.Passes(k) {
      RefusedIffOverfull(l, k);
      assert !l.Overfills(j, k);
    } else {
      WindowsHold(l, j, k - 1);
      RefillAdds(l.cfg, l.times[k - 1] - l.times[j], l.times[k] - l.times[k - 1]);
      RefillAdds(l.cfg, l.times[k] - l.times[k - 1], 0);
    }
  }

  /**
    At clock zero windows do not hold: all packets pass, and they overfill as
    soon as there are more than the burst.
   */
  lemma {:induction false} ClockZeroIsUnlimited(l: Life, k: nat)
    requires l.Orderly() && l.cfg.burst >= 1.0 && k < |l.times| && l.times[k] == 0
    ensures l.Passes(k) && l.Passed(0, k) == k
    ensures l.Overfills(0, k) <==> k as real + 1.0 > l.cfg.burst
  {
    RefusedIffOverfull(l, k);
    RefillAdds(l.cfg, 0, 0);
    if k > 0 { ClockZeroIsUnlimited(l, k - 1); }
  }
}
