/**
  Bounded replay stores against an unbounded log.
  A store maps each accepted key to a time value and keeps it while that value plus `slack` is not
  over; the discovery cache stamps the time of acceptance, the message window stamps the expiry.
 */
module Replay {
  /** A signed request: its key and the times at which its own window admits it. */
  datatype Request<K> = Request(key: K, from: int, until: int)

  /** A presentation of a request at time `now`; `authentic` if its signature and form check out. */
  datatype Visit<K> = Visit(request: Request<K>, now: int, authentic: bool)

  datatype Policy = Policy(slack: int, stampNow: bool, limit: nat) {
    function Stamp<K>(v: Visit<K>): int {
      if stampNow then v.now else v.request.until
    }
  }

  /** The entries that are not over at `now`. */
  function Kept<K>(seen: map<K, int>, slack: int, now: int): map<K, int> {
    map k | k in seen && seen[k] + slack >= now :: seen[k]
  }

  /** Drops what is over, then takes the key unless it is present or the store is full. */
  function Reserve<K>(seen: map<K, int>, p: Policy, key: K, stamp: int, now: int): (map<K, int>, bool) {
    var kept := Kept(seen, p.slack, now);
    if key in kept || |kept| >= p.limit then (kept, false) else (kept[key := stamp], true)
  }

  predicate InWindow<K>(v: Visit<K>) {
    v.request.from <= v.now <= v.request.until
  }

  /** The store and the log of everything ever accepted. */
  datatype State<K> = State(seen: map<K, int>, log: seq<Visit<K>>)

  function Step<K>(p: Policy, s: State<K>, v: Visit<K>): State<K> {
    if !v.authentic || !InWindow(v) then s
    else
      var (seen, ok) := Reserve(s.seen, p, v.request.key, p.Stamp(v), v.now);
      State(seen, if ok then s.log + [v] else s.log)
  }

  function Run<K>(p: Policy, visits: seq<Visit<K>>): State<K> {
    if visits == [] then State(map[], []) else Step(p, Run(p, visits[..|visits| - 1]), visits[|visits| - 1])
  }

  /** The clock never goes back. */
  ghost predicate Ordered<K>(visits: seq<Visit<K>>) {
    forall i, j :: 0 <= i <= j < |visits| ==> visits[i].now <= visits[j].now
  }

  /** The keys that some logged acceptance still holds at `now`. */
  ghost function LiveKeys<K>(p: Policy, log: seq<Visit<K>>, now: int): set<K> {
    set i | 0 <= i < |log| && p.Stamp(log[i]) + p.slack >= now :: log[i].request.key
  }

  /** At and after time `now`, the store is exactly the live part of the log. */
  ghost predicate Agrees<K>(p: Policy, s: State<K>, now: int) {
    && (forall t {:trigger LiveKeys(p, s.log, t)} ::
          t >= now ==> Kept(s.seen, p.slack, t).Keys == LiveKeys(p, s.log, t))
    && (forall i :: 0 <= i < |s.log| ==> s.log[i].now <= now)
    && |s.seen| <= p.limit
  }

  lemma KeptTwice<K>(seen: map<K, int>, slack: int, now: int, later: int)
    requires now <= later
    ensures Kept(Kept(seen, slack, now), slack, later) == Kept(seen, slack, later)
  {
  }

  lemma LiveKeysExtend<K>(p: Policy, log: seq<Visit<K>>, v: Visit<K>, t: int)
    ensures LiveKeys(p, log + [v], t)
         == LiveKeys(p, log, t) + if p.Stamp(v) + p.slack >= t then {v.request.key} else {}
  {
    var longer := log + [v];
    forall k | k in LiveKeys(p, log, t) ensures k in LiveKeys(p, longer, t) {
      var i :| 0 <= i < |log| && p.Stamp(log[i]) + p.slack >= t && log[i].request.key == k;
      assert longer[i] == log[i];
    }
    if p.Stamp(v) + p.slack >= t {
      assert longer[|log|] == v;
      assert v.request.key in LiveKeys(p, longer, t);
    }
  }

  lemma StepAgrees<K>(p: Policy, s: State<K>, v: Visit<K>, now: int)
    requires Agrees(p, s, now) && now <= v.now && p.limit > 0
    ensures Agrees(p, Step(p, s, v), v.now)
    ensures Step(p, s, v).log == if Accepts(p, s.log, v) then s.log + [v] else s.log
  {
    var s' := Step(p, s, v);
    var kept := Kept(s.seen, p.slack, v.now);
    assert kept.Keys == LiveKeys(p, s.log, v.now);
    assert |kept| == |kept.Keys|;
    if v.authentic && InWindow(v) {
      KeptSmaller(s.seen, p.slack, v.now);
      forall t | t >= v.now ensures Kept(s'.seen, p.slack, t).Keys == LiveKeys(p, s'.log, t) {
        KeptTwice(s.seen, p.slack, v.now, t);
        assert Kept(s.seen, p.slack, t).Keys == LiveKeys(p, s.log, t);
        if s'.log != s.log {
          LiveKeysExtend(p, s.log, v, t);
          KeptInsert(kept, v.request.key, p.Stamp(v), p.slack, t);
        }
      }
    }
  }

  lemma KeptInsert<K>(kept: map<K, int>, key: K, stamp: int, slack: int, t: int)
    requires key !in kept
    ensures Kept(kept[key := stamp], slack, t).Keys
         == Kept(kept, slack, t).Keys + if stamp + slack >= t then {key} else {}
  {
  }

  lemma KeptSmaller<K>(seen: map<K, int>, slack: int, now: int)
    ensures |Kept(seen, slack, now)| <= |seen|
  {
    SubsetSize(Kept(seen, slack, now).Keys, seen.Keys);
  }

  lemma {:induction false} SubsetSize<K>(a: set<K>, b: set<K>)
    requires a <= b
    ensures |a| <= |b|
  {
    if a != {} {
      var x :| x in a;
      SubsetSize(a - {x}, b - {x});
    }
  }

  /** The decision an unbounded log would make: authentic, in its window, key not held, not saturated. */
  ghost predicate Accepts<K>(p: Policy, log: seq<Visit<K>>, v: Visit<K>) {
    && v.authentic && InWindow(v)
    && v.request.key !in LiveKeys(p, log, v.now)
    && |LiveKeys(p, log, v.now)| < p.limit
  }

  lemma {:induction false} RunAgrees<K>(p: Policy, visits: seq<Visit<K>>, now: int)
    requires Ordered(visits) && p.limit > 0
    requires visits != [] ==> visits[|visits| - 1].now <= now
    ensures Agrees(p, Run(p, visits), now)
    decreases |visits|
  {
    if visits != [] {
      var init, v := visits[..|visits| - 1], visits[|visits| - 1];
      RunAgrees(p, init, v.now);
      StepAgrees(p, Run(p, init), v, v.now);
    }
  }

  /**
    Over every run under a clock that never goes back, the store stays within its limit and its next
    decision is the one the whole log determines: it refuses an authentic request in its window
    only if a live acceptance holds the key or the live keys saturate the store.
   */
  lemma StoreFollowsLog<K>(p: Policy, visits: seq<Visit<K>>, v: Visit<K>)
    requires Ordered(visits + [v]) && p.limit > 0
    ensures |Run(p, visits).seen| <= p.limit
    ensures Run(p, visits + [v]).log
         == if Accepts(p, Run(p, visits).log, v) then Run(p, visits).log + [v] else Run(p, visits).log
  {
    var all := visits + [v];
    assert all[..|visits|] == visits && all[|all| - 1] == v;
    assert forall i :: 0 <= i < |visits| ==> all[i] == visits[i];
    RunAgrees(p, visits, v.now);
    StepAgrees(p, Run(p, visits), v, v.now);
  }

  /** Every acceptance outlives the window of its request. */
  ghost predicate Covers<K>(p: Policy, v: Visit<K>) {
    InWindow(v) ==> p.Stamp(v) + p.slack >= v.request.until
  }

  ghost predicate NoneTwice<K>(log: seq<Visit<K>>) {
    forall i, j :: 0 <= i < j < |log| ==> log[i].request != log[j].request
  }

  /** If every acceptance outlives its request's window, no request is ever accepted twice. */
  lemma {:induction false} NoRequestTwice<K>(p: Policy, visits: seq<Visit<K>>)
    requires Ordered(visits) && p.limit > 0
    requires forall i :: 0 <= i < |visits| ==> Covers(p, visits[i])
    ensures var log := Run(p, visits).log;
            && (forall i :: 0 <= i < |log| ==> Covers(p, log[i]) && InWindow(log[i]))
            && NoneTwice(log)
    decreases |visits|
  {
    if visits != [] {
      var init, v := visits[..|visits| - 1], visits[|visits| - 1];
      NoRequestTwice(p, init);
      assert visits == init + [v];
      StoreFollowsLog(p, init, v);
      var log := Run(p, init).log;
      if Accepts(p, log, v) {
        forall i | 0 <= i < |log| ensures log[i].request != v.request {
          assert p.Stamp(log[i]) + p.slack >= v.now ==> log[i].request.key in LiveKeys(p, log, v.now);
        }
      }
    }
  }

  // ----- How long an acceptance must be kept -----

  /** No request is valid for longer than `w`. */
  ghost predicate Narrow<K>(visits: seq<Visit<K>>, w: nat) {
    forall i :: 0 <= i < |visits| ==> visits[i].request.until - visits[i].request.from <= w
  }

  /**
    Over all runs of requests that are valid for at most `w`, a store never accepts one twice if and only if it keeps
    an acceptance for `w` after it was made, or, if it stamps the expiry instead, until that expiry.
   */
  lemma NeverTwiceIffKept<K>(p: Policy, w: nat, key: K)
    requires p.limit > 0
    ensures (forall visits: seq<Visit<K>> :: Ordered(visits) && Narrow(visits, w) ==> NoneTwice(Run(p, visits).log))
        <==> p.slack >= if p.stampNow then w else 0
  {
    if p.slack >= if p.stampNow then w else 0 {
      forall visits: seq<Visit<K>> | Ordered(visits) && Narrow(visits, w) ensures NoneTwice(Run(p, visits).log) {
        NoRequestTwice(p, visits);
      }
    } else {
      var visits := AcceptedTwice(p, w, key);
      assert Ordered(visits) && Narrow(visits, w);
      assert Run(p, visits).log[0].request == Run(p, visits).log[1].request;
    }
  }

  /** A request that is shown at both ends of its window. */
  lemma AcceptedTwice<K>(p: Policy, w: nat, key: K) returns (visits: seq<Visit<K>>)
    requires p.limit > 0 && p.slack < if p.stampNow then w else 0
    ensures |visits| == 2 && visits[0].now == 0 && visits[1].now == w
    ensures forall i :: 0 <= i < 2 ==> visits[i].request == Request(key, 0, w)
    ensures Run(p, visits).log == visits
  {
    var a, b := Visit(Request(key, 0, w), 0, true), Visit(Request(key, 0, w), w, true);
    visits := [a, b];
    assert visits[..1] == [a] && [a][..0] == [];
    assert Run(p, [a]) == Step(p, State(map[], []), a);
    var none: map<K, int> := map[];
    assert Kept(none, p.slack, 0) == none;
    assert Run(p, [a]) == State(map[key := p.Stamp(a)], [a]);
    assert Kept(map[key := p.Stamp(a)], p.slack, w) == map[];
  }
}
