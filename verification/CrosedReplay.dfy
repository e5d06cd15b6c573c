/**
  The on-disk nonce store beside a trust file: one directory entry per accepted request, removed
  only when the directory is full and the entry is older than the retention window.
 */
module CrosedReplay {
  import opened Replay

  datatype Limits = Limits(retention: nat, capacity: nat)

  const CROSED := Limits(600, 4096)

  /** Whether a new entry could be written, and if not, whether nothing of it stays behind. */
  datatype Writing = Written | Failed(removed: bool)

  /**
    How the file system behaves for one request: whether the directory is a proper one, the time it gives a new
    entry, the entries it cannot remove, those it cannot inspect, and how writing goes.
   */
  datatype Disk<K> = Disk(usable: bool, mtime: int, stuck: set<K>, blind: set<K>, writing: Writing)

  datatype Outcome = Retained | Replayed | Saturated | Unavailable | WriteFailed

  predicate Removable<K>(l: Limits, entries: map<K, int>, k: K, now: int, d: Disk<K>) {
    k in entries && entries[k] < now - l.retention && k !in d.stuck && k !in d.blind
  }

  /** What pruning leaves; only a full directory is pruned. */
  function Pruned<K>(l: Limits, entries: map<K, int>, now: int, d: Disk<K>): map<K, int> {
    if |entries| < l.capacity then entries
    else map k | k in entries && !Removable(l, entries, k, now, d) :: entries[k]
  }

  /** Entries that cannot be inspected are not counted. */
  predicate HasRoom<K>(l: Limits, entries: map<K, int>, now: int, d: Disk<K>) {
    |entries| < l.capacity || |Pruned(l, entries, now, d).Keys - d.blind| < l.capacity
  }

  function Retain<K>(l: Limits, entries: map<K, int>, digest: K, now: int, d: Disk<K>): (map<K, int>, Outcome) {
    if now <= 0 || !d.usable then (entries, Unavailable)
    else
      var left := Pruned(l, entries, now, d);
      if !HasRoom(l, entries, now, d) then (left, Saturated)
      else if digest in left then (left, Replayed)
      else
        match d.writing
        case Written => (left[digest := d.mtime], Retained)
        case Failed(removed) => (if removed then left else left[digest := d.mtime], WriteFailed)
  }

  /** The directory while `names` are still to be looked at. */
  ghost function Swept<K>(l: Limits, before: map<K, int>, names: set<K>, now: int, d: Disk<K>): map<K, int> {
    map k | k in before && (k in names || !Removable(l, before, k, now, d)) :: before[k]
  }

  /** The entries seen to stay so far. */
  ghost function Counted<K>(l: Limits, before: map<K, int>, names: set<K>, now: int, d: Disk<K>): set<K> {
    set k | k in before && k !in names && k !in d.blind && !Removable(l, before, k, now, d)
  }

  lemma SweepOne<K>(l: Limits, before: map<K, int>, names: set<K>, name: K, now: int, d: Disk<K>)
    requires name in names && names <= before.Keys
    ensures name in Swept(l, before, names, now, d) && Swept(l, before, names, now, d)[name] == before[name]
    ensures var left, counted := Swept(l, before, names, now, d), Counted(l, before, names, now, d);
            var left', counted' := Swept(l, before, names - {name}, now, d), Counted(l, before, names - {name}, now, d);
            && (if Removable(l, before, name, now, d) then left' == left - {name} else left' == left)
            && (if name in d.blind || Removable(l, before, name, now, d) then counted' == counted
                else |counted'| == |counted| + 1)
  {
    var counted, counted' := Counted(l, before, names, now, d), Counted(l, before, names - {name}, now, d);
    if !(name in d.blind || Removable(l, before, name, now, d)) {
      assert counted' == counted + {name};
    }
  }

  class ReplayStore<K(==)> {
    const limits: Limits
    var entries: map<K, int>

    constructor (limits: Limits)
      ensures this.limits == limits && entries == map[]
    {
      this.limits, entries := limits, map[];
    }

    method Prune(now: int, d: Disk<K>) returns (ok: bool)
      modifies this
      ensures entries == Pruned(limits, old(entries), now, d) && (ok <==> HasRoom(limits, old(entries), now, d))
    {
      if |entries| < limits.capacity { return true; }
      var live := Sweep(now, d);
      ok := live < limits.capacity;
    }

    /** Removes what can be removed and counts what is seen to stay. */
    method Sweep(now: int, d: Disk<K>) returns (live: nat)
      modifies this
      ensures entries == map k | k in old(entries) && !Removable(limits, old(entries), k, now, d) :: old(entries)[k]
      ensures live == |entries.Keys - d.blind|
    {
      ghost var before := entries;
      var names := entries.Keys;
      live := 0;
      assert Swept(limits, before, names, now, d) == before;
      while names != {}
        invariant names <= before.Keys && entries == Swept(limits, before, names, now, d)
        invariant live == |Counted(limits, before, names, now, d)|
        decreases names
      {
        var name :| name in names;
        SweepOne(limits, before, names, name, now, d);
        names := names - {name};
        if name in d.blind { continue; }
        if entries[name] < now - limits.retention && name !in d.stuck {
          entries := entries - {name};
          continue;
        }
        live := live + 1;
      }
      assert Counted(limits, before, names, now, d) == entries.Keys - d.blind;
    }

    method RetainDigest(digest: K, now: int, d: Disk<K>) returns (r: Outcome)
      modifies this
      ensures (entries, r) == Retain(limits, old(entries), digest, now, d)
    {
      if now <= 0 || !d.usable { return Unavailable; }
      var ok := Prune(now, d);
      if !ok { return Saturated; }
      if digest in entries { return Replayed; }
      ghost var left := entries;
      entries := entries[digest := d.mtime];
      if d.writing.Failed? {
        if d.writing.removed {
          entries := entries - {digest};
          assert entries == left;
        }
        return WriteFailed;
      }
      return Retained;
    }
  }

  // ----- Runs -----

  /** A request that passed every other check of the handler, and how the file system behaves for it. */
  datatype Attempt<K> = Attempt(visit: Visit<K>, disk: Disk<K>)

  /** The directory, the requests retained so far and the keys of entries that failed writes left behind. */
  datatype Store<K> = Store(entries: map<K, int>, log: seq<Visit<K>>, orphans: set<K>)

  function Step<K>(l: Limits, s: Store<K>, a: Attempt<K>): Store<K> {
    if !a.visit.authentic || !InWindow(a.visit) then s
    else
      var key := a.visit.request.key;
      var (entries, r) := Retain(l, s.entries, key, a.visit.now, a.disk);
      Store(entries, if r == Retained then s.log + [a.visit] else s.log,
            if r == WriteFailed && key in entries then s.orphans + {key} else s.orphans)
  }

  function Run<K>(l: Limits, attempts: seq<Attempt<K>>): Store<K> {
    if attempts == [] then Store(map[], [], {})
    else Step(l, Run(l, attempts[..|attempts| - 1]), attempts[|attempts| - 1])
  }

  /** The clock never goes back. */
  ghost predicate InTime<K>(attempts: seq<Attempt<K>>) {
    forall i, j :: 0 <= i <= j < |attempts| ==> attempts[i].visit.now <= attempts[j].visit.now
  }

  /** And a file is stamped at most `e` before the request that makes it. */
  ghost predicate Stamped<K>(attempts: seq<Attempt<K>>, e: nat) {
    InTime(attempts) && forall i :: 0 <= i < |attempts| ==> attempts[i].visit.now - e <= attempts[i].disk.mtime
  }

  /** Entries come from the log or from failed writes. */
  ghost predicate Sourced<K>(s: Store<K>) {
    forall k :: k in s.entries ==> k in s.orphans || exists i :: 0 <= i < |s.log| && s.log[i].request.key == k
  }

  lemma {:induction false} RunSourced<K>(l: Limits, attempts: seq<Attempt<K>>)
    ensures Sourced(Run(l, attempts))
    decreases |attempts|
  {
    if attempts != [] {
      RunSourced(l, attempts[..|attempts| - 1]);
      StepSourced(l, Run(l, attempts[..|attempts| - 1]), attempts[|attempts| - 1]);
    }
  }

  lemma StepSourced<K>(l: Limits, s: Store<K>, a: Attempt<K>)
    requires Sourced(s)
    ensures Sourced(Step(l, s, a))
  {
    var t := Step(l, s, a);
    forall k | k in t.entries && k !in t.orphans ensures exists i :: 0 <= i < |t.log| && t.log[i].request.key == k {
      if k in s.entries {
        var i :| 0 <= i < |s.log| && s.log[i].request.key == k;
        assert t.log[i] == s.log[i];
      } else {
        assert t.log[|s.log|].request.key == k;
      }
    }
  }

  /** Every logged request whose stamp cannot be older than the retention still has its entry. */
  ghost predicate Sound<K>(l: Limits, e: nat, s: Store<K>, now: int) {
    && (forall i :: 0 <= i < |s.log| ==> s.log[i].now <= now && InWindow(s.log[i]))
    && (forall i :: 0 <= i < |s.log| && s.log[i].now - e >= now - l.retention ==>
          s.log[i].request.key in s.entries && s.entries[s.log[i].request.key] >= s.log[i].now - e)
  }

  lemma PrunedSound<K>(l: Limits, e: nat, s: Store<K>, now: int, before: int, d: Disk<K>)
    requires Sound(l, e, s, before) && before <= now
    ensures Sound(l, e, s.(entries := Pruned(l, s.entries, now, d)), now)
  {
  }

  lemma StepSound<K>(l: Limits, e: nat, s: Store<K>, a: Attempt<K>, now: int)
    requires Sound(l, e, s, now) && now <= a.visit.now <= a.disk.mtime + e
    ensures Sound(l, e, Step(l, s, a), a.visit.now)
  {
    var v, d := a.visit, a.disk;
    if !v.authentic || !InWindow(v) || v.now <= 0 || !d.usable {
      assert Sound(l, e, s, v.now);
    } else {
      var p := s.(entries := Pruned(l, s.entries, v.now, d));
      PrunedSound(l, e, s, v.now, now, d);
      var (entries, r) := Retain(l, s.entries, v.request.key, v.now, d);
      if r == Retained {
        InsertSound(l, e, p, v, d.mtime);
      } else if r == WriteFailed && !d.writing.removed {
        OrphanSound(l, e, p, v.request.key, d.mtime, v.now);
      }
    }
  }

  lemma InsertSound<K>(l: Limits, e: nat, p: Store<K>, v: Visit<K>, mtime: int)
    requires Sound(l, e, p, v.now) && InWindow(v) && v.now <= mtime + e && v.request.key !in p.entries
    ensures Sound(l, e, p.(entries := p.entries[v.request.key := mtime], log := p.log + [v]), v.now)
  {
  }

  lemma OrphanSound<K>(l: Limits, e: nat, p: Store<K>, key: K, mtime: int, now: int)
    requires Sound(l, e, p, now) && key !in p.entries
    ensures Sound(l, e, p.(entries := p.entries[key := mtime], orphans := p.orphans + {key}), now)
  {
  }

  lemma {:induction false} RunSound<K>(l: Limits, e: nat, attempts: seq<Attempt<K>>, now: int)
    requires Stamped(attempts, e)
    requires attempts != [] ==> attempts[|attempts| - 1].visit.now <= now
    ensures Sound(l, e, Run(l, attempts), now)
    decreases |attempts|
  {
    if attempts != [] {
      var init, a := attempts[..|attempts| - 1], attempts[|attempts| - 1];
      RunSound(l, e, init, a.visit.now);
      StepSound(l, e, Run(l, init), a, a.visit.now);
    }
  }

  // ----- The bound -----

  /** Pruning a full directory makes room exactly if some entry can be removed or is not counted. */
  lemma PrunedShrinks<K>(l: Limits, entries: map<K, int>, now: int, d: Disk<K>)
    requires |entries| <= l.capacity
    ensures Pruned(l, entries, now, d).Keys <= entries.Keys && |Pruned(l, entries, now, d)| <= |entries|
    ensures HasRoom(l, entries, now, d)
        <==> |entries| < l.capacity || exists k :: k in entries && (k in d.blind || Removable(l, entries, k, now, d))
  {
    var left := Pruned(l, entries, now, d);
    assert |left| == |left.Keys| && |entries| == |entries.Keys|;
    SubsetSize(left.Keys, entries.Keys);
    if |entries| == l.capacity {
      if k :| k in entries && (k in d.blind || Removable(l, entries, k, now, d)) {
        SubsetSize(left.Keys - d.blind, entries.Keys - {k});
      } else {
        assert left.Keys - d.blind == entries.Keys;
      }
    }
  }

  /**
    A new entry comes into a full directory from which nothing can be removed, and where some entry is not counted
    because it cannot be inspected.
   */
  ghost predicate Overfilling<K>(l: Limits, entries: map<K, int>, digest: K, now: int, d: Disk<K>) {
    && |entries| == l.capacity && now > 0 && d.usable && digest !in entries && d.writing != Failed(true)
    && (exists k :: k in entries && k in d.blind)
    && (forall k :: k in entries ==> !Removable(l, entries, k, now, d))
  }

  /** A directory within its capacity grows past it exactly there. */
  lemma RetainOverfillsIff<K>(l: Limits, entries: map<K, int>, digest: K, now: int, d: Disk<K>)
    requires |entries| <= l.capacity
    ensures |Retain(l, entries, digest, now, d).0| > l.capacity <==> Overfilling(l, entries, digest, now, d)
  {
    PrunedShrinks(l, entries, now, d);
    var left := Pruned(l, entries, now, d);
    if |entries| == l.capacity { FullPruned(l, entries, now, d); }
    assert digest !in left ==> |left[digest := d.mtime]| == |left| + 1;
  }

  lemma FullPruned<K>(l: Limits, entries: map<K, int>, now: int, d: Disk<K>)
    requires |entries| == l.capacity
    ensures if forall k :: k in entries ==> !Removable(l, entries, k, now, d) then Pruned(l, entries, now, d) == entries
            else |Pruned(l, entries, now, d)| < l.capacity
  {
    var left := Pruned(l, entries, now, d);
    if k :| k in entries && Removable(l, entries, k, now, d) {
      assert |left| == |left.Keys| && |entries| == |entries.Keys|;
      SubsetSize(left.Keys, entries.Keys - {k});
    }
  }

  /** The attempt reaches the store and overfills it. */
  ghost predicate OverfilledBy<K>(l: Limits, s: Store<K>, a: Attempt<K>) {
    && a.visit.authentic && InWindow(a.visit)
    && Overfilling(l, s.entries, a.visit.request.key, a.visit.now, a.disk)
  }

  lemma StepOverfillsIff<K>(l: Limits, s: Store<K>, a: Attempt<K>)
    requires |s.entries| <= l.capacity
    ensures |Step(l, s, a).entries| > l.capacity <==> OverfilledBy(l, s, a)
  {
    RetainOverfillsIff(l, s.entries, a.visit.request.key, a.visit.now, a.disk);
  }

  /** The directory stays within its capacity all along. */
  ghost predicate StaysWithin<K>(l: Limits, attempts: seq<Attempt<K>>) {
    forall n :: 0 <= n <= |attempts| ==> |Run(l, attempts[..n]).entries| <= l.capacity
  }

  ghost predicate NoneOverfills<K>(l: Limits, attempts: seq<Attempt<K>>) {
    forall n :: 0 <= n < |attempts| ==> !OverfilledBy(l, Run(l, attempts[..n]), attempts[n])
  }

  lemma LastWithin<K>(l: Limits, init: seq<Attempt<K>>, a: Attempt<K>)
    ensures StaysWithin(l, init + [a]) <==> StaysWithin(l, init) && |Run(l, init + [a]).entries| <= l.capacity
  {
    var all := init + [a];
    assert all[..|all|] == all;
    forall n | 0 <= n <= |init| ensures all[..n] == init[..n] {
    }
  }

  lemma LastOverfills<K>(l: Limits, init: seq<Attempt<K>>, a: Attempt<K>)
    ensures NoneOverfills(l, init + [a]) <==> NoneOverfills(l, init) && !OverfilledBy(l, Run(l, init), a)
  {
    var all := init + [a];
    assert all[..|init|] == init && all[|init|] == a;
    forall n | 0 <= n < |init| ensures all[..n] == init[..n] && all[n] == init[n] {
    }
  }

  /** So over a whole run the directory stays within its capacity if and only if no attempt overfills it. */
  lemma {:induction false} BoundedIffNoneOverfills<K>(l: Limits, attempts: seq<Attempt<K>>)
    ensures StaysWithin(l, attempts) <==> NoneOverfills(l, attempts)
    decreases |attempts|
  {
    if attempts == [] {
      assert attempts[..0] == [];
    } else {
      var init, a := attempts[..|attempts| - 1], attempts[|attempts| - 1];
      assert attempts == init + [a];
      BoundedIffNoneOverfills(l, init);
      LastWithin(l, init, a);
      LastOverfills(l, init, a);
      RunLast(l, init, a);
      if StaysWithin(l, init) {
        assert init[..|init|] == init;
        StepOverfillsIff(l, Run(l, init), a);
      }
    }
  }

  /** And some runs do overfill it, with every file stamped in time: a full directory cannot inspect an entry. */
  lemma UninspectedRunOverfills(l: Limits)
    requires l.capacity > 0
    ensures exists attempts: seq<Attempt<nat>> :: Stamped(attempts, 0) && |Run(l, attempts).entries| > l.capacity
  {
    var n := l.capacity;
    Filled(l, n, 0, 1);
    var s := Run(l, Series(n, 0, 1));
    var k :| k in s.entries;
    var a := Attempt(Numbered(n, 0, 1), Disk(true, 1, {}, {k}, Written));
    RunLast(l, Series(n, 0, 1), a);
    assert OverfilledBy(l, s, a);
    StepOverfillsIff(l, s, a);
    SeriesInTime(n, a);
    assert Stamped(Series(n, 0, 1) + [a], 0);
  }

  lemma SeriesInTime(n: nat, a: Attempt<nat>)
    requires a.visit.now == 1 == a.disk.mtime
    ensures Stamped(Series(n, 0, 1) + [a], 0)
  {
  }

  /**
    Over every run within the capacity, a request whose key was never retained, nor left behind by a
    failed write, is retained if and only if the directory is usable, its entry can be written, and there is
    room, or some entry that is old enough can be removed or cannot be inspected now.
   */
  lemma FreshRefusedOnlyIfFull<K>(l: Limits, attempts: seq<Attempt<K>>, a: Attempt<K>)
    requires |Run(l, attempts).entries| <= l.capacity && a.visit.authentic && InWindow(a.visit)
    requires a.visit.request.key !in Run(l, attempts).orphans
    requires forall i :: 0 <= i < |Run(l, attempts).log| ==> Run(l, attempts).log[i].request.key != a.visit.request.key
    ensures var s, now := Run(l, attempts), a.visit.now;
            Run(l, attempts + [a]).log == s.log + [a.visit]
            <==> now > 0 && a.disk.usable && a.disk.writing == Written
                 && (|s.entries| < l.capacity
                     || exists k :: k in s.entries
                          && (k in a.disk.blind || Removable(l, s.entries, k, now, a.disk)))
  {
    RunSourced(l, attempts);
    RunLast(l, attempts, a);
    var s := Run(l, attempts);
    assert a.visit.request.key !in s.entries;
    PrunedShrinks(l, s.entries, a.visit.now, a.disk);
  }

  // ----- No request twice -----

  ghost predicate Narrow<K>(attempts: seq<Attempt<K>>, w: nat) {
    forall i :: 0 <= i < |attempts| ==> attempts[i].visit.request.until - attempts[i].visit.request.from <= w
  }

  /** A request is valid 300 seconds either way, so for exactly the retention time. */
  function CrosedRequest<K>(key: K, issuedAt: int): (r: Request<K>)
    ensures r.until - r.from == CROSED.retention
  {
    Request(key, issuedAt - 300, issuedAt + 300)
  }

  /** If the retention covers validity and lag of the stamps, no request is ever granted twice. */
  lemma {:induction false} GrantsNeverRepeat<K>(l: Limits, w: nat, e: nat, attempts: seq<Attempt<K>>)
    requires Stamped(attempts, e) && Narrow(attempts, w) && w + e <= l.retention
    ensures NoneTwice(Run(l, attempts).log)
    decreases |attempts|
  {
    if attempts != [] {
      var init, a := attempts[..|attempts| - 1], attempts[|attempts| - 1];
      GrantsNeverRepeat(l, w, e, init);
      RunSound(l, e, init, a.visit.now);
      StepDistinct(l, w, e, Run(l, init), a);
    }
  }

  lemma StepDistinct<K>(l: Limits, w: nat, e: nat, s: Store<K>, a: Attempt<K>)
    requires Sound(l, e, s, a.visit.now) && NoneTwice(s.log) && w + e <= l.retention
    requires a.visit.request.until - a.visit.request.from <= w
    ensures NoneTwice(Step(l, s, a).log)
  {
    var v, left := a.visit, Pruned(l, s.entries, a.visit.now, a.disk);
    if v.authentic && InWindow(v) && v.request.key !in left {
      forall i | 0 <= i < |s.log| ensures s.log[i].request != v.request {
        assert s.log[i].now - e >= v.now - l.retention ==> s.log[i].request.key in left;
      }
    }
  }

  /**
    So the retention is exact: over all runs of requests that are valid for at most `w`, with files stamped
    at most `e` early, none is granted twice if and only if the retention is at least `w + e`.
   */
  lemma NeverTwiceIffRetained(l: Limits, w: nat, e: nat)
    requires l.capacity > 0
    ensures (forall attempts: seq<Attempt<nat>> ::
               Stamped(attempts, e) && Narrow(attempts, w) ==> NoneTwice(Run(l, attempts).log))
        <==> l.retention >= w + e
  {
    if l.retention >= w + e {
      forall attempts: seq<Attempt<nat>> | Stamped(attempts, e) && Narrow(attempts, w)
        ensures NoneTwice(Run(l, attempts).log)
      {
        GrantsNeverRepeat(l, w, e, attempts);
      }
    } else {
      var attempts := GrantedTwice(l, w, 1 - e);
      assert Stamped(attempts, e) && Narrow(attempts, w) && !NoneTwice(Run(l, attempts).log);
    }
  }

  /** Request `i` of a series that is valid from time 1 on. */
  function Numbered(i: nat, w: nat, now: int): Visit<nat> {
    Visit(Request(i, 1, 1 + w), now, true)
  }

  /** The first `n` requests of the series at time 1, all stamped with `mtime`. */
  function Series(n: nat, w: nat, mtime: int): seq<Attempt<nat>> {
    seq(n, i requires 0 <= i => Attempt(Numbered(i, w, 1), Disk(true, mtime, {}, {}, Written)))
  }

  lemma {:induction false} Filled(l: Limits, n: nat, w: nat, mtime: int)
    requires n <= l.capacity
    ensures FilledWith(Run(l, Series(n, w, mtime)), n, w, mtime)
  {
    if n > 0 {
      Filled(l, n - 1, w, mtime);
      var a := Series(n, w, mtime)[n - 1];
      assert Series(n, w, mtime) == Series(n - 1, w, mtime) + [a];
      RunLast(l, Series(n - 1, w, mtime), a);
      FillOne(l, Run(l, Series(n - 1, w, mtime)), n - 1, w, mtime);
    }
  }

  ghost predicate FilledWith(s: Store<nat>, n: nat, w: nat, mtime: int) {
    && |s.entries| == n && |s.log| == n && (n > 0 ==> s.log[0] == Numbered(0, w, 1))
    && (forall k: nat :: k in s.entries ==> k < n && s.entries[k] == mtime)
  }

  lemma FillOne(l: Limits, s: Store<nat>, n: nat, w: nat, mtime: int)
    requires n < l.capacity && FilledWith(s, n, w, mtime)
    ensures FilledWith(Step(l, s, Attempt(Numbered(n, w, 1), Disk(true, mtime, {}, {}, Written))), n + 1, w, mtime)
  {
    assert Pruned(l, s.entries, 1, Disk(true, mtime, {}, {}, Written)) == s.entries;
  }

  /** Once the directory is full, entries that are over make room for the first request again. */
  lemma GrantedTwice(l: Limits, w: nat, mtime: int) returns (attempts: seq<Attempt<nat>>)
    requires l.capacity > 0 && mtime + l.retention < 1 + w && mtime <= 1
    ensures InTime(attempts) && Narrow(attempts, w)
    ensures forall i :: 0 <= i < |attempts| ==> attempts[i].visit.now - 1 + mtime <= attempts[i].disk.mtime
    ensures !NoneTwice(Run(l, attempts).log)
  {
    var n := l.capacity;
    var again := Again(w);
    attempts := Series(n, w, mtime) + [again];
    Filled(l, n, w, mtime);
    var s := Run(l, Series(n, w, mtime));
    AllOver(l, s, again, mtime);
    RunLast(l, Series(n, w, mtime), again);
    Repeated(s.log, again.visit);
    TwiceInTime(n, w, mtime);
  }

  /** The first request of the series at the end of its window. */
  function Again(w: nat): Attempt<nat> {
    Attempt(Numbered(0, w, 1 + w), Disk(true, 1 + w, {}, {}, Written))
  }

  lemma RunLast<K>(l: Limits, attempts: seq<Attempt<K>>, a: Attempt<K>)
    ensures Run(l, attempts + [a]) == Step(l, Run(l, attempts), a)
  {
    assert (attempts + [a])[..|attempts|] == attempts;
  }

  lemma Repeated<K>(log: seq<Visit<K>>, v: Visit<K>)
    requires log != [] && log[0].request == v.request
    ensures !NoneTwice(log + [v])
  {
    var longer := log + [v];
    assert longer[0].request == longer[|log|].request;
  }

  lemma TwiceInTime(n: nat, w: nat, mtime: int)
    requires mtime <= 1
    ensures var attempts := Series(n, w, mtime) + [Again(w)];
            && InTime(attempts) && Narrow(attempts, w)
            && forall i :: 0 <= i < |attempts| ==> attempts[i].visit.now - 1 + mtime <= attempts[i].disk.mtime
  {
  }

  lemma AllOver(l: Limits, s: Store<nat>, a: Attempt<nat>, mtime: int)
    requires l.capacity > 0 && |s.entries| == l.capacity && mtime < a.visit.now - l.retention
    requires forall k :: k in s.entries ==> s.entries[k] == mtime
    requires a.visit.authentic && InWindow(a.visit) && a.visit.now > 0
    requires a.disk == Disk(true, a.disk.mtime, {}, {}, Written)
    ensures Step(l, s, a).log == s.log + [a.visit]
  {
    var left := Pruned(l, s.entries, a.visit.now, a.disk);
    forall k | k in s.entries ensures Removable(l, s.entries, k, a.visit.now, a.disk) {
    }
    assert left == map[];
    assert left.Keys - a.disk.blind == {};
  }
}
