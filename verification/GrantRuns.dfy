/** Whole runs of the capability handler over its nonce store: one signed text is granted once. */
module GrantRuns {
  import opened SignedRequest
  import PortableJson
  import Text
  import opened Replay
  import Grants
  import CrosedReplay

  /** What stays the same between requests: the build, the digest and the test for normal form. */
  datatype Site = Site(build: Grants.Build, digest: Digest, nfc: PortableJson.Normal)

  /** One request with the trust file of its time, the clock, what else comes from outside, and the disk. */
  datatype Call = Call(request: SignedRequest.Request, trust: Grants.Trust, now: int, outside: Grants.Outside,
                       disk: CrosedReplay.Disk<string>)

  /** The name of the directory entry binds the mod and the nonce. */
  function ReplayKey(digest: Digest, r: SignedRequest.Request): string {
    digest(r.modId + "\n" + r.nonce)
  }

  /** The request passes every check before the store is asked. */
  ghost predicate Passes(x: Site, c: Call) {
    Grants.Grantable(x.build, c.request, c.trust, c.now, x.digest, x.nfc, c.outside.(reserved := true))
  }

  ghost function VisitOf(x: Site, c: Call): Visit<string> {
    Visit(CrosedReplay.CrosedRequest(ReplayKey(x.digest, c.request), c.request.issuedAt), c.now, Passes(x, c))
  }

  ghost function AttemptOf(x: Site, c: Call): CrosedReplay.Attempt<string> {
    CrosedReplay.Attempt(VisitOf(x, c), c.disk)
  }

  /** The handler with its store: the nonce is committed last, before the grant is released. */
  method Handle(x: Site, c: Call, store: CrosedReplay.ReplayStore<string>) returns (result: Grants.Result)
    requires store.limits == CrosedReplay.CROSED
    modifies store
    ensures var granted := result.Answer? && result.response.granted;
            && (forall log, orphans ::
                  var before := CrosedReplay.Store(old(store.entries), log, orphans);
                  var s := CrosedReplay.Step(CrosedReplay.CROSED, before, AttemptOf(x, c));
                  s.entries == store.entries && s.log == if granted then log + [VisitOf(x, c)] else log)
            && (granted ==>
                  result.response == Grants.Response(true, c.request.level, Text.InOrder(c.request.capabilities)))
  {
    var o := c.outside.(reserved := true);
    result := Grants.HandleRequest(x.build, c.request, c.trust, c.now, x.digest, x.nfc, o);
    if result.Answer? && result.response.granted {
      assert InWindow(VisitOf(x, c));
      var r := store.RetainDigest(ReplayKey(x.digest, c.request), c.now, c.disk);
      if r != CrosedReplay.Retained { result := Grants.Error; }
    }
  }

  /** The store after some calls, and the calls that were granted. */
  datatype History = History(store: CrosedReplay.Store<string>, granted: seq<Call>)

  ghost function Run(x: Site, calls: seq<Call>): History {
    if calls == [] then History(CrosedReplay.Store(map[], [], {}), [])
    else
      Next(x, Run(x, calls[..|calls| - 1]), calls[|calls| - 1])
  }

  ghost function Next(x: Site, s: History, c: Call): History {
    var store := CrosedReplay.Step(CrosedReplay.CROSED, s.store, AttemptOf(x, c));
    History(store, if store.log == s.store.log then s.granted else s.granted + [c])
  }

  ghost function Attempts(x: Site, calls: seq<Call>): seq<CrosedReplay.Attempt<string>> {
    seq(|calls|, i requires 0 <= i < |calls| => AttemptOf(x, calls[i]))
  }

  /** The store's log is that of the granted calls, all of which passed the other checks. */
  ghost predicate Faithful(x: Site, s: History) {
    && |s.granted| == |s.store.log|
    && forall i :: 0 <= i < |s.granted| ==> s.store.log[i] == VisitOf(x, s.granted[i]) && Passes(x, s.granted[i])
  }

  lemma {:induction false} RunIsFaithful(x: Site, calls: seq<Call>)
    ensures Faithful(x, Run(x, calls))
    ensures Run(x, calls).store == CrosedReplay.Run(CrosedReplay.CROSED, Attempts(x, calls))
    decreases |calls|
  {
    if calls != [] {
      var init := calls[..|calls| - 1];
      RunIsFaithful(x, init);
      NextIsFaithful(x, Run(x, init), calls[|calls| - 1]);
      CrosedReplay.RunLast(CrosedReplay.CROSED, Attempts(x, init), AttemptOf(x, calls[|calls| - 1]));
      assert Attempts(x, calls) == Attempts(x, init) + [AttemptOf(x, calls[|calls| - 1])];
    }
  }

  lemma NextIsFaithful(x: Site, s: History, c: Call)
    requires Faithful(x, s)
    ensures Faithful(x, Next(x, s, c))
  {
    var a := AttemptOf(x, c);
    var t := CrosedReplay.Step(CrosedReplay.CROSED, s.store, a);
    StoreStep(s.store, a);
    assert t.log != s.store.log ==> Passes(x, c);
  }

  lemma StoreStep(s: CrosedReplay.Store<string>, a: CrosedReplay.Attempt<string>)
    ensures var t := CrosedReplay.Step(CrosedReplay.CROSED, s, a);
            t.log == s.log || (t.log == s.log + [a.visit] && a.visit.authentic)
  {
  }

  /** Over every run of the handler, no two granted requests have the same signed text. */
  lemma NoTextGrantedTwice(x: Site, calls: seq<Call>, i: nat, j: nat)
    requires Ideal(x.digest) && CrosedReplay.Stamped(Attempts(x, calls), 0)
    requires i < j < |Run(x, calls).granted|
    ensures var granted := Run(x, calls).granted;
            SignedText(granted[i].request, x.digest) != SignedText(granted[j].request, x.digest)
  {
    RunIsFaithful(x, calls);
    CrosedReplay.GrantsNeverRepeat(CrosedReplay.CROSED, CrosedReplay.CROSED.retention, 0, Attempts(x, calls));
    var s := Run(x, calls);
    assert s.store.log[i].request != s.store.log[j].request;
    if SignedText(s.granted[i].request, x.digest) == SignedText(s.granted[j].request, x.digest) {
      SameTextSameVisit(x, s.granted[i], s.granted[j]);
    }
  }

  lemma SameTextSameVisit(x: Site, a: Call, b: Call)
    requires Ideal(x.digest) && Passes(x, a) && Passes(x, b)
    requires SignedText(a.request, x.digest) == SignedText(b.request, x.digest)
    ensures VisitOf(x, a).request == VisitOf(x, b).request
  {
    Grants.GrantableSeparable(x.build, a.request, a.trust, a.now, x.digest, x.nfc, a.outside.(reserved := true));
    Grants.GrantableSeparable(x.build, b.request, b.trust, b.now, x.digest, x.nfc, b.outside.(reserved := true));
    TextDetermines(a.request, b.request, x.digest, x.nfc);
  }

  /** Two requests share a directory entry if and only if they have the same mod and the same nonce. */
  lemma KeyBindsModAndNonce(digest: Digest, a: SignedRequest.Request, b: SignedRequest.Request)
    requires Ideal(digest) && Text.ValidIdentity(a.modId) && Text.ValidIdentity(b.modId)
    ensures ReplayKey(digest, a) == ReplayKey(digest, b) <==> a.modId == b.modId && a.nonce == b.nonce
  {
    if ReplayKey(digest, a) == ReplayKey(digest, b) {
      SplitAt(a.modId, a.nonce, b.modId, b.nonce, '\n');
    }
  }

  /**
    So a request that passes every check is granted, once the directory has room and can be written to, unless its own
    mod had a grant under the same nonce or a failed write left the entry behind.
   */
  lemma FreshNonceIsGranted(x: Site, calls: seq<Call>, c: Call)
    requires Ideal(x.digest) && Passes(x, c) && c.now > 0 && c.disk.usable && c.disk.writing.Written?
    requires |Run(x, calls).store.entries| < 4096
    requires ReplayKey(x.digest, c.request) !in Run(x, calls).store.orphans
    requires forall i :: 0 <= i < |Run(x, calls).granted| ==>
               var r := Run(x, calls).granted[i].request; r.modId != c.request.modId || r.nonce != c.request.nonce
    ensures Run(x, calls + [c]).granted == Run(x, calls).granted + [c]
  {
    var s := Run(x, calls);
    RunIsFaithful(x, calls);
    CrosedReplay.RunSourced(CrosedReplay.CROSED, Attempts(x, calls));
    forall i | 0 <= i < |s.store.log| ensures s.store.log[i].request.key != ReplayKey(x.digest, c.request) {
      KeyBindsModAndNonce(x.digest, s.granted[i].request, c.request);
    }
    assert (calls + [c])[..|calls|] == calls;
    EntryIsFree(x, s.store, c);
  }

  lemma EntryIsFree(x: Site, s: CrosedReplay.Store<string>, c: Call)
    requires Passes(x, c) && c.now > 0 && c.disk.usable && c.disk.writing.Written?
    requires |s.entries| < CrosedReplay.CROSED.capacity && ReplayKey(x.digest, c.request) !in s.entries
    ensures CrosedReplay.Step(CrosedReplay.CROSED, s, AttemptOf(x, c)).log == s.log + [VisitOf(x, c)]
  {
    assert InWindow(VisitOf(x, c));
  }
}
