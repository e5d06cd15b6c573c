/** Whole runs of an agent's discovery loop over its replay cache: one signed request is answered once. */
module DiscoveryRuns {
  import opened Bytes
  import opened AccessProtocol
  import SignedFields
  import opened Replay
  import ReplayStores

  /** One datagram, where it came from, the clock, the verdict on its signature and what a tunnel would get. */
  datatype Call = Call(m: LpdReq, remote: Id, now: int, signatureOk: bool, setup: Setup)

  /** Form, addressee, client and signature are in order. */
  predicate Authentic(cfg: AgentConfig, c: Call) {
    && c.m.version == 1 && c.m.agentId == cfg.id && |c.m.nonce| == 32 && |c.m.e2eeKey| == 32
    && c.m.clientId in cfg.clientKeys && c.signatureOk
  }

  function VisitOf(cfg: AgentConfig, c: Call): Visit<seq<byte>> {
    Visit(ReplayStores.LpdRequest(c.m.nonce, c.m.timestamp), c.now, Authentic(cfg, c))
  }

  /** One pass of the loop with its cache: a nonce is taken before the tunnel is set up. */
  method Answer(cfg: AgentConfig, c: Call, cache: ReplayStores.LpdReplayCache<seq<byte>>) returns (r: LpdResult)
    modifies cache
    ensures forall log ::
              var s := Replay.Step(ReplayStores.LPD_POLICY, State(old(cache.seen), log), VisitOf(cfg, c));
              && s.seen == cache.seen
              && r == ServeDiscovery(cfg, c.m, c.remote, c.now, c.signatureOk, s.log != log, c.setup)
  {
    var m := c.m;
    if m.version != 1 || m.agentId != cfg.id || |m.nonce| != 32 || |m.e2eeKey| != 32 { return Ignored; }
    if m.timestamp < c.now - 30 || m.timestamp > c.now + 30 { return Ignored; }
    if m.clientId !in cfg.clientKeys || !c.signatureOk { return Ignored; }
    var unseen := cache.Reserve(m.nonce, c.now);
    if !unseen { return Ignored; }
    var result := ProvisionAccess(AccessOf(m, c.remote), c.setup);
    return if result.Granted? then Offered(result.response) else Ignored;
  }

  /** The cache with its log, and the calls that were answered. */
  datatype History = History(state: State<seq<byte>>, answered: seq<Call>)

  function Next(cfg: AgentConfig, h: History, c: Call): History {
    var state := Replay.Step(ReplayStores.LPD_POLICY, h.state, VisitOf(cfg, c));
    var r := ServeDiscovery(cfg, c.m, c.remote, c.now, c.signatureOk, state.log != h.state.log, c.setup);
    History(state, if r.Offered? then h.answered + [c] else h.answered)
  }

  function Run(cfg: AgentConfig, calls: seq<Call>): History {
    if calls == [] then History(State(map[], []), [])
    else Next(cfg, Run(cfg, calls[..|calls| - 1]), calls[|calls| - 1])
  }

  function Visits(cfg: AgentConfig, calls: seq<Call>): seq<Visit<seq<byte>>> {
    seq(|calls|, i requires 0 <= i < |calls| => VisitOf(cfg, calls[i]))
  }

  /** Answered requests are in the log, and no two of them are the same. */
  ghost predicate Faithful(cfg: AgentConfig, h: History) {
    && (forall i :: 0 <= i < |h.answered| ==> Authentic(cfg, h.answered[i]) && Logged(h.state.log, cfg, h.answered[i]))
    && (forall i, j :: 0 <= i < j < |h.answered| ==>
          VisitOf(cfg, h.answered[i]).request != VisitOf(cfg, h.answered[j]).request)
  }

  ghost predicate Logged(log: seq<Visit<seq<byte>>>, cfg: AgentConfig, c: Call) {
    exists p :: 0 <= p < |log| && log[p] == VisitOf(cfg, c)
  }

  lemma {:induction false} RunIsFaithful(cfg: AgentConfig, calls: seq<Call>)
    requires Replay.Ordered(Visits(cfg, calls))
    ensures Faithful(cfg, Run(cfg, calls))
    ensures Run(cfg, calls).state == Replay.Run(ReplayStores.LPD_POLICY, Visits(cfg, calls))
    decreases |calls|
  {
    if calls != [] {
      var init, c := calls[..|calls| - 1], calls[|calls| - 1];
      var visits := Visits(cfg, calls);
      assert visits[..|calls| - 1] == Visits(cfg, init);
      RunIsFaithful(cfg, init);
      DistinctVisits(cfg, calls);
      NextIsFaithful(cfg, Run(cfg, init), c);
    }
  }

  lemma DistinctVisits(cfg: AgentConfig, calls: seq<Call>)
    requires Replay.Ordered(Visits(cfg, calls))
    ensures NoneTwice(Replay.Run(ReplayStores.LPD_POLICY, Visits(cfg, calls)).log)
  {
    var times := seq(|calls|, i requires 0 <= i < |calls| => calls[i].m.timestamp);
    ReplayStores.DiscoveryNeverRepeats(Visits(cfg, calls), times);
  }

  lemma NextIsFaithful(cfg: AgentConfig, h: History, c: Call)
    requires Faithful(cfg, h) && NoneTwice(Next(cfg, h, c).state.log)
    ensures Faithful(cfg, Next(cfg, h, c))
  {
    var g, v := Next(cfg, h, c), VisitOf(cfg, c);
    LogGrows(h.state, v);
    forall i | 0 <= i < |h.answered| ensures Logged(g.state.log, cfg, h.answered[i]) {
      var p :| 0 <= p < |h.state.log| && h.state.log[p] == VisitOf(cfg, h.answered[i]);
      assert g.state.log[p] == h.state.log[p];
    }
    if g.answered != h.answered {
      assert g.state.log == h.state.log + [v] && g.state.log[|h.state.log|] == v;
      forall i | 0 <= i < |h.answered| ensures VisitOf(cfg, h.answered[i]).request != v.request {
        var p :| 0 <= p < |h.state.log| && h.state.log[p] == VisitOf(cfg, h.answered[i]);
        assert g.state.log[p] == h.state.log[p];
      }
    }
  }

  lemma LogGrows(s: State<seq<byte>>, v: Visit<seq<byte>>)
    ensures var t := Replay.Step(ReplayStores.LPD_POLICY, s, v);
            t.log == s.log || (t.log == s.log + [v] && v.authentic)
  {
  }

  predicate Int64(n: int) {
    -0x8000_0000_0000_0000 <= n < 0x8000_0000_0000_0000
  }

  /** What a datagram can hold: a 64-bit time stamp and bounded names. */
  predicate InRange(m: LpdReq) {
    && Int64(m.timestamp) && |m.agentId| <= MAX_MESSAGE && |m.clientId| <= MAX_MESSAGE
  }

  function SignedRequest(m: LpdReq): seq<byte> {
    LocalPayload(AccessOf(m, []), ViaOf(m))
  }

  /** Over every run of the discovery loop, no two answers are to the same signed bytes. */
  lemma NoRequestAnsweredTwice(cfg: AgentConfig, calls: seq<Call>, i: nat, j: nat)
    requires Replay.Ordered(Visits(cfg, calls)) && i < j < |Run(cfg, calls).answered|
    requires var a := Run(cfg, calls).answered; InRange(a[i].m) && InRange(a[j].m)
    ensures var a := Run(cfg, calls).answered; SignedRequest(a[i].m) != SignedRequest(a[j].m)
  {
    RunIsFaithful(cfg, calls);
    var a := Run(cfg, calls).answered;
    assert VisitOf(cfg, a[i]).request != VisitOf(cfg, a[j]).request;
    if SignedRequest(a[i].m) == SignedRequest(a[j].m) { SameBytesSameRequest(a[i].m, a[j].m); }
  }

  lemma SameBytesSameRequest(m: LpdReq, n: LpdReq)
    requires InRange(m) && InRange(n) && |m.nonce| == |n.nonce| == 32 && |m.e2eeKey| == |n.e2eeKey| == 32
    requires SignedRequest(m) == SignedRequest(n)
    ensures m.nonce == n.nonce && m.timestamp == n.timestamp
  {
    var f := [m.agentId, m.clientId, ViaOf(m).stamp, m.nonce, m.e2eeKey];
    var g := [n.agentId, n.clientId, ViaOf(n).stamp, n.nonce, n.e2eeKey];
    SignedFields.PayloadDetermines(SignedFields.LpdRequest, f, SignedFields.LpdRequest, g);
    assert f[2] == g[2] && f[3] == g[3];
    SameStamp(m.timestamp, n.timestamp);
  }

  lemma SameStamp(t: int, u: int)
    requires Int64(t) && Int64(u)
    requires Be32(t / TWO_32) + Be32(t) == Be32(u / TWO_32) + Be32(u)
    ensures t == u
  {
    var s, v := Be32(t / TWO_32) + Be32(t), Be32(u / TWO_32) + Be32(u);
    assert s[..4] == Be32(t / TWO_32) && s[4..] == Be32(t) && v[..4] == Be32(u / TWO_32) && v[4..] == Be32(u);
    Be32Injective(t / TWO_32, u / TWO_32);
    Be32Injective(t, u);
    SameHalves(t, u);
  }

  lemma SameHalves(t: int, u: int)
    requires Int64(t) && Int64(u)
    requires t % TWO_32 == u % TWO_32 && (t / TWO_32) % TWO_32 == (u / TWO_32) % TWO_32
    ensures t == u
  {
    assert -0x8000_0000 <= t / TWO_32 < 0x8000_0000 && -0x8000_0000 <= u / TWO_32 < 0x8000_0000;
  }

  /**
    The broker's path keeps no nonce: after any run, whatever was granted through it can be granted again, with
    another key and port, on the same signature of the client.
   */
  lemma BrokerGrantsAgain(w: World, log: seq<Event>, i: nat, a: AccessResp)
    requires AccessProtocol.Run(w, log) && i < |log| && log[i].Grant? && log[i].via.Broker?
    requires |a.e2eeKey| == 32 && 1 <= a.kcpPort <= 65535
    ensures AccessProtocol.Run(w, log + [Grant(log[i].key, log[i].request, a, Broker)])
  {
    var g := log[i];
    var longer := log + [Grant(g.key, g.request, a, Broker)];
    assert Allowed(w, log[..i], g);
    VerifiesLater(w, log, i, w.agents[g.key].clientKeys[g.request.clientId], ClientPayload(g.request));
    forall n | 0 <= n < |longer| ensures Allowed(w, longer[..n], longer[n]) {
      assert n < |log| ==> longer[..n] == log[..n] && longer[n] == log[n];
      assert n == |log| ==> longer[..n] == log;
    }
  }

  lemma VerifiesLater(w: World, log: seq<Event>, i: nat, key: Key, payload: seq<byte>)
    requires i <= |log| && Verifies(w, log[..i], key, payload)
    ensures Verifies(w, log, key, payload)
  {
    if w.Honest(key) {
      var n :| 0 <= n < i && log[..i][n].key == key && Signed(log[..i][n]) == payload;
      assert log[n] == log[..i][n];
    }
  }
}
