/**
  Access grants between clients and agents over a broker that may lie, drop and replay.
  Signatures are ideal: a signature of an honest key verifies only on bytes that key has signed,
  while for any other key the adversary can produce whatever it likes.
 */
module AccessProtocol {
  import opened Bytes
  import opened SignedFields
  import opened Text

  type Id = seq<byte>
  type Key = nat

  const MAX_MESSAGE: nat := 65536

  datatype AgentConfig = AgentConfig(id: Id, clientKeys: map<Id, Key>)
  datatype ClientConfig = ClientConfig(id: Id, targetAgent: Id, agentKey: Key)

  /** The honest parties by identity key. A key may serve in both roles. */
  datatype World = World(agents: map<Key, AgentConfig>, clients: map<Key, ClientConfig>) {
    predicate Honest(key: Key) {
      key in agents || key in clients
    }

    predicate Owns(key: Key, id: Id) {
      (key in agents && agents[key].id == id) || (key in clients && clients[key].id == id)
    }
  }

  datatype AccessReq = AccessReq(clientId: Id, targetAgent: Id, clientIp: Id, e2eeKey: seq<byte>)
  /** The port is a signed machine integer of the response document. */
  datatype AccessResp = AccessResp(e2eeKey: seq<byte>, kcpPort: int)

  function AuthPayload(peer: Id, nonce: seq<byte>): seq<byte> {
    Payload(ControlAuth, [peer, nonce])
  }

  function ClientPayload(r: AccessReq): seq<byte> {
    Payload(ClientAccess, [r.clientId, r.targetAgent, r.clientIp, r.e2eeKey])
  }

  /** Only the low 32 bits of the port are covered. */
  function AgentPayload(r: AccessReq, a: AccessResp): seq<byte> {
    Payload(AgentAccess, [r.clientId, r.targetAgent, r.e2eeKey, a.e2eeKey, Be32(a.kcpPort)])
  }

  function LpdRequestPayload(agent: Id, client: Id, stamp: seq<byte>, nonce: seq<byte>, e2eeKey: seq<byte>): seq<byte> {
    Payload(LpdRequest, [agent, client, stamp, nonce, e2eeKey])
  }

  function LpdOfferPayload(agent: Id, nonce: seq<byte>, clientKey: seq<byte>, a: AccessResp): seq<byte> {
    Payload(LpdOffer, [agent, nonce, clientKey, a.e2eeKey, Be32(a.kcpPort)])
  }

  // ----- Runs -----

  /** How the agent was asked: through the broker, or by local discovery with this time stamp and nonce. */
  datatype Via = Broker | Discovery(stamp: seq<byte>, nonce: seq<byte>)

  /** Everything an honest key ever signs, and with what in hand. */
  datatype Event =
    | Auth(key: Key, peer: Id, nonce: seq<byte>)
    | Ask(key: Key, request: AccessReq)
    | AskLocally(key: Key, request: AccessReq, via: Via)
    | Grant(key: Key, request: AccessReq, response: AccessResp, via: Via)
    | Offer(key: Key, request: AccessReq, response: AccessResp, via: Via)

  /** What an event signs. */
  function Signed(e: Event): seq<byte> {
    match e
    case Auth(_, peer, nonce) => AuthPayload(peer, nonce)
    case Ask(_, r) => ClientPayload(r)
    case AskLocally(_, r, via) => LocalPayload(r, via)
    case Grant(_, r, a, _) => AgentPayload(r, a)
    case Offer(_, r, a, via) => LpdOfferPayload(r.targetAgent, if via.Discovery? then via.nonce else [], r.e2eeKey, a)
  }

  function LocalPayload(r: AccessReq, via: Via): seq<byte> {
    if via.Broker? then [] else LpdRequestPayload(r.targetAgent, r.clientId, via.stamp, via.nonce, r.e2eeKey)
  }

  ghost predicate Verifies(w: World, log: seq<Event>, key: Key, payload: seq<byte>) {
    w.Honest(key) ==> exists i :: 0 <= i < |log| && log[i].key == key && Signed(log[i]) == payload
  }

  /** Lengths that messages of the protocol can have. */
  predicate Bounded(r: AccessReq) {
    && |r.clientId| <= MAX_MESSAGE && |r.targetAgent| <= MAX_MESSAGE && |r.clientIp| <= MAX_MESSAGE
    && |r.e2eeKey| <= MAX_MESSAGE
  }

  predicate BoundedVia(via: Via) {
    via.Discovery? ==> |via.stamp| == 8 && |via.nonce| == 32
  }

  /** The agent has checked the request: it is meant for it, from a known client, and signed by that client. */
  ghost predicate Checked(w: World, log: seq<Event>, key: Key, r: AccessReq, via: Via)
    requires key in w.agents
  {
    && r.targetAgent == w.agents[key].id
    && r.clientId in w.agents[key].clientKeys
    && Verifies(w, log, w.agents[key].clientKeys[r.clientId],
                if via.Broker? then ClientPayload(r) else LocalPayload(r, via))
  }

  /** What the honest parties do; requests and nonces they react to come from the adversary. */
  ghost predicate Allowed(w: World, log: seq<Event>, e: Event) {
    match e
    case Auth(key, peer, nonce) => w.Owns(key, peer) && |peer| <= MAX_MESSAGE && |nonce| == 32
    case Ask(key, r) =>
      && key in w.clients && Bounded(r)
      && r.clientId == w.clients[key].id && r.targetAgent == w.clients[key].targetAgent
    case AskLocally(key, r, via) =>
      && key in w.clients && Bounded(r) && via.Discovery? && BoundedVia(via)
      && r.clientId == w.clients[key].id && r.targetAgent == w.clients[key].targetAgent
    case Grant(key, r, a, via) =>
      && key in w.agents && Bounded(r) && BoundedVia(via) && |r.e2eeKey| == 32
      && Checked(w, log, key, r, via)
      && |a.e2eeKey| == 32 && 1 <= a.kcpPort <= 65535
    case Offer(key, r, a, via) =>
      via.Discovery? && exists i :: 0 <= i < |log| && log[i] == Grant(key, r, a, via)
  }

  ghost predicate Run(w: World, log: seq<Event>) {
    forall i :: 0 <= i < |log| ==> Allowed(w, log[..i], log[i])
  }

  function FieldsOf(e: Event): (Domain, seq<seq<byte>>)
    requires e.AskLocally? ==> e.via.Discovery?
  {
    match e
    case Auth(_, peer, nonce) => (ControlAuth, [peer, nonce])
    case Ask(_, r) => (ClientAccess, [r.clientId, r.targetAgent, r.clientIp, r.e2eeKey])
    case AskLocally(_, r, via) => (LpdRequest, [r.targetAgent, r.clientId, via.stamp, via.nonce, r.e2eeKey])
    case Grant(_, r, a, _) => (AgentAccess, [r.clientId, r.targetAgent, r.e2eeKey, a.e2eeKey, Be32(a.kcpPort)])
    case Offer(_, r, a, via) =>
      (LpdOffer, [r.targetAgent, if via.Discovery? then via.nonce else [], r.e2eeKey, a.e2eeKey, Be32(a.kcpPort)])
  }

  /** In a run every signature covers fields that its payload determines. */
  lemma SignedFieldsSmall(w: World, log: seq<Event>, i: nat)
    requires Run(w, log) && i < |log|
    ensures log[i].AskLocally? ==> log[i].via.Discovery?
    ensures Signed(log[i]) == Payload(FieldsOf(log[i]).0, FieldsOf(log[i]).1) && Small(FieldsOf(log[i]).1)
  {
    assert Allowed(w, log[..i], log[i]);
    if log[i].Offer? { OfferBounded(w, log, i); }
    SmallEvent(log[i]);
    SignedIsPayload(log[i]);
  }

  /** The lengths of what an event signs. */
  predicate BoundedEvent(e: Event) {
    match e
    case Auth(_, peer, nonce) => |peer| <= MAX_MESSAGE && |nonce| == 32
    case Ask(_, r) => Bounded(r)
    case AskLocally(_, r, via) => Bounded(r) && via.Discovery? && BoundedVia(via)
    case Grant(_, r, a, _) => Bounded(r) && |a.e2eeKey| == 32
    case Offer(_, r, a, via) => Bounded(r) && BoundedVia(via) && |a.e2eeKey| == 32
  }

  lemma SmallEvent(e: Event)
    requires BoundedEvent(e)
    ensures Small(FieldsOf(e).1)
  {
  }

  lemma SignedIsPayload(e: Event)
    requires e.AskLocally? ==> e.via.Discovery?
    ensures Signed(e) == Payload(FieldsOf(e).0, FieldsOf(e).1)
  {
  }

  lemma OfferBounded(w: World, log: seq<Event>, i: nat)
    requires Run(w, log) && i < |log| && log[i].Offer?
    ensures Bounded(log[i].request) && BoundedVia(log[i].via) && |log[i].response.e2eeKey| == 32
  {
    var e := log[i];
    assert Allowed(w, log[..i], e);
    var j :| 0 <= j < i && log[..i][j] == Grant(e.key, e.request, e.response, e.via);
    assert Allowed(w, log[..j], log[j]);
  }

  /** A verified payload of an honest key was signed in the run, for that purpose and those fields. */
  lemma SignerFound(w: World, log: seq<Event>, key: Key, d: Domain, fields: seq<seq<byte>>) returns (i: nat)
    requires Run(w, log) && w.Honest(key) && Small(fields) && Verifies(w, log, key, Payload(d, fields))
    ensures i < |log| && log[i].key == key && (log[i].AskLocally? ==> log[i].via.Discovery?)
    ensures FieldsOf(log[i]) == (d, fields)
  {
    i :| 0 <= i < |log| && log[i].key == key && Signed(log[i]) == Payload(d, fields);
    SignedFieldsSmall(w, log, i);
    PayloadDetermines(FieldsOf(log[i]).0, FieldsOf(log[i]).1, d, fields);
  }

  // ----- The agent's handlers -----

  datatype GrantResult =
    | Granted(response: AccessResp)
    | WrongAgent | UnknownClient | BadSignature | BadAddress | BadRequest | NoTunnelSlot

  function Chars(id: Id): string {
    seq(|id|, i requires 0 <= i < |id| => id[i] as char)
  }

  predicate ValidNames(r: AccessReq) {
    ValidIdentity(Chars(r.clientId)) && ValidIdentity(Chars(r.targetAgent))
  }

  /** What an agent finds when it sets up a tunnel: an acceptable address, a free slot, and a new key and port. */
  datatype Setup = Setup(addressOk: bool, slotFree: bool, response: AccessResp)

  predicate ValidSetup(s: Setup) {
    |s.response.e2eeKey| == 32 && 1 <= s.response.kcpPort <= 65535
  }

  function ProvisionAccess(r: AccessReq, s: Setup): GrantResult {
    if !s.addressOk then BadAddress
    else if |r.e2eeKey| != 32 || !ValidNames(r) then BadRequest
    else if !s.slotFree then NoTunnelSlot
    else Granted(s.response)
  }

  /** Checks in the order of the handler. */
  function GrantAccess(cfg: AgentConfig, r: AccessReq, signatureOk: bool, s: Setup): GrantResult {
    if r.targetAgent != cfg.id then WrongAgent
    else if r.clientId !in cfg.clientKeys then UnknownClient
    else if !signatureOk then BadSignature
    else ProvisionAccess(r, s)
  }

  /** `ok` is the verdict of the signature check under the registered key of the client, if there is one. */
  ghost predicate Verdict(w: World, log: seq<Event>, key: Key, r: AccessReq, via: Via, ok: bool)
    requires key in w.agents
  {
    r.clientId in w.agents[key].clientKeys ==>
      (ok <==> Verifies(w, log, w.agents[key].clientKeys[r.clientId],
                        if via.Broker? then ClientPayload(r) else LocalPayload(r, via)))
  }

  /**
    A request that comes through the broker is answered exactly if it is well formed, there is room and
    the answer is a step the protocol allows, that is, the client's own signature covers the request.
   */
  lemma GrantedIffAllowed(w: World, log: seq<Event>, key: Key, r: AccessReq, signatureOk: bool, s: Setup)
    requires key in w.agents && Bounded(r) && ValidSetup(s) && Verdict(w, log, key, r, Broker, signatureOk)
    ensures GrantAccess(w.agents[key], r, signatureOk, s) == Granted(s.response)
        <==> Allowed(w, log, Grant(key, r, s.response, Broker)) && s.addressOk && s.slotFree && ValidNames(r)
  {
  }

  /** A discovery request as it arrives. */
  datatype LpdReq = LpdReq(version: int, agentId: Id, clientId: Id, timestamp: int, nonce: seq<byte>,
                           e2eeKey: seq<byte>)

  /** The access request it stands for; the address is where it came from. */
  function AccessOf(m: LpdReq, remote: Id): AccessReq {
    AccessReq(m.clientId, m.agentId, remote, m.e2eeKey)
  }

  /** The time stamp is signed as 64 bits. */
  function ViaOf(m: LpdReq): Via {
    Discovery(Be32(m.timestamp / TWO_32) + Be32(m.timestamp), m.nonce)
  }

  datatype LpdResult = Offered(response: AccessResp) | Ignored

  /** One pass of the discovery loop; `unseen` is the answer of the replay cache. */
  function ServeDiscovery(cfg: AgentConfig, m: LpdReq, remote: Id, now: int, signatureOk: bool, unseen: bool,
                          s: Setup): LpdResult {
    if m.version != 1 || m.agentId != cfg.id || |m.nonce| != 32 || |m.e2eeKey| != 32 then Ignored
    else if m.timestamp < now - 30 || m.timestamp > now + 30 then Ignored
    else if m.clientId !in cfg.clientKeys || !signatureOk then Ignored
    else if !unseen then Ignored
    else
      match ProvisionAccess(AccessOf(m, remote), s)
      case Granted(a) => Offered(a)
      case _ => Ignored
  }

  /**
    A discovery request is answered exactly if it is well formed, on time and new, there is room, and both
    signatures of the answer, on the grant and on the offer, are steps the protocol allows.
   */
  lemma OfferedIffAllowed(w: World, log: seq<Event>, key: Key, m: LpdReq, remote: Id, now: int,
                          signatureOk: bool, unseen: bool, s: Setup)
    requires key in w.agents && Bounded(AccessOf(m, remote)) && ValidSetup(s)
    requires Verdict(w, log, key, AccessOf(m, remote), ViaOf(m), signatureOk)
    ensures var r, via := AccessOf(m, remote), ViaOf(m);
            var grant := Grant(key, r, s.response, via);
            ServeDiscovery(w.agents[key], m, remote, now, signatureOk, unseen, s) == Offered(s.response)
            <==> && Allowed(w, log, grant) && Allowed(w, log + [grant], Offer(key, r, s.response, via))
                 && m.version == 1 && now - 30 <= m.timestamp <= now + 30 && unseen
                 && s.addressOk && s.slotFree && ValidNames(r)
  {
    var r, via := AccessOf(m, remote), ViaOf(m);
    var grant := Grant(key, r, s.response, via);
    assert (log + [grant])[|log|] == grant;
  }

  // ----- An honest exchange -----

  lemma OneMoreEvent(w: World, log: seq<Event>, e: Event)
    requires Run(w, log) && Allowed(w, log, e)
    ensures Run(w, log + [e])
  {
    var longer := log + [e];
    forall i | 0 <= i < |longer| ensures Allowed(w, longer[..i], longer[i]) {
      assert longer[..i] == log[..i];
      assert i == |log| ==> log[..i] == log;
    }
  }

  lemma SignedVerifies(w: World, log: seq<Event>, e: Event)
    ensures Verifies(w, log + [e], e.key, Signed(e))
  {
    assert (log + [e])[|log|] == e;
  }

  /**
    After any run, a client that asks its agent is granted access if the agent knows its key, its request is well formed
    and there is room: asking and granting are allowed steps, the handler takes the request, and the client accepts.
   */
  lemma ExchangeCompletes(w: World, log: seq<Event>, clientKey: Key, agentKey: Key, r: AccessReq, s: Setup)
    requires Run(w, log) && clientKey in w.clients && agentKey in w.agents
    requires w.clients[clientKey].id == r.clientId && w.clients[clientKey].targetAgent == r.targetAgent
    requires w.agents[agentKey].id == r.targetAgent
    requires r.clientId in w.agents[agentKey].clientKeys && w.agents[agentKey].clientKeys[r.clientId] == clientKey
    requires Bounded(r) && ValidNames(r) && |r.e2eeKey| == 32 && s.addressOk && s.slotFree && ValidSetup(s)
    ensures var asked := log + [Ask(clientKey, r)];
            var granted := asked + [Grant(agentKey, r, s.response, Broker)];
            && Run(w, granted) && Verifies(w, asked, clientKey, ClientPayload(r))
            && GrantAccess(w.agents[agentKey], r, true, s) == Granted(s.response)
            && Verifies(w, granted, agentKey, AgentPayload(r, s.response))
  {
    var ask, grant := Ask(clientKey, r), Grant(agentKey, r, s.response, Broker);
    OneMoreEvent(w, log, ask);
    SignedVerifies(w, log, ask);
    OneMoreEvent(w, log + [ask], grant);
    SignedVerifies(w, log + [ask], grant);
  }

  // ----- Agreement -----

  /** What an accepting client can conclude about event `i`. */
  ghost predicate Agrees(w: World, log: seq<Event>, i: nat, agentKey: Key, r: AccessReq, a: AccessResp) {
    && i < |log| && log[i].Grant? && log[i].key == agentKey && agentKey in w.agents
    && log[i].request.clientId == r.clientId && log[i].request.targetAgent == r.targetAgent
    && log[i].request.e2eeKey == r.e2eeKey && log[i].response.e2eeKey == a.e2eeKey
    && log[i].response.kcpPort % TWO_32 == a.kcpPort % TWO_32
    && Checked(w, log[..i], agentKey, log[i].request, log[i].via)
  }

  /**
    On every run, if a client accepts an agent's signature, that agent signed for exactly this client,
    agent, client key, agent key and port, and did so only after verifying a signature of the
    client's registered key over the same identities and client key.
   */
  lemma AccessAgreement(w: World, log: seq<Event>, agentKey: Key, r: AccessReq, a: AccessResp) returns (i: nat)
    requires Run(w, log) && agentKey in w.agents
    requires Bounded(r) && |a.e2eeKey| <= MAX_MESSAGE
    requires Verifies(w, log, agentKey, AgentPayload(r, a))
    ensures Agrees(w, log, i, agentKey, r, a)
  {
    var fields := [r.clientId, r.targetAgent, r.e2eeKey, a.e2eeKey, Be32(a.kcpPort)];
    i := SignerFound(w, log, agentKey, AgentAccess, fields);
    GrantOfFields(log[i], r, a);
    assert Allowed(w, log[..i], log[i]);
  }

  lemma GrantOfFields(e: Event, r: AccessReq, a: AccessResp)
    requires e.AskLocally? ==> e.via.Discovery?
    requires FieldsOf(e) == (AgentAccess, [r.clientId, r.targetAgent, r.e2eeKey, a.e2eeKey, Be32(a.kcpPort)])
    ensures e.Grant? && e.request == r.(clientIp := e.request.clientIp)
    ensures e.response.e2eeKey == a.e2eeKey && e.response.kcpPort % TWO_32 == a.kcpPort % TWO_32
  {
    assert e.Grant?;
    var got := FieldsOf(e).1;
    assert got[0] == r.clientId && got[1] == r.targetAgent && got[2] == r.e2eeKey && got[3] == a.e2eeKey;
    assert got[4] == Be32(a.kcpPort);
    Be32Injective(e.response.kcpPort, a.kcpPort);
  }

  /** A verified request through the broker is, field by field, one that its honest client has signed. */
  lemma AskFound(w: World, log: seq<Event>, key: Key, r: AccessReq) returns (i: nat)
    requires Run(w, log) && w.Honest(key) && Bounded(r) && Verifies(w, log, key, ClientPayload(r))
    ensures i < |log| && log[i] == Ask(key, r)
  {
    var fields := [r.clientId, r.targetAgent, r.clientIp, r.e2eeKey];
    i := SignerFound(w, log, key, ClientAccess, fields);
    AskOfFields(log[i], r);
  }

  lemma AskOfFields(e: Event, r: AccessReq)
    requires e.AskLocally? ==> e.via.Discovery?
    requires FieldsOf(e) == (ClientAccess, [r.clientId, r.targetAgent, r.clientIp, r.e2eeKey])
    ensures e.Ask? && e.request == r
  {
    assert e.Ask?;
    var got := FieldsOf(e).1;
    assert got[0] == r.clientId && got[1] == r.targetAgent && got[2] == r.clientIp && got[3] == r.e2eeKey;
  }

  /** The same for discovery, where the address is not signed. */
  lemma LocalAskFound(w: World, log: seq<Event>, key: Key, r: AccessReq, via: Via) returns (i: nat)
    requires Run(w, log) && w.Honest(key) && Bounded(r) && via.Discovery? && BoundedVia(via)
    requires Verifies(w, log, key, LocalPayload(r, via))
    ensures i < |log| && log[i].AskLocally? && log[i] == AskLocally(key, r.(clientIp := log[i].request.clientIp), via)
  {
    var fields := [r.targetAgent, r.clientId, via.stamp, via.nonce, r.e2eeKey];
    i := SignerFound(w, log, key, LpdRequest, fields);
    var got := FieldsOf(log[i]).1;
    assert got[0] == fields[0] && got[1] == fields[1] && got[2] == fields[2] && got[3] == fields[3]
           && got[4] == fields[4];
  }

  /**
    If that client key is honest, its owner asked this agent, under this identity and with this key, before; through the
    broker also from this address, and by discovery with this time stamp and nonce.
   */
  lemma ClientAsked(w: World, log: seq<Event>, agentKey: Key, r: AccessReq, a: AccessResp, i: nat) returns (j: nat)
    requires Run(w, log) && Agrees(w, log, i, agentKey, r, a)
    requires w.Honest(w.agents[agentKey].clientKeys[r.clientId])
    ensures j < i && (log[j].Ask? || log[j].AskLocally?) && log[j].key == w.agents[agentKey].clientKeys[r.clientId]
    ensures log[j].request.clientId == r.clientId && log[j].request.targetAgent == r.targetAgent
    ensures log[j].request.e2eeKey == r.e2eeKey
    ensures if log[i].via.Broker? then log[j].Ask? && log[j].request == log[i].request
            else log[j].AskLocally? && log[j].via == log[i].via
  {
    var g, before := log[i], log[..i];
    assert Allowed(w, before, g);
    RunBefore(w, log, i);
    var key := w.agents[agentKey].clientKeys[r.clientId];
    if g.via.Broker? {
      j := AskFound(w, before, key, g.request);
    } else {
      j := LocalAskFound(w, before, key, g.request, g.via);
    }
  }

  lemma RunBefore(w: World, log: seq<Event>, i: nat)
    requires Run(w, log) && i <= |log|
    ensures Run(w, log[..i])
  {
    forall k | 0 <= k < i ensures Allowed(w, log[..i][..k], log[..i][k]) {
      assert log[..i][..k] == log[..k];
    }
  }

  /** So a request through the broker that differs in anything from all its honest client signed is never granted. */
  lemma GrantedWasAsked(w: World, log: seq<Event>, key: Key, r: AccessReq, signatureOk: bool, s: Setup)
    requires Run(w, log) && key in w.agents && Bounded(r) && Verdict(w, log, key, r, Broker, signatureOk)
    requires r.clientId in w.agents[key].clientKeys && w.Honest(w.agents[key].clientKeys[r.clientId])
    ensures GrantAccess(w.agents[key], r, signatureOk, s).Granted? ==>
              exists i :: 0 <= i < |log| && log[i] == Ask(w.agents[key].clientKeys[r.clientId], r)
  {
    if signatureOk { var i := AskFound(w, log, w.agents[key].clientKeys[r.clientId], r); }
  }

  /** And a discovery request that differs in anything signed is ignored. */
  lemma OfferedWasAsked(w: World, log: seq<Event>, key: Key, m: LpdReq, remote: Id, now: int,
                        signatureOk: bool, unseen: bool, s: Setup)
    requires Run(w, log) && key in w.agents && Bounded(AccessOf(m, remote))
    requires Verdict(w, log, key, AccessOf(m, remote), ViaOf(m), signatureOk)
    requires m.clientId in w.agents[key].clientKeys && w.Honest(w.agents[key].clientKeys[m.clientId])
    ensures ServeDiscovery(w.agents[key], m, remote, now, signatureOk, unseen, s).Offered? ==>
              exists i :: 0 <= i < |log| && log[i].AskLocally? && log[i].key == w.agents[key].clientKeys[m.clientId]
                          && log[i].via == ViaOf(m) && log[i].request == AccessOf(m, log[i].request.clientIp)
  {
    if signatureOk && |m.nonce| == 32 {
      var i := LocalAskFound(w, log, w.agents[key].clientKeys[m.clientId], AccessOf(m, remote), ViaOf(m));
    }
  }

  /** A peer that authenticates with an honest key has answered this very challenge under this identity. */
  lemma AuthAgreement(w: World, log: seq<Event>, key: Key, peer: Id, nonce: seq<byte>) returns (i: nat)
    requires Run(w, log) && w.Honest(key) && |peer| <= MAX_MESSAGE && |nonce| == 32
    requires Verifies(w, log, key, AuthPayload(peer, nonce))
    ensures i < |log| && log[i] == Auth(key, peer, nonce) && w.Owns(key, peer)
  {
    i := SignerFound(w, log, key, ControlAuth, [peer, nonce]);
    var got := FieldsOf(log[i]).1;
    assert got[0] == peer && got[1] == nonce;
    assert Allowed(w, log[..i], log[i]);
  }

  /**
    The port itself agrees exactly when the accepted port is a 32-bit number: the signature covers
    no more than that, and the client checks only that the port is positive.
   */
  lemma PortAgreesIffInRange(w: World, log: seq<Event>, agentKey: Key, r: AccessReq, a: AccessResp, i: nat)
    requires Run(w, log) && Agrees(w, log, i, agentKey, r, a)
    ensures a.kcpPort == log[i].response.kcpPort <==> 0 <= a.kcpPort < TWO_32
  {
    assert Allowed(w, log[..i], log[i]);
  }

  /** A broker can add 2^32 to the port of any accepted response and still have it accepted. */
  lemma ShiftedPortStillVerifies(w: World, log: seq<Event>, agentKey: Key, r: AccessReq, a: AccessResp)
    requires Verifies(w, log, agentKey, AgentPayload(r, a))
    ensures Verifies(w, log, agentKey, AgentPayload(r, a.(kcpPort := a.kcpPort + TWO_32)))
  {
    Be32Wraps(a.kcpPort);
  }

  /**
    The same for local discovery: an accepted offer was made by that agent for this request nonce and
    client key, after it checked a discovery request with that nonce and key from a registered client.
   */
  lemma OfferAgreement(w: World, log: seq<Event>, agentKey: Key, agent: Id, nonce: seq<byte>, clientKey: seq<byte>,
                       a: AccessResp)
    returns (i: nat)
    requires Run(w, log) && agentKey in w.agents
    requires |agent| <= MAX_MESSAGE && |nonce| == 32 && |clientKey| <= MAX_MESSAGE && |a.e2eeKey| <= MAX_MESSAGE
    requires Verifies(w, log, agentKey, LpdOfferPayload(agent, nonce, clientKey, a))
    ensures i < |log| && log[i].Grant? && log[i].key == agentKey && log[i].via.Discovery? && log[i].via.nonce == nonce
    ensures log[i].request.targetAgent == agent && log[i].request.e2eeKey == clientKey
    ensures log[i].response.e2eeKey == a.e2eeKey && log[i].response.kcpPort % TWO_32 == a.kcpPort % TWO_32
    ensures Checked(w, log[..i], agentKey, log[i].request, log[i].via)
  {
    var fields := [agent, nonce, clientKey, a.e2eeKey, Be32(a.kcpPort)];
    var k := SignerFound(w, log, agentKey, LpdOffer, fields);
    var got := FieldsOf(log[k]).1;
    assert got[0] == fields[0] && got[1] == fields[1] && got[2] == fields[2] && got[3] == fields[3]
           && got[4] == fields[4];
    Be32Injective(log[k].response.kcpPort, a.kcpPort);
    assert Allowed(w, log[..k], log[k]);
    i :| 0 <= i < k && log[..k][i] == Grant(agentKey, log[k].request, log[k].response, log[k].via);
    assert Allowed(w, log[..i], log[i]);
  }
}
