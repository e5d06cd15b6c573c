/** The replay stores that are kept in memory: the discovery cache and the message window. */
module ReplayStores {
  import opened Replay

  // ----- Local discovery -----

  /** `lpdReplayCache`: stamps the time of acceptance and keeps it for 60 seconds. */
  const LPD_POLICY := Policy(60, true, 50_000)

  class LpdReplayCache<K(==)> {
    var seen: map<K, int>

    constructor ()
      ensures seen == map[]
    {
      seen := map[];
    }

    method Reserve(nonce: K, now: int) returns (ok: bool)
      modifies this
      ensures (seen, ok) == Replay.Reserve(old(seen), LPD_POLICY, nonce, now, now)
    {
      var keys := seen.Keys;
      while keys != {}
        invariant keys <= old(seen).Keys
        invariant seen == map k | k in old(seen) && (k in keys || old(seen)[k] + 60 >= now) :: old(seen)[k]
        decreases keys
      {
        var key :| key in keys;
        keys := keys - {key};
        if seen[key] < now - 60 {
          seen := seen - {key};
        }
      }
      assert seen == Kept(old(seen), 60, now);
      if nonce in seen { return false; }
      if |seen| >= 50_000 { return false; }
      seen := seen[nonce := now];
      return true;
    }

    /** The discovery loop: form and signature, then the time window, then the cache. */
    method Serve(nonce: K, timestamp: int, authentic: bool, now: int) returns (ok: bool)
      modifies this
      ensures var v := Visit(LpdRequest(nonce, timestamp), now, authentic);
              forall log :: var s := Step(LPD_POLICY, State(old(seen), log), v);
                            s.seen == seen && (ok <==> s.log == log + [v]) && (!ok ==> s.log == log)
    {
      if timestamp < now - 30 || timestamp > now + 30 || !authentic { return false; }
      ok := Reserve(nonce, now);
    }
  }

  function LpdRequest<K>(nonce: K, timestamp: int): Request<K> {
    Request(nonce, timestamp - 30, timestamp + 30)
  }

  /** No discovery request is answered twice, over every run of the cache. */
  lemma DiscoveryNeverRepeats<K>(visits: seq<Visit<K>>, timestamps: seq<int>)
    requires Ordered(visits) && |timestamps| == |visits|
    requires forall i :: 0 <= i < |visits| ==> visits[i].request == LpdRequest(visits[i].request.key, timestamps[i])
    ensures NoneTwice(Run(LPD_POLICY, visits).log)
  {
    forall i | 0 <= i < |visits| ensures Covers(LPD_POLICY, visits[i]) {
      assert visits[i].request == LpdRequest(visits[i].request.key, timestamps[i]);
    }
    NoRequestTwice(LPD_POLICY, visits);
  }

  /**
    Over every run, a request is answered if and only if it is authentic, its time is within 30 seconds of the clock,
    its nonce was not taken in the last 60 seconds, and fewer than 50000 nonces were.
   */
  lemma DiscoveryAnsweredIff<K>(visits: seq<Visit<K>>, nonce: K, timestamp: int, authentic: bool, now: int)
    requires Ordered(visits + [Visit(LpdRequest(nonce, timestamp), now, authentic)])
    ensures var log, v := Run(LPD_POLICY, visits).log, Visit(LpdRequest(nonce, timestamp), now, authentic);
            Run(LPD_POLICY, visits + [v]).log == log + [v] <==>
              && authentic && -30 <= timestamp - now <= 30
              && (forall i :: 0 <= i < |log| && log[i].now >= now - 60 ==> log[i].request.key != nonce)
              && |set i | 0 <= i < |log| && log[i].now >= now - 60 :: log[i].request.key| < 50_000
  {
    var log, v := Run(LPD_POLICY, visits).log, Visit(LpdRequest(nonce, timestamp), now, authentic);
    StoreFollowsLog(LPD_POLICY, visits, v);
    assert LiveKeys(LPD_POLICY, log, now) == set i | 0 <= i < |log| && log[i].now >= now - 60 :: log[i].request.key;
    forall i | 0 <= i < |log| && log[i].now >= now - 60 && log[i].request.key == nonce
      ensures nonce in LiveKeys(LPD_POLICY, log, now)
    {
    }
  }

  // ----- Identity assertions and chat messages -----

  /** `ReplayWindow`: stamps the expiry of the message itself. */
  function WindowPolicy(limit: nat): Policy {
    Policy(0, false, limit)
  }

  datatype Verdict = Accepted | Stale | Refused

  class ReplayWindow {
    const limit: nat
    var seen: map<string, int>

    constructor (limit: nat)
      requires 1 <= limit <= 65_536
      ensures this.limit == limit && seen == map[]
    {
      this.limit, seen := limit, map[];
    }

    method AcceptUntil(id: string, expiresAt: int, now: int) returns (r: Verdict)
      modifies this`seen
      ensures if |id| > 256 || !(now <= expiresAt <= now + 3600) then r == Stale && seen == old(seen)
              else (seen, r == Accepted) == Reserve(old(seen), WindowPolicy(limit), id, expiresAt, now) && r != Stale
    {
      if |id| > 256 || !(now <= expiresAt <= now + 3600) { return Stale; }
      seen := map k | k in seen && seen[k] >= now :: seen[k];
      assert seen == Kept(old(seen), 0, now);
      if id in seen || |seen| >= limit { return Refused; }
      seen := seen[id := expiresAt];
      return Accepted;
    }

    method Accept(id: string, timestamp: int, now: int) returns (r: Verdict)
      modifies this`seen
      ensures if |id| > 256 || !(timestamp - 300 <= now <= timestamp + 300) then r == Stale && seen == old(seen)
              else (seen, r == Accepted) == Reserve(old(seen), WindowPolicy(limit), id, timestamp + 300, now)
                   && r != Stale
    {
      if now - timestamp > 300 || timestamp - now > 300 { return Stale; }
      r := AcceptUntil(id, timestamp + 300, now);
    }

    /** An identity assertion of at most an hour, checked for form, time, domain and signature
        before the window. The id, a key and a nonce, has 97 characters. */
    method VerifyIdentity(id: string, issuedAt: int, expiresAt: int, authentic: bool, now: int) returns (ok: bool)
      requires |id| <= 256
      modifies this`seen
      ensures var good := authentic && 1 <= expiresAt - issuedAt <= 3600;
              var v := Visit(IdentityRequest(id, issuedAt, expiresAt), now, good);
              forall log :: var s := Step(WindowPolicy(limit), State(old(seen), log), v);
                            s.seen == seen && (ok <==> s.log == log + [v]) && (!ok ==> s.log == log)
    {
      if !(1 <= expiresAt - issuedAt <= 3600) { return false; }
      if !(issuedAt <= now <= expiresAt) { return false; }
      if !authentic { return false; }
      var r := AcceptUntil(id, expiresAt, now);
      ok := r == Accepted;
    }

    /** A message reaches the window only after its signature and its ciphertext were authenticated. */
    method Decrypt(id: string, timestamp: int, authentic: bool, now: int) returns (ok: bool)
      requires |id| <= 256
      modifies this`seen
      ensures var v := Visit(ChatRequest(id, timestamp), now, authentic);
              forall log :: var s := Step(WindowPolicy(limit), State(old(seen), log), v);
                            s.seen == seen && (ok <==> s.log == log + [v]) && (!ok ==> s.log == log)
    {
      if !authentic { return false; }
      var r := Accept(id, timestamp, now);
      ok := r == Accepted;
    }
  }

  function IdentityRequest(id: string, issuedAt: int, expiresAt: int): Request<string> {
    Request(id, issuedAt, expiresAt)
  }

  function ChatRequest(id: string, timestamp: int): Request<string> {
    Request(id, timestamp - 300, timestamp + 300)
  }

  /** No message, whatever its validity window, is ever accepted twice. */
  lemma MessagesNeverRepeat(limit: nat, visits: seq<Visit<string>>)
    requires Ordered(visits) && limit > 0
    ensures NoneTwice(Run(WindowPolicy(limit), visits).log)
  {
    forall i | 0 <= i < |visits| ensures Covers(WindowPolicy(limit), visits[i]) {
    }
    NoRequestTwice(WindowPolicy(limit), visits);
  }

  /**
    Over every run of the window, a chat message is accepted if and only if it is authentic, its time is within 300
    seconds of the clock, no message accepted before and not yet over has its id, and these do not fill the window.
   */
  lemma MessageAcceptedIff(limit: nat, visits: seq<Visit<string>>, id: string, timestamp: int, authentic: bool,
                           now: int)
    requires limit > 0 && Ordered(visits + [Visit(ChatRequest(id, timestamp), now, authentic)])
    ensures var log, v := Run(WindowPolicy(limit), visits).log, Visit(ChatRequest(id, timestamp), now, authentic);
            Run(WindowPolicy(limit), visits + [v]).log == log + [v] <==>
              && authentic && -300 <= timestamp - now <= 300
              && (forall i :: 0 <= i < |log| && log[i].request.until >= now ==> log[i].request.key != id)
              && |set i | 0 <= i < |log| && log[i].request.until >= now :: log[i].request.key| < limit
  {
    var p := WindowPolicy(limit);
    var log, v := Run(p, visits).log, Visit(ChatRequest(id, timestamp), now, authentic);
    StoreFollowsLog(p, visits, v);
    assert LiveKeys(p, log, now) == set i | 0 <= i < |log| && log[i].request.until >= now :: log[i].request.key;
    forall i | 0 <= i < |log| && log[i].request.until >= now && log[i].request.key == id
      ensures id in LiveKeys(p, log, now)
    {
    }
  }
}
