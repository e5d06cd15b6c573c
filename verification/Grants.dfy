/** Capability grants: the intersection of the build, the trust policy and a signed request. */
module Grants {
  import opened Bytes
  import opened Text
  import opened PortableJson
  import opened SignedRequest

  const LEVELS: map<string, int> := map[
    "observe.version" := 1, "observe.health" := 1,
    "policy.request" := 2, "policy.config" := 2,
    "transport.metadata" := 3, "transport.application" := 3,
    "identity.assert" := 4, "identity.resolve" := 4,
    "core.lifecycle" := 5, "core.hook" := 5]

  const APPLICATION: string := "transport.application"

  /** The build: its level, zero if grants are not compiled in, and two optional features. */
  datatype Build = Build(level: int, appTransport: bool, qubes: bool)

  datatype Policy = Policy(maxLevel: int, capabilities: seq<string>, allowedDomains: seq<string>)
  type Trust = map<string, Policy>

  /** What the handler learns from outside: readable files, a parsable key and signature, the store's answer. */
  datatype Outside = Outside(filesOk: bool, keyOk: bool, verifies: string -> bool, reserved: bool)

  datatype Response = Response(granted: bool, level: int, capabilities: seq<string>)
  datatype Result = Answer(response: Response) | Error

  const DENIED := Answer(Response(false, 0, []))

  // ----- The compiled set -----

  predicate Compiled(build: Build, capability: string) {
    InBuild(LEVELS, build, capability)
  }

  /** What each build has: one pair of names for each level, application transport only if it is asked for as well. */
  lemma CompiledByLevel(build: Build, c: string)
    ensures Compiled(build, c) <==>
              || (build.level >= 1 && c in ["observe.version", "observe.health"])
              || (build.level >= 2 && c in ["policy.request", "policy.config"])
              || (build.level >= 3 && c == "transport.metadata")
              || (build.level >= 3 && c == "transport.application" && build.appTransport)
              || (build.level >= 4 && c in ["identity.assert", "identity.resolve"])
              || (build.level >= 5 && c in ["core.lifecycle", "core.hook"])
  {
  }

  /** The feature report: whatever order the table is walked in, the listing is sorted and complete. */
  method CompiledCapabilities(build: Build) returns (capabilities: seq<string>)
    ensures Sorted(capabilities) && multiset(capabilities) == multiset(set c | c in LEVELS && InBuild(LEVELS, build, c))
  {
    var listed := Collect(LEVELS, build);
    capabilities := SortedCopy(listed);
  }

  predicate InBuild(levels: map<string, int>, build: Build, c: string) {
    c in levels && levels[c] <= build.level && (c != APPLICATION || build.appTransport)
  }

  /** Walks the table in any order. */
  method Collect(levels: map<string, int>, build: Build) returns (listed: seq<string>)
    ensures multiset(listed) == multiset(set c | c in levels && InBuild(levels, build, c))
  {
    var left := levels.Keys;
    listed := [];
    ghost var wanted := set c | c in levels && InBuild(levels, build, c);
    while left != {}
      invariant left <= levels.Keys
      invariant multiset(listed) == multiset(wanted - left)
      decreases left
    {
      var c :| c in left;
      ghost var before := left;
      left := left - {c};
      if levels[c] <= build.level && (c != APPLICATION || build.appTransport) {
        listed := listed + [c];
        assert wanted - left == (wanted - before) + {c} && c !in wanted - before;
      } else {
        assert wanted - left == wanted - before;
      }
    }
    assert wanted - left == wanted;
  }

  method SortedCopy(s: seq<string>) returns (sorted: seq<string>)
    ensures sorted == InOrder(s)
  {
    var a := new string[|s|](i requires 0 <= i < |s| => s[i]);
    assert a[..] == s;
    SortStrings(a);
    sorted := a[..];
    SortedUnique(sorted, InOrder(s));
  }

  // ----- When a request is granted -----

  /** Sixteen bytes in hexadecimal of either case. */
  predicate ValidNonce(s: string) {
    |s| == 32 && forall i :: 0 <= i < |s| ==>
      IsDigit(s[i]) || 'a' as int <= s[i] as int <= 'f' as int || 'A' as int <= s[i] as int <= 'F' as int
  }

  predicate ValidDomain(s: string) {
    1 <= |s| <= 32 && forall i :: 0 <= i < |s| ==>
      'a' as int <= s[i] as int <= 'z' as int || (i > 0 && (IsDigit(s[i]) || s[i] == '-'))
  }

  predicate WellFormed(r: Request, now: int) {
    && r.version == 1 && ValidIdentity(r.modId) && ValidNonce(r.nonce)
    && 1 <= r.level <= 5 && now - 300 <= r.issuedAt <= now + 300
  }

  predicate Distinct(s: seq<string>) {
    forall i, j :: 0 <= i < j < |s| ==> s[i] != s[j]
  }

  /** A capability this request may have under this policy in this build. */
  predicate Permitted(build: Build, policy: Policy, r: Request, c: string) {
    c in LEVELS && c in policy.capabilities && LEVELS[c] <= r.level && (c != APPLICATION || build.appTransport)
  }

  predicate DomainsAllowed(build: Build, policy: Policy, r: Request) {
    build.qubes && !(r.source == "" && r.target == "") ==>
      ValidDomain(r.source) && ValidDomain(r.target) && (r.source == r.target || r.target in policy.allowedDomains)
  }

  /** The checks on the request itself, its signer and its level. */
  ghost predicate Admissible(build: Build, r: Request, trust: Trust, now: int, digest: Digest, nfc: Normal,
                             o: Outside) {
    && build.level > 0 && o.filesOk && WellFormed(r, now) && r.modId in trust
    && r.level <= trust[r.modId].maxLevel <= 5 && r.level <= build.level
    && o.keyOk && Portable(r.payload, 0, nfc) && o.verifies(SignedText(r, digest))
  }

  /** Every capability is permitted, none is repeated, and the highest is of the requested level. */
  ghost predicate Covered(build: Build, policy: Policy, r: Request) {
    && Distinct(r.capabilities)
    && (forall i :: 0 <= i < |r.capabilities| ==> Permitted(build, policy, r, r.capabilities[i]))
    && (exists i :: 0 <= i < |r.capabilities| && LEVELS[r.capabilities[i]] == r.level)
  }

  /** Exactly the requests that are granted. */
  ghost predicate Grantable(build: Build, r: Request, trust: Trust, now: int, digest: Digest, nfc: Normal, o: Outside) {
    && Admissible(build, r, trust, now, digest, nfc, o)
    && Covered(build, trust[r.modId], r) && DomainsAllowed(build, trust[r.modId], r)
    && o.reserved
  }

  // ----- The handler -----

  /** The loop over the requested capabilities: a repeated one is an error, an unavailable one a denial. */
  method CheckCapabilities(build: Build, policy: Policy, r: Request)
    returns (duplicate: bool, available: bool, granted: seq<string>)
    ensures !duplicate && available <==>
              && Distinct(r.capabilities)
              && forall i :: 0 <= i < |r.capabilities| ==> Permitted(build, policy, r, r.capabilities[i])
    ensures !duplicate && available ==> granted == r.capabilities
  {
    var seen: set<string> := {};
    granted := [];
    for i := 0 to |r.capabilities|
      invariant granted == r.capabilities[..i] && Distinct(granted)
      invariant seen == set c | c in granted
      invariant forall j :: 0 <= j < i ==> Permitted(build, policy, r, r.capabilities[j])
    {
      var c := r.capabilities[i];
      if c in seen { return true, true, granted; }
      seen := seen + {c};
      if c !in LEVELS || c !in policy.capabilities || LEVELS[c] > r.level || (c == APPLICATION && !build.appTransport) {
        return false, false, granted;
      }
      granted := granted + [c];
    }
    return false, true, granted;
  }

  /** The highest level among the granted capabilities. */
  method HighestLevel(granted: seq<string>) returns (level: int)
    requires forall i :: 0 <= i < |granted| ==> granted[i] in LEVELS
    ensures forall i :: 0 <= i < |granted| ==> LEVELS[granted[i]] <= level
    ensures if granted == [] then level == 0 else exists i :: 0 <= i < |granted| && LEVELS[granted[i]] == level
  {
    level := 0;
    for i := 0 to |granted|
      invariant forall j :: 0 <= j < i ==> LEVELS[granted[j]] <= level
      invariant if i == 0 then level == 0 else exists j :: 0 <= j < i && LEVELS[granted[j]] == level
    {
      LevelsPositive(granted[i]);
      if LEVELS[granted[i]] > level {
        level := LEVELS[granted[i]];
      }
    }
  }

  lemma LevelsPositive(c: string)
    requires c in LEVELS
    ensures 1 <= LEVELS[c] <= 5
  {
  }

  /** The signed text, unless the payload is not portable. */
  method SignedPayload(r: Request, digest: Digest, nfc: Normal) returns (text: Option<string>)
    ensures text == if Portable(r.payload, 0, nfc) then Some(SignedText(r, digest)) else None
  {
    var canonical, ok := WritePortableJson("", r.payload, 0, nfc);
    if !ok { return None; }
    assert "" + Print(r.payload) == Print(r.payload);
    var capabilities := SortedCopy(r.capabilities);
    return Some(Join([FormatInt(r.version), r.modId, r.nonce, FormatInt(r.issuedAt), FormatInt(r.level),
                      Join(capabilities, ","), digest(canonical)] + [r.source, r.target], "\n"));
  }

  /** The checks before the capabilities; `early` is the answer if one of them fails. */
  method Admit(build: Build, r: Request, trust: Trust, now: int, digest: Digest, nfc: Normal, o: Outside)
    returns (early: Option<Result>)
    ensures early == None <==> Admissible(build, r, trust, now, digest, nfc, o)
    ensures early.Some? ==> early.value == Error || early.value == DENIED
  {
    if build.level <= 0 { return Some(DENIED); }
    if !o.filesOk { return Some(Error); }
    if r.version != 1 || !ValidIdentity(r.modId) || !ValidNonce(r.nonce) { return Some(Error); }
    if r.level < 1 || r.level > 5 || r.issuedAt < now - 300 || r.issuedAt > now + 300 { return Some(Error); }
    if r.modId !in trust { return Some(Error); }
    var policy := trust[r.modId];
    if policy.maxLevel < 1 || policy.maxLevel > 5 || r.level > policy.maxLevel { return Some(DENIED); }
    if !o.keyOk { return Some(Error); }
    var text := SignedPayload(r, digest, nfc);
    if text == None || !o.verifies(text.value) { return Some(Error); }
    if r.level > build.level { return Some(DENIED); }
    return None;
  }

  method CheckDomains(build: Build, policy: Policy, r: Request) returns (early: Option<Result>)
    ensures early == None <==> DomainsAllowed(build, policy, r)
    ensures early.Some? ==> early.value == Error || early.value == DENIED
  {
    if !build.qubes { return None; }
    var source, target := r.source, r.target;
    if source == "" && target == "" {
      source, target := "default", "default";
    }
    if !ValidDomain(source) || !ValidDomain(target) { return Some(Error); }
    if source != target {
      var allowed := false;
      for i := 0 to |policy.allowedDomains|
        invariant allowed <==> target in policy.allowedDomains[..i]
      {
        if policy.allowedDomains[i] == target { allowed := true; }
      }
      assert policy.allowedDomains[..|policy.allowedDomains|] == policy.allowedDomains;
      if !allowed { return Some(DENIED); }
    }
    return None;
  }

  /** With every capability permitted, the request is covered exactly if the highest reaches its level. */
  lemma CoveredIff(build: Build, policy: Policy, r: Request, level: int)
    requires 1 <= r.level && Distinct(r.capabilities)
    requires forall i :: 0 <= i < |r.capabilities| ==>
               Permitted(build, policy, r, r.capabilities[i]) && LEVELS[r.capabilities[i]] <= level
    requires if r.capabilities == [] then level == 0
             else
               exists i :: 0 <= i < |r.capabilities| && r.capabilities[i] in LEVELS &&
                           LEVELS[r.capabilities[i]] == level
    ensures Covered(build, policy, r) <==> r.capabilities != [] && level >= r.level
  {
  }

  /**
    Grants exactly the grantable requests, with their own capabilities in sorted order and their own
    level; a denial that is not an error carries no capability and no level.
   */
  method HandleRequest(build: Build, r: Request, trust: Trust, now: int, digest: Digest, nfc: Normal, o: Outside)
    returns (result: Result)
    ensures result.Answer? && result.response.granted <==> Grantable(build, r, trust, now, digest, nfc, o)
    ensures result.Answer? && result.response.granted ==>
              result.response == Response(true, r.level, InOrder(r.capabilities))
    ensures result.Answer? && !result.response.granted ==> result == DENIED
  {
    var early := Admit(build, r, trust, now, digest, nfc, o);
    if early.Some? { return early.value; }
    var policy := trust[r.modId];
    var duplicate, available, granted := CheckCapabilities(build, policy, r);
    if duplicate { return Error; }
    if !available { return DENIED; }
    early := CheckDomains(build, policy, r);
    if early.Some? { return early.value; }
    var level := HighestLevel(granted);
    CoveredIff(build, policy, r, level);
    if granted == [] || level < r.level { return DENIED; }
    if !o.reserved { return Error; }
    var sorted := SortedCopy(granted);
    return Answer(Response(true, r.level, sorted));
  }

  // ----- What a grant means -----

  /**
    A granted request asks only for capabilities that the policy lists, the build compiles and its level
    covers; its level is that of its highest capability and is within both the policy and the build.
   */
  lemma GrantIsIntersection(build: Build, r: Request, trust: Trust, now: int, digest: Digest, nfc: Normal, o: Outside,
                            c: string)
    requires Grantable(build, r, trust, now, digest, nfc, o) && c in r.capabilities
    ensures Compiled(build, c) && c in trust[r.modId].capabilities && LEVELS[c] <= r.level
    ensures exists d :: d in r.capabilities && LEVELS[d] == r.level
    ensures r.level <= trust[r.modId].maxLevel && r.level <= build.level
  {
    var i :| 0 <= i < |r.capabilities| && r.capabilities[i] == c;
    assert Permitted(build, trust[r.modId], r, r.capabilities[i]);
    var j :| 0 <= j < |r.capabilities| && LEVELS[r.capabilities[j]] == r.level;
    assert r.capabilities[j] in r.capabilities;
  }

  /** The capabilities a mod can be granted at some level: compiled, listed by its policy, and not above that level. */
  function Available(build: Build, policy: Policy, level: int): set<string> {
    set c | c in LEVELS && Compiled(build, c) && c in policy.capabilities && LEVELS[c] <= level
  }

  /** The levels of the capabilities asked for. */
  function LevelsAsked(r: Request): set<int> {
    set c | c in r.capabilities && c in LEVELS :: LEVELS[c]
  }

  /**
    In a build without domains, exactly these requests are granted: fresh within 300 seconds, of a trusted mod, signed
    over their own text, for available capabilities only, none twice, at the level of the highest of them.
   */
  lemma GrantedIffAvailable(build: Build, r: Request, trust: Trust, now: int, digest: Digest, nfc: Normal, o: Outside)
    requires !build.qubes && o.filesOk && o.keyOk && o.reserved
    ensures Grantable(build, r, trust, now, digest, nfc, o) <==>
              && r.version == 1 && ValidIdentity(r.modId) && ValidNonce(r.nonce) && -300 <= r.issuedAt - now <= 300
              && r.modId in trust && trust[r.modId].maxLevel <= 5
              && 1 <= r.level <= trust[r.modId].maxLevel && r.level <= build.level
              && Portable(r.payload, 0, nfc) && o.verifies(SignedText(r, digest))
              && |r.capabilities| == |set c | c in r.capabilities|
              && (set c | c in r.capabilities) <= Available(build, trust[r.modId], r.level)
              && r.level in LevelsAsked(r)
  {
    if r.modId in trust && r.level <= build.level {
      CoveredIffAvailable(build, trust[r.modId], r);
    }
  }

  lemma CoveredIffAvailable(build: Build, policy: Policy, r: Request)
    requires r.level <= build.level
    ensures Covered(build, policy, r) <==>
              && |r.capabilities| == |set c | c in r.capabilities|
              && (set c | c in r.capabilities) <= Available(build, policy, r.level)
              && r.level in LevelsAsked(r)
  {
    DistinctIffCount(r.capabilities);
    var all := set c | c in r.capabilities;
    assert all <= Available(build, policy, r.level) <==>
        forall i :: 0 <= i < |r.capabilities| ==> Permitted(build, policy, r, r.capabilities[i]) by {
      assert forall i :: 0 <= i < |r.capabilities| ==> r.capabilities[i] in all;
    }
  }

  /** A list has no repetition exactly if it is as long as the set of its members. */
  lemma {:induction false} DistinctIffCount(s: seq<string>)
    ensures Distinct(s) <==> |s| == |set c | c in s|
    ensures |set c | c in s| <= |s|
    decreases |s|
  {
    if s != [] {
      var init, last := s[..|s| - 1], s[|s| - 1];
      DistinctIffCount(init);
      assert (set c | c in s) == (set c | c in init) + {last};
      assert s == init + [last];
      assert Distinct(s) <==> Distinct(init) && last !in init;
    }
  }

  /**
    What domains add: a request that would be granted without them is granted exactly if it names none, or two proper
    names of which the second is the first again or is listed by the policy of the mod.
   */
  lemma DomainsDecide(build: Build, r: Request, trust: Trust, now: int, digest: Digest, nfc: Normal, o: Outside)
    requires build.qubes && Grantable(build.(qubes := false), r, trust, now, digest, nfc, o)
    ensures Grantable(build, r, trust, now, digest, nfc, o) <==>
              || (r.source == "" && r.target == "")
              || (ValidDomain(r.source) && ValidDomain(r.target) && r.source == r.target)
              || (ValidDomain(r.source) && ValidDomain(r.target) && r.target in trust[r.modId].allowedDomains)
  {
    forall i | 0 <= i < |r.capabilities|
      ensures Permitted(build, trust[r.modId], r, r.capabilities[i])
    {
      assert Permitted(build.(qubes := false), trust[r.modId], r, r.capabilities[i]);
    }
  }

  /** Two granted requests with the same signed text are the same request but for capability order and domains. */
  lemma SameTextSameGrant(build: Build, a: Request, b: Request, trust: Trust, now: int, then': int, digest: Digest,
                          nfc: Normal, o: Outside, p: Outside)
    requires Ideal(digest)
    requires Grantable(build, a, trust, now, digest, nfc, o) && Grantable(build, b, trust, then', digest, nfc, p)
    requires SignedText(a, digest) == SignedText(b, digest)
    ensures a.modId == b.modId && a.nonce == b.nonce && a.issuedAt == b.issuedAt && a.level == b.level
    ensures multiset(a.capabilities) == multiset(b.capabilities) && Same(a.payload, b.payload)
    ensures build.qubes ==> a.source == b.source && a.target == b.target
  {
    GrantableSeparable(build, a, trust, now, digest, nfc, o);
    GrantableSeparable(build, b, trust, then', digest, nfc, p);
    TextDetermines(a, b, digest, nfc);
    if build.qubes { DomainsDetermined(a, b); }
  }

  lemma GrantableSeparable(build: Build, r: Request, trust: Trust, now: int, digest: Digest, nfc: Normal, o: Outside)
    requires Grantable(build, r, trust, now, digest, nfc, o)
    ensures Separable(r) && (build.qubes ==> Without(r.source, '\n'))
  {
    forall i | 0 <= i < |r.capabilities| ensures Without(r.capabilities[i], ',') && Without(r.capabilities[i], '\n') {
      assert Permitted(build, trust[r.modId], r, r.capabilities[i]);
      NamesAreWords(r.capabilities[i]);
    }
  }

  lemma NamesAreWords(c: string)
    requires c in LEVELS
    ensures Without(c, ',') && Without(c, '\n')
  {
    if LEVELS[c] <= 2 { LowNamesAreWords(c); } else { HighNamesAreWords(c); }
  }

  lemma LowNamesAreWords(c: string)
    requires c in ["observe.version", "observe.health", "policy.request", "policy.config"]
    ensures Without(c, ',') && Without(c, '\n')
  {
  }

  lemma HighNamesAreWords(c: string)
    requires c in ["transport.metadata", "transport.application", "identity.assert", "identity.resolve",
            "core.lifecycle", "core.hook"]
    ensures Without(c, ',') && Without(c, '\n')
  {
  }

  /** Whether a request is granted does not depend on the order of its capabilities. */
  lemma GrantIgnoresOrder(build: Build, a: Request, b: Request, trust: Trust, now: int, digest: Digest, nfc: Normal,
                          o: Outside)
    requires multiset(a.capabilities) == multiset(b.capabilities) && b == a.(capabilities := b.capabilities)
    requires Grantable(build, a, trust, now, digest, nfc, o)
    ensures Grantable(build, b, trust, now, digest, nfc, o)
  {
    OrderDoesNotMatter(a, b, digest);
    DistinctIsMultiset(a.capabilities, b.capabilities);
    forall i | 0 <= i < |b.capabilities| ensures Permitted(build, trust[b.modId], b, b.capabilities[i]) {
      assert b.capabilities[i] in multiset(b.capabilities) && b.capabilities[i] in a.capabilities;
      var j :| 0 <= j < |a.capabilities| && a.capabilities[j] == b.capabilities[i];
      assert Permitted(build, trust[a.modId], a, a.capabilities[j]);
    }
    var j :| 0 <= j < |a.capabilities| && LEVELS[a.capabilities[j]] == a.level;
    assert a.capabilities[j] in multiset(a.capabilities) && a.capabilities[j] in b.capabilities;
  }

  lemma DistinctIsMultiset(s: seq<string>, t: seq<string>)
    requires multiset(s) == multiset(t) && Distinct(s)
    ensures Distinct(t)
  {
    forall i, j | 0 <= i < j < |t| ensures t[i] != t[j] {
      if t[i] == t[j] {
        assert t == t[..i] + [t[i]] + t[i + 1..j] + [t[j]] + t[j + 1..];
        assert multiset(t)[t[i]] >= 2;
        DistinctCount(s, t[i]);
      }
    }
  }

  lemma {:induction false} DistinctCount(s: seq<string>, x: string)
    requires Distinct(s)
    ensures multiset(s)[x] <= 1
    decreases |s|
  {
    if s != [] {
      var init, last := s[..|s| - 1], s[|s| - 1];
      assert s == init + [last];
      DistinctCount(init, x);
      assert last !in init;
    }
  }
}
