/** The text a capability request is signed over, and what it determines. */
module SignedRequest {
  import opened Bytes
  import opened Text
  import opened PortableJson

  datatype Request = Request(
    version: int, modId: string, nonce: string, issuedAt: int, level: int,
    capabilities: seq<string>, source: string, target: string, payload: Json)

  /** A collision-free digest whose text has no line break, as the hexadecimal SHA-256 is taken to be. */
  type Digest = string -> string

  ghost predicate Ideal(digest: Digest) {
    && (forall a, b :: digest(a) == digest(b) ==> a == b)
    && (forall a, i :: 0 <= i < |digest(a)| ==> digest(a)[i] != '\n')
  }

  /** The lines of the text up to the digest. */
  ghost function Lines(r: Request, digest: Digest): seq<string> {
    [FormatInt(r.version), r.modId, r.nonce, FormatInt(r.issuedAt), FormatInt(r.level),
     Join(InOrder(r.capabilities), ","), digest(Print(r.payload))]
  }

  ghost function SignedText(r: Request, digest: Digest): string {
    Join(Lines(r, digest) + [r.source, r.target], "\n")
  }

  lemma JoinFirst(first: string, rest: seq<string>, separator: string)
    requires rest != []
    ensures Join([first] + rest, separator) == first + separator + Join(rest, separator)
  {
    assert ([first] + rest)[1..] == rest;
  }

  /** The first five lines of the text: version, mod, nonce, time and level, then what `TextTail` gives. */
  lemma TextLayout(r: Request, digest: Digest)
    ensures SignedText(r, digest)
         == FormatInt(r.version) + "\n" + (r.modId + "\n" + (r.nonce + "\n" + (FormatInt(r.issuedAt) + "\n" +
            (FormatInt(r.level) + "\n" + TextTail(r, digest)))))
  {
    var rest := [Join(InOrder(r.capabilities), ","), digest(Print(r.payload)), r.source, r.target];
    RestIsJoined(r, digest);
    JoinFive(FormatInt(r.version), r.modId, r.nonce, FormatInt(r.issuedAt), FormatInt(r.level), rest);
    assert Lines(r, digest) + [r.source, r.target]
        == [FormatInt(r.version), r.modId, r.nonce, FormatInt(r.issuedAt), FormatInt(r.level)] + rest;
  }

  lemma JoinFive(a: string, b: string, c: string, d: string, e: string, rest: seq<string>)
    requires rest != []
    ensures Join([a, b, c, d, e] + rest, "\n")
         == a + "\n" + (b + "\n" + (c + "\n" + (d + "\n" + (e + "\n" + Join(rest, "\n")))))
  {
    JoinThree(c, d, e, rest);
    var tail := [c, d, e] + rest;
    JoinFirst(b, tail, "\n");
    JoinFirst(a, [b] + tail, "\n");
    assert [a, b, c, d, e] + rest == [a] + ([b] + tail);
  }

  lemma JoinThree(c: string, d: string, e: string, rest: seq<string>)
    requires rest != []
    ensures Join([c, d, e] + rest, "\n") == c + "\n" + (d + "\n" + (e + "\n" + Join(rest, "\n")))
  {
    JoinFirst(e, rest, "\n");
    var tail := [e] + rest;
    JoinFirst(d, tail, "\n");
    JoinFirst(c, [d] + tail, "\n");
    assert [c, d, e] + rest == [c] + ([d] + tail);
  }

  /** The last four: the sorted capabilities between commas, the digest of the payload, and the two domains. */
  ghost function TextTail(r: Request, digest: Digest): string {
    Join(InOrder(r.capabilities), ",") + "\n" + (digest(Print(r.payload)) + "\n" + (r.source + "\n" + r.target))
  }

  lemma RestIsJoined(r: Request, digest: Digest)
    ensures Join([Join(InOrder(r.capabilities), ","), digest(Print(r.payload)), r.source, r.target], "\n")
         == TextTail(r, digest)
  {
    var capabilities, payload := Join(InOrder(r.capabilities), ","), digest(Print(r.payload));
    JoinFirst(r.source, [r.target], "\n");
    JoinFirst(payload, [r.source, r.target], "\n");
    assert [r.source] + [r.target] == [r.source, r.target];
    assert [payload] + [r.source, r.target] == [payload, r.source, r.target];
    JoinFirst(capabilities, [payload, r.source, r.target], "\n");
    assert [capabilities] + [payload, r.source, r.target] == [capabilities, payload, r.source, r.target];
  }

  predicate Without(s: string, c: char) {
    forall i :: 0 <= i < |s| ==> s[i] != c
  }

  /** A separator that occurs in neither first part splits both texts at the same place. */
  lemma SplitAt(a: string, s: string, b: string, t: string, c: char)
    requires Without(a, c) && Without(b, c) && a + [c] + s == b + [c] + t
    ensures a == b && s == t
  {
    NotShorterThan(a, s, b, t, c);
    NotShorterThan(b, t, a, s, c);
    assert (a + [c] + s)[..|a|] == a && (b + [c] + t)[..|b|] == b;
    assert (a + [c] + s)[|a| + 1..] == s && (b + [c] + t)[|b| + 1..] == t;
  }

  lemma NotShorterThan(a: string, s: string, b: string, t: string, c: char)
    requires Without(b, c) && a + [c] + s == b + [c] + t
    ensures |b| <= |a|
  {
    var whole := a + [c] + s;
    assert whole[|a|] == c;
    assert forall i :: 0 <= i < |b| ==> whole[i] == b[i];
  }

  /** Lists of lines are determined by their joined text as far as no line of either has a break. */
  lemma {:induction false} LinesDetermined(x: seq<string>, y: seq<string>, s: string, t: string)
    requires |x| == |y| && (forall i :: 0 <= i < |x| ==> Without(x[i], '\n') && Without(y[i], '\n'))
    requires Join(x + [s], "\n") == Join(y + [t], "\n")
    ensures x == y && s == t
    decreases |x|
  {
    if x == [] {
      assert x + [s] == [s] && y + [t] == [t];
    } else {
      assert (x + [s])[1..] == x[1..] + [s] && (y + [t])[1..] == y[1..] + [t];
      SplitAt(x[0], Join(x[1..] + [s], "\n"), y[0], Join(y[1..] + [t], "\n"), '\n');
      LinesDetermined(x[1..], y[1..], s, t);
      assert x == [x[0]] + x[1..] && y == [y[0]] + y[1..];
    }
  }

  /** Non-empty lists of words without commas are determined by their joined text. */
  lemma {:induction false} WordsDetermined(x: seq<string>, y: seq<string>)
    requires x != [] && y != [] && Join(x, ",") == Join(y, ",")
    requires forall i :: 0 <= i < |x| ==> Without(x[i], ',')
    requires forall i :: 0 <= i < |y| ==> Without(y[i], ',')
    ensures x == y
    decreases |x|
  {
    if |x| == 1 || |y| == 1 {
      if |x| > 1 { HasComma(x); }
      if |y| > 1 { HasComma(y); }
      assert x == [x[0]] && y == [y[0]];
    } else {
      SplitAt(x[0], Join(x[1..], ","), y[0], Join(y[1..], ","), ',');
      WordsDetermined(x[1..], y[1..]);
      assert x == [x[0]] + x[1..] && y == [y[0]] + y[1..];
    }
  }

  lemma HasComma(y: seq<string>)
    requires |y| > 1
    ensures !Without(Join(y, ","), ',')
  {
    assert (y[0] + "," + Join(y[1..], ","))[|y[0]|] == ',';
  }

  /** Fields that can be told apart in the text: no line breaks, and capabilities without commas. */
  predicate Separable(r: Request) {
    && Without(r.modId, '\n') && Without(r.nonce, '\n')
    && r.capabilities != []
    && forall i :: 0 <= i < |r.capabilities| ==> Without(r.capabilities[i], ',') && Without(r.capabilities[i], '\n')
  }

  lemma {:induction false} JoinWithout(parts: seq<string>, c: char)
    requires c != ',' && forall i :: 0 <= i < |parts| ==> Without(parts[i], c)
    ensures Without(Join(parts, ","), c)
    decreases |parts|
  {
    if |parts| > 1 { JoinWithout(parts[1..], c); }
  }

  lemma LinesHaveNoBreaks(r: Request, digest: Digest)
    requires Separable(r) && Ideal(digest)
    ensures forall i :: 0 <= i < 7 ==> Without(Lines(r, digest)[i], '\n')
  {
    var sorted := InOrder(r.capabilities);
    forall i | 0 <= i < |sorted| ensures Without(sorted[i], '\n') {
      assert sorted[i] in multiset(sorted) && sorted[i] in r.capabilities;
    }
    JoinWithout(sorted, '\n');
    NumbersHaveNoBreaks(r.version);
    NumbersHaveNoBreaks(r.issuedAt);
    NumbersHaveNoBreaks(r.level);
  }

  lemma NumbersHaveNoBreaks(n: int)
    ensures Without(FormatInt(n), '\n')
  {
    forall i | 0 <= i < |FormatInt(n)| ensures FormatInt(n)[i] != '\n' {
      FormatIntPlain(n, i);
    }
  }

  /**
    Equal signed texts agree on version, mod, nonce, time, level, capabilities as a collection, the
    payload up to the sign of zero, and the two domains as far as their joined text goes.
   */
  lemma TextDetermines(a: Request, b: Request, digest: Digest, nfc: Normal)
    requires Ideal(digest) && Separable(a) && Separable(b)
    requires Portable(a.payload, 0, nfc) && Portable(b.payload, 0, nfc)
    requires SignedText(a, digest) == SignedText(b, digest)
    ensures a.version == b.version && a.modId == b.modId && a.nonce == b.nonce
    ensures a.issuedAt == b.issuedAt && a.level == b.level
    ensures multiset(a.capabilities) == multiset(b.capabilities)
    ensures Same(a.payload, b.payload)
    ensures a.source + "\n" + a.target == b.source + "\n" + b.target
  {
    LinesHaveNoBreaks(a, digest);
    LinesHaveNoBreaks(b, digest);
    DomainsLast(a, digest);
    DomainsLast(b, digest);
    var x, y := Lines(a, digest), Lines(b, digest);
    LinesDetermined(x, y, a.source + "\n" + a.target, b.source + "\n" + b.target);
    assert x[0] == y[0] && x[1] == y[1] && x[2] == y[2] && x[3] == y[3] && x[4] == y[4] && x[5] == y[5] && x[6] == y[6];
    FormatIntInjective(a.version, b.version);
    FormatIntInjective(a.issuedAt, b.issuedAt);
    FormatIntInjective(a.level, b.level);
    CapabilitiesDetermined(a, b);
    SameTextIffSameValue(a.payload, b.payload, nfc);
  }

  lemma FormatIntInjective(m: int, n: int)
    requires FormatInt(m) == FormatInt(n)
    ensures m == n
  {
    FormatIntPrefixFree(m, n, "", "");
  }

  lemma CapabilitiesDetermined(a: Request, b: Request)
    requires Separable(a) && Separable(b) && Join(InOrder(a.capabilities), ",") == Join(InOrder(b.capabilities), ",")
    ensures multiset(a.capabilities) == multiset(b.capabilities)
  {
    var x, y := InOrder(a.capabilities), InOrder(b.capabilities);
    SortedWords(a, x);
    SortedWords(b, y);
    WordsDetermined(x, y);
  }

  lemma SortedWords(r: Request, sorted: seq<string>)
    requires Separable(r) && multiset(sorted) == multiset(r.capabilities)
    ensures sorted != [] && forall i :: 0 <= i < |sorted| ==> Without(sorted[i], ',')
  {
    assert r.capabilities[0] in multiset(sorted);
    forall i | 0 <= i < |sorted| ensures Without(sorted[i], ',') {
      assert sorted[i] in multiset(sorted) && sorted[i] in r.capabilities;
    }
  }

  /** The two domains are the last line of the text, break included. */
  lemma DomainsLast(r: Request, digest: Digest)
    ensures SignedText(r, digest) == Join(Lines(r, digest) + [r.source + "\n" + r.target], "\n")
  {
    JoinTail(Lines(r, digest), r.source, r.target);
  }

  lemma {:induction false} JoinTail(x: seq<string>, s: string, t: string)
    ensures Join(x + [s, t], "\n") == Join(x + [s + "\n" + t], "\n")
    decreases |x|
  {
    if x == [] {
      assert x + [s, t] == [s, t] && x + [s + "\n" + t] == [s + "\n" + t] && [s, t][1..] == [t];
    } else {
      JoinTail(x[1..], s, t);
      assert (x + [s, t])[1..] == x[1..] + [s, t] && (x + [s + "\n" + t])[1..] == x[1..] + [s + "\n" + t];
    }
  }

  /** Domains without line breaks are determined one by one. */
  lemma DomainsDetermined(a: Request, b: Request)
    requires a.source + "\n" + a.target == b.source + "\n" + b.target
    requires Without(a.source, '\n') && Without(b.source, '\n')
    ensures a.source == b.source && a.target == b.target
  {
    SplitAt(a.source, a.target, b.source, b.target, '\n');
  }

  /** The last line is determined by the text and the lines before it. */
  lemma {:induction false} LastDetermined(x: seq<string>, s: string, t: string)
    ensures Join(x + [s], "\n") == Join(x + [t], "\n") <==> s == t
    decreases |x|
  {
    if x == [] {
      assert x + [s] == [s] && x + [t] == [t];
    } else {
      LastDetermined(x[1..], s, t);
      assert (x + [s])[1..] == x[1..] + [s] && (x + [t])[1..] == x[1..] + [t];
      var u, v := Join(x[1..] + [s], "\n"), Join(x[1..] + [t], "\n");
      var head := x[0] + "\n";
      assert (head + u)[|head|..] == u && (head + v)[|head|..] == v;
    }
  }

  /**
    The domains of a request are the only ones under its signed text if and only if neither has a line break;
    otherwise the break between them can trade places with one inside.
   */
  lemma DomainsDeterminedIffNoBreaks(a: Request, digest: Digest)
    ensures (forall s: string, t: string ::
               SignedText(a.(source := s, target := t), digest) == SignedText(a, digest) ==>
                 s == a.source && t == a.target)
        <==> Without(a.source, '\n') && Without(a.target, '\n')
  {
    if Without(a.source, '\n') && Without(a.target, '\n') {
      forall s: string, t: string | SignedText(a.(source := s, target := t), digest) == SignedText(a, digest)
        ensures s == a.source && t == a.target
      {
        SameJoined(a, a.(source := s, target := t), digest);
        OneBreak(a.source, a.target, s, t);
      }
    } else {
      var b := Shifted(a);
      SameJoined(a, b, digest);
      assert SignedText(a.(source := b.source, target := b.target), digest) == SignedText(a, digest);
    }
  }

  lemma SameJoined(a: Request, b: Request, digest: Digest)
    requires b == a.(source := b.source, target := b.target)
    ensures SignedText(a, digest) == SignedText(b, digest) <==> a.source + "\n" + a.target == b.source + "\n" + b.target
  {
    DomainsLast(a, digest);
    DomainsLast(b, digest);
    LastDetermined(Lines(a, digest), a.source + "\n" + a.target, b.source + "\n" + b.target);
  }

  lemma OneBreak(s: string, t: string, u: string, v: string)
    requires Without(s, '\n') && Without(t, '\n') && s + "\n" + t == u + "\n" + v
    ensures s == u && t == v
  {
    var whole := s + "\n" + t;
    assert forall i :: 0 <= i < |whole| && whole[i] == '\n' ==> i == |s|;
    assert (u + "\n" + v)[|u|] == '\n';
    assert whole[..|s|] == s && (u + "\n" + v)[..|u|] == u && whole[|s| + 1..] == t && (u + "\n" + v)[|u| + 1..] == v;
  }

  /** Another way to read the same text as two domains. */
  lemma Shifted(a: Request) returns (b: Request)
    requires !(Without(a.source, '\n') && Without(a.target, '\n'))
    ensures b == a.(source := b.source, target := b.target) && b != a
    ensures a.source + "\n" + a.target == b.source + "\n" + b.target
  {
    var s, t := a.source, a.target;
    if !Without(s, '\n') {
      var i :| 0 <= i < |s| && s[i] == '\n';
      b := a.(source := s[..i], target := s[i + 1..] + "\n" + t);
      assert s == s[..i] + "\n" + s[i + 1..];
    } else {
      var i :| 0 <= i < |t| && t[i] == '\n';
      b := a.(source := s + "\n" + t[..i], target := t[i + 1..]);
      assert t == t[..i] + "\n" + t[i + 1..];
    }
  }

  /** The order in which capabilities are listed does not matter. */
  lemma OrderDoesNotMatter(a: Request, b: Request, digest: Digest)
    requires multiset(a.capabilities) == multiset(b.capabilities) && b == a.(capabilities := b.capabilities)
    ensures SignedText(a, digest) == SignedText(b, digest)
  {
    SortedUnique(InOrder(a.capabilities), InOrder(b.capabilities));
  }
}
