/** The success hook of a client: variables are replaced in the command text, which is then split. */
module HookCommand {
  import opened Bytes
  import opened Text

  const PORT_VARIABLE: string := "$LOCAL_TCP_PORT"
  const ADDRESS_VARIABLE: string := "$TARGET_IP"

  // ----- Replacing -----

  predicate MatchAt(value: string, old': string, i: nat) {
    i + |old'| <= |value| && value[i..i + |old'|] == old'
  }

  /** One pass from left to right that never looks at replaced text again. */
  function OnePass(value: string, old': string, by': string): string
    requires old' != []
    decreases |value|
  {
    if value == [] then []
    else if MatchAt(value, old', 0) then by' + OnePass(value[|old'|..], old', by')
    else [value[0]] + OnePass(value[1..], old', by')
  }

  /** A variable: one dollar sign, in front. */
  predicate Variable(old': string) {
    old' != [] && old'[0] == '$' && forall i :: 0 < i < |old'| ==> old'[i] != '$'
  }

  /** The variable laid over the replacement, its first character at `j`, agrees with it on the whole overlap. */
  ghost predicate Aligns(old': string, by': string, j: int) {
    forall i :: 0 <= i < |by'| && 0 <= i - j < |old'| ==> by'[i] == old'[i - j]
  }

  /** Replacement text that can be no part of a variable, whatever is around it. */
  ghost predicate Inert(old': string, by': string) {
    forall j :: -|old'| < j < |by'| ==> !Aligns(old', by', j)
  }

  method IndexString(value: string, search: string) returns (index: int)
    ensures index < 0 ==> forall j :: 0 <= j <= |value| ==> !MatchAt(value, search, j)
    ensures index >= 0 ==> MatchAt(value, search, index) && forall j :: 0 <= j < index ==> !MatchAt(value, search, j)
  {
    if search == [] { return 0; }
    index := 0;
    while index + |search| <= |value|
      invariant 0 <= index && forall j :: 0 <= j < index ==> !MatchAt(value, search, j)
    {
      if value[index..index + |search|] == search { return; }
      index := index + 1;
    }
    index := -1;
  }

  /** The first match from `i` on, or a negative number. */
  function Find(value: string, old': string, i: nat): (r: int)
    ensures r >= 0 ==> i <= r && MatchAt(value, old', r)
    decreases |value| - i
  {
    if i + |old'| > |value| then -1
    else if MatchAt(value, old', i) then i
    else if i == |value| then -1
    else Find(value, old', i + 1)
  }

  lemma {:induction false} FindIsFirst(value: string, old': string, i: nat, j: nat)
    requires i <= j && (Find(value, old', i) < 0 || j < Find(value, old', i))
    ensures !MatchAt(value, old', j)
    decreases |value| - i
  {
    if i + |old'| <= |value| && i < j && i < |value| { FindIsFirst(value, old', i + 1, j); }
  }

  /** Replaces the first match, if there is one. */
  function Once(value: string, old': string, by': string): string {
    var i := Find(value, old', 0);
    if i < 0 then value else value[..i] + by' + value[i + |old'|..]
  }

  function Times(value: string, old': string, by': string, n: nat): string
    decreases n
  {
    if n == 0 then value else Times(Once(value, old', by'), old', by', n - 1)
  }

  /** Replacing comes to an end within `n` rounds. */
  predicate Ends(value: string, old': string, by': string, n: nat)
    decreases n
  {
    Find(value, old', 0) < 0 || (n > 0 && Ends(Once(value, old', by'), old', by', n - 1))
  }

  /** Rescans from the start after every replacement, until there is no match; `n` says that this happens. */
  method StringReplaceAll(value: string, old': string, by': string, ghost n: nat) returns (r: string)
    requires Ends(value, old', by', n)
    ensures r == Times(value, old', by', n) && forall j :: 0 <= j <= |r| ==> !MatchAt(r, old', j)
  {
    r := value;
    ghost var left, goal := n, Times(value, old', by', n);
    while true
      invariant Leads(r, old', by', left, goal)
      decreases left
    {
      var index := IndexString(r, old');
      FirstIsFound(r, old', index);
      if index < 0 {
        Rests(r, old', by', left);
        return;
      }
      OneRound(r, old', by', left, index, goal);
      r := r[..index] + by' + r[index + |old'|..];
      left := left - 1;
    }
  }

  ghost predicate Leads(value: string, old': string, by': string, n: nat, goal: string) {
    Ends(value, old', by', n) && Times(value, old', by', n) == goal
  }

  lemma OneRound(value: string, old': string, by': string, n: nat, index: nat, goal: string)
    requires Leads(value, old', by', n, goal) && Find(value, old', 0) == index
    ensures n > 0 && Leads(value[..index] + by' + value[index + |old'|..], old', by', n - 1, goal)
  {
  }

  lemma FirstIsFound(value: string, old': string, index: int)
    requires index < 0 ==> forall j :: 0 <= j <= |value| ==> !MatchAt(value, old', j)
    requires index >= 0 ==> MatchAt(value, old', index) && forall j :: 0 <= j < index ==> !MatchAt(value, old', j)
    ensures if index < 0 then Find(value, old', 0) < 0 else Find(value, old', 0) == index
  {
    var i := Find(value, old', 0);
    if index >= 0 && (i < 0 || index < i) { FindIsFirst(value, old', 0, index); }
  }

  lemma {:induction false} Rests(value: string, old': string, by': string, n: nat)
    requires Find(value, old', 0) < 0
    ensures Times(value, old', by', n) == value
  {
    if n > 0 { Rests(value, old', by', n - 1); }
  }

  /** Replacing ends, with what a single pass from left to right gives. */
  ghost predicate IsOnePass(value: string, old': string, by': string)
    requires old' != []
  {
    exists n :: Ends(value, old', by', n) && Times(value, old', by', n) == OnePass(value, old', by')
  }

  /** The distance from the first match to the end. */
  function Ahead(value: string, old': string): nat
    requires Find(value, old', 0) >= 0
  {
    |value| - Find(value, old', 0)
  }

  /** An inert replacement is a single pass: the first match moves on to the right. */
  lemma {:induction false} InertIsOnePass(value: string, old': string, by': string) returns (n: nat)
    requires old' != [] && Inert(old', by')
    ensures Ends(value, old', by', n) && Times(value, old', by', n) == OnePass(value, old', by')
    decreases if Find(value, old', 0) < 0 then 0 else 1 + Ahead(value, old')
  {
    if Find(value, old', 0) < 0 {
      n := 0;
      forall j | 0 <= j < |value| ensures !MatchAt(value, old', j) { FindIsFirst(value, old', 0, j); }
      SkipUnmatched(value, old', by', |value|);
      assert value[..|value|] == value;
    } else {
      var next := OnceIsInert(value, old', by');
      n := InertIsOnePass(next, old', by');
      n := n + 1;
    }
  }

  lemma OnceIsInert(value: string, old': string, by': string) returns (next: string)
    requires old' != [] && Inert(old', by') && Find(value, old', 0) >= 0
    ensures next == Once(value, old', by') && OnePass(next, old', by') == OnePass(value, old', by')
    ensures Find(next, old', 0) >= 0 ==> Ahead(next, old') < Ahead(value, old')
  {
    var i := Find(value, old', 0);
    next := value[..i] + by' + value[i + |old'|..];
    forall j | 0 <= j < i ensures !MatchAt(value, old', j) { FindIsFirst(value, old', 0, j); }
    ReplaceOnce(value, old', by', i);
    FirstMovesOn(value, old', by', i);
  }

  lemma FirstMovesOn(value: string, old': string, by': string, i: nat)
    requires old' != [] && Inert(old', by') && MatchAt(value, old', i)
    requires forall j :: 0 <= j < i ==> !MatchAt(value, old', j)
    ensures var k := Find(value[..i] + by' + value[i + |old'|..], old', 0); k < 0 || k >= i + |by'|
  {
    var k := Find(value[..i] + by' + value[i + |old'|..], old', 0);
    if 0 <= k < i + |by'| { NoNewMatch(value, old', by', i, k); }
  }

  lemma {:induction false} EndIsClean(value: string, old': string, by': string, n: nat)
    requires Ends(value, old', by', n)
    ensures Find(Times(value, old', by', n), old', 0) < 0
    decreases n
  {
    if Find(value, old', 0) < 0 {
      Rests(value, old', by', n);
    } else {
      EndIsClean(Once(value, old', by'), old', by', n - 1);
    }
  }

  /**
    For every variable, rescanning is a single pass on all texts if and only if the replacement is inert. If it
    aligns with the variable somewhere, some text lets a round put the variable together again.
   */
  lemma AlwaysOnePassIffInert(old': string, by': string)
    requires Variable(old')
    ensures (forall value :: IsOnePass(value, old', by')) <==> Inert(old', by')
  {
    if Inert(old', by') {
      forall value ensures IsOnePass(value, old', by') {
        var n := InertIsOnePass(value, old', by');
      }
    } else {
      var j :| -|old'| < j < |by'| && Aligns(old', by', j);
      var value := Reassembled(old', by', j);
      if IsOnePass(value, old', by') {
        var n :| Ends(value, old', by', n) && Times(value, old', by', n) == OnePass(value, old', by');
        EndIsClean(value, old', by', n);
      }
      assert !IsOnePass(value, old', by');
    }
  }

  /** What of the variable lies beyond the replacement, if it starts at `j`. */
  function Beyond(old': string, by': string, j: int): string
    requires j < |by'|
  {
    if |by'| - j < |old'| then old'[|by'| - j..] else []
  }

  /** A text whose single pass still holds the variable. */
  lemma Reassembled(old': string, by': string, j: int) returns (value: string)
    requires Variable(old') && -|old'| < j < |by'| && Aligns(old', by', j)
    ensures Find(OnePass(value, old', by'), old', 0) >= 0
  {
    var m := if j < 0 then -j else 0;
    var pre, post := old'[..m], Beyond(old', by', j);
    value := pre + old' + post;
    PassOverMiddle(old', by', m, post);
    var r := pre + by' + post;
    LaidOver(old', by', j, r);
    var at := if j < 0 then 0 else j;
    if Find(r, old', 0) < 0 { FindIsFirst(r, old', 0, at); }
  }

  /** The variable occurs where it was laid over the replacement. */
  lemma LaidOver(old': string, by': string, j: int, r: string)
    requires Variable(old') && -|old'| < j < |by'| && Aligns(old', by', j)
    requires r == old'[..if j < 0 then -j else 0] + by' + Beyond(old', by', j)
    ensures MatchAt(r, old', if j < 0 then 0 else j)
  {
    var m := if j < 0 then -j else 0;
    var at := if j < 0 then 0 else j;
    assert |r| >= at + |old'|;
    forall i | 0 <= i < |old'| ensures r[at + i] == old'[i] {
      if at + i >= m && at + i < m + |by'| {
        assert r[at + i] == by'[at + i - m];
        assert at + i - m - j == i;
      }
    }
    assert r[at..at + |old'|] == old';
  }

  /** The pass replaces exactly the whole variable in the middle. */
  lemma PassOverMiddle(old': string, by': string, m: nat, post: string)
    requires Variable(old') && m < |old'| && forall i :: 0 <= i < |post| ==> post[i] != '$'
    ensures OnePass(old'[..m] + old' + post, old', by') == old'[..m] + by' + post
  {
    var pre := old'[..m];
    var value := pre + old' + post;
    forall j | 0 <= j < m ensures !MatchAt(value, old', j) {
      if j == 0 {
        assert value[m] == '$' && old'[m] != '$';
        assert |old'| <= |value| ==> value[0..|old'|][m] == value[m];
      } else {
        assert value[j] == old'[j];
        assert j + |old'| <= |value| ==> value[j..j + |old'|][0] == value[j];
      }
    }
    SkipUnmatched(value, old', by', m);
    assert value[..m] == pre && value[m..] == old' + post;
    assert MatchAt(old' + post, old', 0) && (old' + post)[|old'|..] == post;
    forall j | 0 <= j < |post| ensures !MatchAt(post, old', j) {
      assert j + |old'| <= |post| ==> post[j..j + |old'|][0] == post[j];
    }
    SkipUnmatched(post, old', by', |post|);
    assert post[..|post|] + [] == post;
    Associate(pre, by', post);
  }

  /** A shorter replacement ends, too, though a later round may find what an earlier one has put together. */
  lemma {:induction false} ShorterEnds(value: string, old': string, by': string) returns (n: nat)
    requires |by'| < |old'|
    ensures Ends(value, old', by', n)
    decreases |value|
  {
    if Find(value, old', 0) < 0 {
      n := 0;
    } else {
      n := ShorterEnds(Once(value, old', by'), old', by');
      n := n + 1;
    }
  }

  /** And one that contains the variable never ends once there is a match. */
  lemma {:induction false} SelfFeedingNeverEnds(value: string, old': string, by': string, n: nat)
    requires Find(value, old', 0) >= 0 && Find(by', old', 0) >= 0
    ensures !Ends(value, old', by', n)
    decreases n
  {
    if n > 0 {
      var next := MatchesAgain(value, old', by');
      SelfFeedingNeverEnds(next, old', by', n - 1);
    }
  }

  lemma MatchesAgain(value: string, old': string, by': string) returns (next: string)
    requires Find(value, old', 0) >= 0 && Find(by', old', 0) >= 0
    ensures next == Once(value, old', by') && Find(next, old', 0) >= 0
  {
    var i, k := Find(value, old', 0), Find(by', old', 0);
    next := Once(value, old', by');
    assert next[i + k..i + k + |old'|] == by'[k..k + |old'|];
    assert MatchAt(next, old', i + k);
    if Find(next, old', 0) < 0 { FindIsFirst(next, old', 0, i + k); }
  }

  lemma {:induction false} SkipUnmatched(value: string, old': string, by': string, k: nat)
    requires old' != [] && k <= |value| && forall j :: 0 <= j < k ==> !MatchAt(value, old', j)
    ensures OnePass(value, old', by') == value[..k] + OnePass(value[k..], old', by')
    decreases k
  {
    if k == 0 {
      assert value[k..] == value;
    } else {
      var rest := value[1..];
      forall j | 0 <= j < k - 1 ensures !MatchAt(rest, old', j) {
        assert !MatchAt(value, old', j + 1);
        assert j + |old'| <= |rest| ==> rest[j..j + |old'|] == value[j + 1..j + 1 + |old'|];
      }
      SkipUnmatched(rest, old', by', k - 1);
      assert rest[k - 1..] == value[k..] && [value[0]] + rest[..k - 1] == value[..k];
    }
  }

  /** Replacing the first match changes nothing for the single pass. */
  lemma ReplaceOnce(value: string, old': string, by': string, i: nat)
    requires old' != [] && Inert(old', by') && MatchAt(value, old', i)
    requires forall j :: 0 <= j < i ==> !MatchAt(value, old', j)
    ensures OnePass(value[..i] + by' + value[i + |old'|..], old', by') == OnePass(value, old', by')
  {
    var pre, post := value[..i], value[i + |old'|..];
    var next := pre + by' + post;
    SkipUnmatched(value, old', by', i);
    assert MatchAt(value[i..], old', 0) && value[i..][|old'|..] == post;
    assert OnePass(value, old', by') == pre + (by' + OnePass(post, old', by'));
    forall j | 0 <= j < i + |by'| ensures !MatchAt(next, old', j) {
      NoNewMatch(value, old', by', i, j);
    }
    SkipUnmatched(next, old', by', i + |by'|);
    assert next[..i + |by'|] == pre + by' && next[i + |by'|..] == post;
    Associate(pre, by', OnePass(post, old', by'));
  }

  lemma NoNewMatch(value: string, old': string, by': string, i: nat, j: nat)
    requires old' != [] && Inert(old', by') && MatchAt(value, old', i) && j < i + |by'|
    requires forall k :: 0 <= k < i ==> !MatchAt(value, old', k)
    ensures !MatchAt(value[..i] + by' + value[i + |old'|..], old', j)
  {
    var next := value[..i] + by' + value[i + |old'|..];
    if j + |old'| <= i {
      assert !MatchAt(value, old', j);
      assert next[j..j + |old'|] == value[j..j + |old'|];
    } else if MatchAt(next, old', j) {
      forall k | 0 <= k < |by'| && 0 <= k - (j - i) < |old'| ensures by'[k] == old'[k - (j - i)] {
        assert next[i + k] == by'[k] && next[j..j + |old'|][i + k - j] == next[i + k];
      }
      assert Aligns(old', by', j - i);
    }
  }

  // ----- What is put in -----

  predicate PlainChar(c: char) {
    c !in {'\\', '\'', '"', ' ', '\t', '\n', '$'}
  }

  predicate Plain(s: string) {
    s != [] && forall i :: 0 <= i < |s| ==> PlainChar(s[i])
  }

  predicate HexChar(c: char) {
    IsDigit(c) || 'a' as int <= c as int <= 'f' as int || 'A' as int <= c as int <= 'F' as int
  }

  predicate ZoneChar(c: char) {
    || IsDigit(c) || 'a' as int <= c as int <= 'z' as int || 'A' as int <= c as int <= 'Z' as int
    || c == '-' || c == '_' || c == '.'
  }

  /**
    The texts that can pass `parsePeerIP`: what `net.ParseIP` takes is made of hex digits, colons and
    dots and has at least two characters; a percent sign and a zone may follow.
   */
  ghost predicate PeerIpShape(ip: string) {
    exists n :: 2 <= n <= |ip| && AddressThenZone(ip, n)
  }

  predicate AddressThenZone(ip: string, n: nat)
    requires n <= |ip|
  {
    && (forall i :: 0 <= i < n ==> HexChar(ip[i]) || ip[i] == ':' || ip[i] == '.')
    && (n < |ip| ==> ip[n] == '%' && forall i :: n < i < |ip| ==> ZoneChar(ip[i]))
  }

  lemma PortIsInert(port: nat)
    ensures Plain(Decimal(port)) && Inert(PORT_VARIABLE, Decimal(port))
  {
    DecimalDenotes(port);
    var by' := Decimal(port);
    forall j | -|PORT_VARIABLE| < j < |by'| ensures !Aligns(PORT_VARIABLE, by', j) {
      var i := if j < 0 then 0 else j;
      assert IsDigit(by'[i]) && !IsDigit(PORT_VARIABLE[i - j]);
    }
  }

  lemma AddressIsInert(ip: string)
    requires PeerIpShape(ip)
    ensures Plain(ip) && Inert(ADDRESS_VARIABLE, ip)
  {
    var n :| 2 <= n <= |ip| && AddressThenZone(ip, n);
    forall j | -|ADDRESS_VARIABLE| < j < |ip| ensures !Aligns(ADDRESS_VARIABLE, ip, j) {
      if j >= 0 {
        assert ip[j] != ADDRESS_VARIABLE[j - j];
      } else if ip[0] == ADDRESS_VARIABLE[0 - j] {
        assert j == -2 || j == -5;
        assert ip[1] != ADDRESS_VARIABLE[1 - j];
      }
    }
  }

  // ----- Splitting -----

  /** The splitter between two characters; `quote` is the open quote, if any. */
  datatype Splitter = Splitter(result: seq<string>, current: string, quote: Option<char>, escaped: bool)

  const START := Splitter([], [], None, false)

  function Feed(p: Splitter, c: char): Splitter {
    if p.escaped then p.(current := p.current + [c], escaped := false)
    else if c == '\\' then p.(escaped := true)
    else if p.quote.Some? then
      if c == p.quote.value then p.(quote := None) else p.(current := p.current + [c])
    else if c == '\'' || c == '"' then p.(quote := Some(c))
    else if c == ' ' || c == '\t' || c == '\n' then
      if p.current != [] then p.(result := p.result + [p.current], current := []) else p
    else p.(current := p.current + [c])
  }

  function FeedAll(p: Splitter, text: string): Splitter
    decreases |text|
  {
    if text == [] then p else FeedAll(Feed(p, text[0]), text[1..])
  }

  /** An open quote or escape rejects the command, which is also what an empty one amounts to. */
  function Finish(p: Splitter): seq<string> {
    if p.escaped || p.quote.Some? then [] else if p.current != [] then p.result + [p.current] else p.result
  }

  function Split(text: string): seq<string> {
    Finish(FeedAll(START, text))
  }

  method SplitCommand(value: string) returns (result: seq<string>)
    ensures result == Split(value)
  {
    result := [];
    var current: string, quote: Option<char>, escaped := [], None, false;
    for i := 0 to |value|
      invariant FeedAll(Splitter(result, current, quote, escaped), value[i..]) == FeedAll(START, value)
    {
      var c := value[i];
      assert value[i..][1..] == value[i + 1..];
      if escaped {
        current := current + [c];
        escaped := false;
        continue;
      }
      if c == '\\' {
        escaped := true;
        continue;
      }
      if quote != None {
        if quote == Some(c) {
          quote := None;
        } else {
          current := current + [c];
        }
        continue;
      }
      if c == '\'' || c == '"' {
        quote := Some(c);
        continue;
      }
      if c == ' ' || c == '\t' || c == '\n' {
        if |current| != 0 {
          result := result + [current];
          current := [];
        }
        continue;
      }
      current := current + [c];
    }
    assert value[|value|..] == [];
    if escaped || quote != None { return []; }
    if |current| != 0 {
      result := result + [current];
    }
  }

  lemma {:induction false} FeedAppend(p: Splitter, a: string, b: string)
    ensures FeedAll(p, a + b) == FeedAll(FeedAll(p, a), b)
    decreases |a|
  {
    if a == [] {
      assert a + b == b;
    } else {
      assert (a + b)[0] == a[0] && (a + b)[1..] == a[1..] + b;
      FeedAppend(Feed(p, a[0]), a[1..], b);
    }
  }

  /** Splitters that differ only in what their words say. */
  ghost predicate Alike(p: Splitter, q: Splitter) {
    && |p.result| == |q.result| && (p.current == [] <==> q.current == [])
    && p.quote == q.quote && p.escaped == q.escaped
  }

  lemma {:induction false} FeedPlain(p: Splitter, text: string)
    requires forall i :: 0 <= i < |text| ==> PlainChar(text[i]) || text[i] == '$'
    requires p.quote.Some? ==> p.quote.value == '\'' || p.quote.value == '"'
    ensures var q := FeedAll(p, text);
            && q.result == p.result && q.quote == p.quote
            && (text != [] ==> q.current != [] && !q.escaped)
            && (text == [] ==> q == p)
    decreases |text|
  {
    if text != [] {
      FeedPlain(Feed(p, text[0]), text[1..]);
    }
  }

  /** Replacing variables by plain text keeps the split alike at every point. */
  lemma {:induction false} OnePassAlike(p: Splitter, q: Splitter, value: string, old': string, by': string)
    requires Alike(p, q) && Variable(old') && Plain(by')
    requires forall i :: 0 < i < |old'| ==> PlainChar(old'[i])
    requires p.quote.Some? ==> p.quote.value == '\'' || p.quote.value == '"'
    ensures Alike(FeedAll(p, value), FeedAll(q, OnePass(value, old', by')))
    decreases |value|
  {
    if value != [] {
      if MatchAt(value, old', 0) {
        var rest := value[|old'|..];
        assert value == old' + rest;
        FeedAppend(p, old', rest);
        FeedAppend(q, by', OnePass(rest, old', by'));
        FeedPlain(p, old');
        FeedPlain(q, by');
        OnePassAlike(FeedAll(p, old'), FeedAll(q, by'), rest, old', by');
      } else {
        var rest := OnePass(value[1..], old', by');
        assert ([value[0]] + rest)[0] == value[0] && ([value[0]] + rest)[1..] == rest;
        OnePassAlike(Feed(p, value[0]), Feed(q, value[0]), value[1..], old', by');
      }
    }
  }

  // ----- The hook -----

  method ReplaceHookVariables(command: string, localPort: nat, targetIp: string) returns (r: string)
    requires PeerIpShape(targetIp)
    ensures r == OnePass(OnePass(command, PORT_VARIABLE, Decimal(localPort)), ADDRESS_VARIABLE, targetIp)
    ensures |Split(r)| == |Split(command)|
  {
    PortIsInert(localPort);
    AddressIsInert(targetIp);
    ghost var n := InertIsOnePass(command, PORT_VARIABLE, Decimal(localPort));
    r := StringReplaceAll(command, PORT_VARIABLE, Decimal(localPort), n);
    n := InertIsOnePass(r, ADDRESS_VARIABLE, targetIp);
    r := StringReplaceAll(r, ADDRESS_VARIABLE, targetIp, n);
    SameArgumentCount(command, localPort, targetIp);
  }

  /** Whatever port and address are put in, the command keeps its number of arguments or its rejection. */
  lemma SameArgumentCount(command: string, localPort: nat, targetIp: string)
    requires PeerIpShape(targetIp)
    ensures var r := OnePass(OnePass(command, PORT_VARIABLE, Decimal(localPort)), ADDRESS_VARIABLE, targetIp);
            |Split(r)| == |Split(command)|
  {
    PortIsInert(localPort);
    AddressIsInert(targetIp);
    var first := OnePass(command, PORT_VARIABLE, Decimal(localPort));
    OnePassAlike(START, START, command, PORT_VARIABLE, Decimal(localPort));
    OnePassAlike(START, START, first, ADDRESS_VARIABLE, targetIp);
  }

  // ----- Splitting inverts escaping -----

  function EscapeWord(word: string): string {
    if word == [] then [] else ['\\', word[0]] + EscapeWord(word[1..])
  }

  function JoinWords(words: seq<string>): string {
    if words == [] then []
    else JoinWords(words[..|words| - 1]) + (if |words| == 1 then [] else " ") + EscapeWord(words[|words| - 1])
  }

  function NonEmpty(words: seq<string>): seq<string> {
    if words == [] then []
    else NonEmpty(words[..|words| - 1]) + if words[|words| - 1] == [] then [] else [words[|words| - 1]]
  }

  lemma {:induction false} FeedEscaped(p: Splitter, word: string)
    requires !p.escaped
    ensures FeedAll(p, EscapeWord(word)) == p.(current := p.current + word)
    decreases |word|
  {
    if word == [] {
      assert p.current + word == p.current;
    } else {
      var text := EscapeWord(word);
      assert text[0] == '\\' && text[1..][0] == word[0] && text[1..][1..] == EscapeWord(word[1..]);
      var q := Feed(Feed(p, text[0]), word[0]);
      FeedEscaped(q, word[1..]);
      assert p.current + [word[0]] + word[1..] == p.current + word;
    }
  }

  lemma {:induction false} FeedJoined(words: seq<string>)
    ensures var p := FeedAll(START, JoinWords(words));
            !p.escaped && p.quote == None && Finish(p) == NonEmpty(words)
            && (words != [] ==> p.current == words[|words| - 1])
    decreases |words|
  {
    if words != [] {
      var init, last := words[..|words| - 1], words[|words| - 1];
      var sep := if |words| == 1 then [] else " ";
      FeedJoined(init);
      var p := FeedAll(START, JoinWords(init));
      FeedAppend(START, JoinWords(init) + sep, EscapeWord(last));
      FeedAppend(START, JoinWords(init), sep);
      var q := FeedAll(p, sep);
      if |words| > 1 {
        assert sep[1..] == [] && q == Feed(p, ' ');
      }
      assert q.current == [] && q.result == NonEmpty(init) && q.quote == None && !q.escaped;
      FeedEscaped(q, last);
      assert [] + last == last;
      assert FeedAll(START, JoinWords(words)) == q.(current := last);
    }
  }

  /** Splitting inverts the escaping printer exactly on argument lists without empty arguments. */
  lemma SplitInvertsEscaping(words: seq<string>)
    ensures Split(JoinWords(words)) == NonEmpty(words)
    ensures Split(JoinWords(words)) == words <==> forall i :: 0 <= i < |words| ==> words[i] != []
  {
    FeedJoined(words);
    NonEmptyCount(words);
  }

  lemma {:induction false} NonEmptyCount(words: seq<string>)
    ensures |NonEmpty(words)| <= |words|
    ensures NonEmpty(words) == words <==> forall i :: 0 <= i < |words| ==> words[i] != []
    ensures |NonEmpty(words)| == |words| ==> NonEmpty(words) == words
    decreases |words|
  {
    if words != [] {
      var init, last := words[..|words| - 1], words[|words| - 1];
      NonEmptyCount(init);
      assert words == init + [last];
    }
  }
}
