/** What splitting a hook command means: the arguments of every command text, and which texts are rejected. */
module HookArguments {
  import opened Bytes
  import opened HookCommand
  import opened Text

  /** A character between quotes, as it is or behind a backslash. */
  datatype Inner = Raw(c: char) | Hidden(c: char)

  /** A blank, a character as it is or behind a backslash, or a part between quotes. */
  datatype Token = Blank(c: char) | Bare(c: char) | Escaped(c: char) | Quoted(q: char, body: seq<Inner>)

  predicate IsBlank(c: char) {
    c == ' ' || c == '\t' || c == '\n'
  }

  predicate IsQuote(c: char) {
    c == '\'' || c == '"'
  }

  predicate GoodInner(q: char, i: Inner) {
    i.Raw? ==> i.c != q && i.c != '\\'
  }

  predicate Good(t: Token) {
    match t
    case Blank(c) => IsBlank(c)
    case Bare(c) => !IsBlank(c) && !IsQuote(c) && c != '\\'
    case Escaped(_) => true
    case Quoted(q, body) => IsQuote(q) && forall i :: 0 <= i < |body| ==> GoodInner(q, body[i])
  }

  // ----- How tokens are written -----

  function InnerText(body: seq<Inner>): string {
    if body == [] then []
    else InnerText(body[..|body| - 1]) + match body[|body| - 1] case Raw(c) => [c] case Hidden(c) => ['\\', c]
  }

  function TokenText(t: Token): string {
    match t
    case Blank(c) => [c]
    case Bare(c) => [c]
    case Escaped(c) => ['\\', c]
    case Quoted(q, body) => [q] + InnerText(body) + [q]
  }

  function CommandText(tokens: seq<Token>): string {
    if tokens == [] then [] else CommandText(tokens[..|tokens| - 1]) + TokenText(tokens[|tokens| - 1])
  }

  // ----- What they stand for -----

  function InnerValue(body: seq<Inner>): string {
    seq(|body|, i requires 0 <= i < |body| => body[i].c)
  }

  function Value(t: Token): string {
    if t.Quoted? then InnerValue(t.body) else if t.Blank? then [] else [t.c]
  }

  function Values(tokens: seq<Token>): string {
    if tokens == [] then [] else Values(tokens[..|tokens| - 1]) + Value(tokens[|tokens| - 1])
  }

  /** The number of the last tokens that are not blanks. */
  function LastWord(tokens: seq<Token>): (n: nat)
    ensures n <= |tokens|
  {
    if tokens == [] || tokens[|tokens| - 1].Blank? then 0 else LastWord(tokens[..|tokens| - 1]) + 1
  }

  /** The words between blanks, parts next to each other joined and empty words left out. */
  function Arguments(tokens: seq<Token>): seq<string>
    decreases |tokens|
  {
    var n := |tokens| - LastWord(tokens);
    var word := Values(tokens[n..]);
    (if n == 0 then [] else Arguments(tokens[..n - 1])) + if word == [] then [] else [word]
  }

  // ----- Splitting them -----

  lemma {:induction false} FeedInner(p: Splitter, q: char, body: seq<Inner>)
    requires p.quote == Some(q) && !p.escaped && forall i :: 0 <= i < |body| ==> GoodInner(q, body[i])
    ensures FeedAll(p, InnerText(body)) == p.(current := p.current + InnerValue(body))
    decreases |body|
  {
    if body == [] {
      assert p.current + InnerValue(body) == p.current;
    } else {
      var init, last := body[..|body| - 1], body[|body| - 1];
      FeedInner(p, q, init);
      FeedAppend(p, InnerText(init), if last.Raw? then [last.c] else ['\\', last.c]);
      var r := p.(current := p.current + InnerValue(init));
      FeedTwo(r, last.c);
      assert InnerValue(body) == InnerValue(init) + [last.c];
      Associate(p.current, InnerValue(init), [last.c]);
    }
  }

  lemma FeedOne(p: Splitter, c: char)
    ensures FeedAll(p, [c]) == Feed(p, c)
  {
    assert [c][1..] == [];
    assert FeedAll(Feed(p, c), []) == Feed(p, c);
  }

  /** One character, and one behind a backslash. */
  lemma FeedTwo(p: Splitter, c: char)
    ensures FeedAll(p, [c]) == Feed(p, c)
    ensures FeedAll(p, ['\\', c]) == Feed(Feed(p, '\\'), c)
  {
    FeedOne(p, c);
    FeedOne(Feed(p, '\\'), c);
    assert ['\\', c][1..] == [c] && ['\\', c][0] == '\\';
  }

  lemma FeedToken(p: Splitter, t: Token)
    requires p.quote == None && !p.escaped && Good(t)
    ensures FeedAll(p, TokenText(t))
         == if !t.Blank? then p.(current := p.current + Value(t))
            else if p.current == [] then p else p.(result := p.result + [p.current], current := [])
  {
    if t.Quoted? {
      FeedAppend(p, [t.q] + InnerText(t.body), [t.q]);
      FeedAppend(p, [t.q], InnerText(t.body));
      FeedTwo(p, t.q);
      FeedInner(p.(quote := Some(t.q)), t.q, t.body);
      FeedTwo(p.(quote := Some(t.q), current := p.current + InnerValue(t.body)), t.q);
    } else {
      FeedTwo(p, t.c);
    }
  }

  /** The words before the last one. */
  function Earlier(tokens: seq<Token>): seq<string> {
    var n := |tokens| - LastWord(tokens);
    if n == 0 then [] else Arguments(tokens[..n - 1])
  }

  /** The last word so far. */
  function Current(tokens: seq<Token>): string {
    Values(tokens[|tokens| - LastWord(tokens)..])
  }

  lemma WordGrows(init: seq<Token>, last: Token)
    requires !last.Blank?
    ensures Earlier(init + [last]) == Earlier(init) && Current(init + [last]) == Current(init) + Value(last)
  {
    LongerWord(init, last);
    var n := |init| - LastWord(init);
    assert (init + [last])[n..] == init[n..] + [last];
    MoreValues(init[n..], last);
    assert n > 0 ==> (init + [last])[..n - 1] == init[..n - 1];
  }

  lemma LongerWord(init: seq<Token>, last: Token)
    requires !last.Blank?
    ensures LastWord(init + [last]) == LastWord(init) + 1
  {
    assert (init + [last])[..|init|] == init;
  }

  lemma MoreValues(init: seq<Token>, last: Token)
    ensures Values(init + [last]) == Values(init) + Value(last)
  {
    assert (init + [last])[..|init|] == init;
  }

  lemma WordEnds(init: seq<Token>, last: Token)
    requires last.Blank?
    ensures Current(init + [last]) == []
    ensures Earlier(init + [last]) == Earlier(init) + if Current(init) == [] then [] else [Current(init)]
  {
    var tokens := init + [last];
    assert tokens[|tokens|..] == [] && tokens[..|init|] == init;
  }

  lemma {:induction false} FeedTokens(tokens: seq<Token>)
    requires forall i :: 0 <= i < |tokens| ==> Good(tokens[i])
    ensures FeedAll(START, CommandText(tokens)) == Splitter(Earlier(tokens), Current(tokens), None, false)
    decreases |tokens|
  {
    if tokens == [] {
      assert Current(tokens) == [] && Earlier(tokens) == [];
    } else {
      var init, last := tokens[..|tokens| - 1], tokens[|tokens| - 1];
      assert tokens == init + [last];
      FeedTokens(init);
      FeedAppend(START, CommandText(init), TokenText(last));
      FeedToken(Splitter(Earlier(init), Current(init), None, false), last);
      if last.Blank? { WordEnds(init, last); } else { WordGrows(init, last); }
    }
  }

  /**
    Every command made of such tokens splits into its words: characters and quoted parts next to each other join, blanks
    between quotes or behind a backslash stay, and empty words vanish.
   */
  lemma SplitIsArguments(tokens: seq<Token>)
    requires forall i :: 0 <= i < |tokens| ==> Good(tokens[i])
    ensures Split(CommandText(tokens)) == Arguments(tokens)
  {
    FeedTokens(tokens);
  }

  /** What can be left over at the end of a text: nothing, a lone backslash, or a quote that is not closed. */
  datatype Rest = Nothing | Backslash | OpenQuote(q: char, body: seq<Inner>, backslash: bool)

  predicate GoodRest(r: Rest) {
    r.OpenQuote? ==> IsQuote(r.q) && forall i :: 0 <= i < |r.body| ==> GoodInner(r.q, r.body[i])
  }

  function RestText(r: Rest): string {
    match r
    case Nothing => []
    case Backslash => ['\\']
    case OpenQuote(q, body, backslash) => [q] + InnerText(body) + if backslash then ['\\'] else []
  }

  /** Every text is such a command, possibly with something left over. */
  lemma {:induction false} EveryText(text: string) returns (tokens: seq<Token>, rest: Rest)
    ensures (forall i :: 0 <= i < |tokens| ==> Good(tokens[i])) && GoodRest(rest)
            && text == CommandText(tokens) + RestText(rest)
    decreases |text|
  {
    if text == [] {
      tokens, rest := [], Nothing;
    } else {
      var c := text[|text| - 1];
      tokens, rest := EveryText(text[..|text| - 1]);
      assert text == text[..|text| - 1] + [c];
      tokens, rest := OneMore(tokens, rest, c);
    }
  }

  lemma OneMore(tokens: seq<Token>, rest: Rest, c: char) returns (tokens': seq<Token>, rest': Rest)
    requires (forall i :: 0 <= i < |tokens| ==> Good(tokens[i])) && GoodRest(rest)
    ensures (forall i :: 0 <= i < |tokens'| ==> Good(tokens'[i])) && GoodRest(rest')
    ensures CommandText(tokens') + RestText(rest') == CommandText(tokens) + RestText(rest) + [c]
  {
    if rest.OpenQuote? {
      tokens', rest' := OneMoreQuoted(tokens, rest, c);
    } else if rest.Nothing? && c == '\\' {
      tokens', rest' := tokens, Backslash;
    } else if rest.Nothing? && IsQuote(c) {
      tokens', rest' := tokens, OpenQuote(c, [], false);
    } else {
      tokens', rest' := tokens + [if rest.Backslash? then Escaped(c) else if IsBlank(c) then Blank(c) else Bare(c)],
          Nothing;
      assert tokens'[..|tokens|] == tokens;
    }
  }

  lemma OneMoreQuoted(tokens: seq<Token>, rest: Rest, c: char) returns (tokens': seq<Token>, rest': Rest)
    requires (forall i :: 0 <= i < |tokens| ==> Good(tokens[i])) && GoodRest(rest) && rest.OpenQuote?
    ensures (forall i :: 0 <= i < |tokens'| ==> Good(tokens'[i])) && GoodRest(rest')
    ensures CommandText(tokens') + RestText(rest') == CommandText(tokens) + RestText(rest) + [c]
  {
    if rest.backslash || (c != rest.q && c != '\\') {
      var more := rest.body + [if rest.backslash then Hidden(c) else Raw(c)];
      assert more[..|rest.body|] == rest.body;
      tokens', rest' := tokens, OpenQuote(rest.q, more, false);
    } else if c == '\\' {
      tokens', rest' := tokens, OpenQuote(rest.q, rest.body, true);
    } else {
      tokens', rest' := tokens + [Quoted(rest.q, rest.body)], Nothing;
      assert tokens'[..|tokens|] == tokens;
    }
  }

  /** And exactly what is left over rejects it. */
  lemma LeftoverIsRejected(tokens: seq<Token>, rest: Rest)
    requires (forall i :: 0 <= i < |tokens| ==> Good(tokens[i])) && GoodRest(rest)
    ensures Split(CommandText(tokens) + RestText(rest)) == if rest.Nothing? then Arguments(tokens) else []
  {
    FeedTokens(tokens);
    FeedAppend(START, CommandText(tokens), RestText(rest));
    if rest.Nothing? {
      SplitIsArguments(tokens);
    } else {
      StaysOpen(Splitter(Earlier(tokens), Current(tokens), None, false), rest);
    }
  }

  lemma StaysOpen(p: Splitter, rest: Rest)
    requires p.quote == None && !p.escaped && GoodRest(rest) && !rest.Nothing?
    ensures var q := FeedAll(p, RestText(rest)); q.escaped || q.quote.Some?
  {
    match rest
    case Backslash => FeedOne(p, '\\');
    case OpenQuote(q, body, backslash) =>
      var r := p.(quote := Some(q), current := p.current + InnerValue(body));
      FeedAppend(p, [q] + InnerText(body), if backslash then ['\\'] else []);
      FeedAppend(p, [q], InnerText(body));
      FeedOne(p, q);
      FeedInner(p.(quote := Some(q)), q, body);
      FeedOne(r, '\\');
  }

  // ----- Three kinds of commands -----

  function Bares(word: string): seq<Token> {
    seq(|word|, i requires 0 <= i < |word| => Bare(word[i]))
  }

  function Raws(text: string): seq<Inner> {
    seq(|text|, i requires 0 <= i < |text| => Raw(text[i]))
  }

  lemma {:induction false} BareWord(word: string)
    ensures CommandText(Bares(word)) == word && Values(Bares(word)) == word && LastWord(Bares(word)) == |word|
    decreases |word|
  {
    if word != [] {
      BareWord(word[..|word| - 1]);
      assert Bares(word)[..|word| - 1] == Bares(word[..|word| - 1]);
    }
  }

  lemma {:induction false} RawText(text: string)
    ensures InnerText(Raws(text)) == text && InnerValue(Raws(text)) == text
    decreases |text|
  {
    if text != [] {
      RawText(text[..|text| - 1]);
      assert Raws(text)[..|text| - 1] == Raws(text[..|text| - 1]);
    }
  }

  /** A plain word and a quoted text next to each other are one argument, blanks between the quotes included. */
  lemma QuotedPartJoins(word: string, q: char, text: string)
    requires IsQuote(q) && (forall i :: 0 <= i < |word| ==> Good(Bare(word[i])))
    requires forall i :: 0 <= i < |text| ==> text[i] != q && text[i] != '\\'
    ensures Split(word + ([q] + text + [q])) == if word + text == [] then [] else [word + text]
  {
    var t := QuotedText(q, text);
    JoinedText(word, t);
    JoinedArguments(word, t);
    GoodJoined(word, t);
    SplitIsArguments(Bares(word) + [t]);
  }

  lemma QuotedText(q: char, text: string) returns (t: Token)
    requires IsQuote(q) && forall i :: 0 <= i < |text| ==> text[i] != q && text[i] != '\\'
    ensures Good(t) && !t.Blank? && TokenText(t) == [q] + text + [q] && Value(t) == text
  {
    t := Quoted(q, Raws(text));
    RawText(text);
  }

  lemma GoodJoined(word: string, t: Token)
    requires Good(t) && forall i :: 0 <= i < |word| ==> Good(Bare(word[i]))
    ensures forall i :: 0 <= i < |Bares(word) + [t]| ==> Good((Bares(word) + [t])[i])
  {
  }

  lemma JoinedText(word: string, t: Token)
    ensures CommandText(Bares(word) + [t]) == word + TokenText(t)
  {
    BareWord(word);
    var tokens := Bares(word) + [t];
    assert tokens[..|tokens| - 1] == Bares(word) && tokens[|tokens| - 1] == t;
  }

  lemma JoinedArguments(word: string, t: Token)
    requires !t.Blank?
    ensures Arguments(Bares(word) + [t]) == if word + Value(t) == [] then [] else [word + Value(t)]
  {
    BareWord(word);
    assert Bares(word)[0..] == Bares(word);
    WordGrows(Bares(word), t);
    ByWords(Bares(word) + [t]);
  }

  lemma ByWords(tokens: seq<Token>)
    ensures Arguments(tokens) == Earlier(tokens) + if Current(tokens) == [] then [] else [Current(tokens)]
  {
  }

  /** Words of plain characters, with a blank between each two. */
  function Spaced(words: seq<string>): seq<Token> {
    if words == [] then []
    else if |words| == 1 then Bares(words[0])
    else Spaced(words[..|words| - 1]) + [Blank(' ')] + Bares(words[|words| - 1])
  }

  /** Plain words with blanks between them split into themselves if and only if none is empty. */
  lemma PlainWordsSplit(words: seq<string>)
    requires forall i, j :: 0 <= i < |words| && 0 <= j < |words[i]| ==> Good(Bare(words[i][j]))
    ensures Split(CommandText(Spaced(words))) == NonEmpty(words)
    ensures Split(CommandText(Spaced(words))) == words <==> forall i :: 0 <= i < |words| ==> words[i] != []
  {
    SpacedArguments(words);
    SpacedGood(words);
    SplitIsArguments(Spaced(words));
    NonEmptyCount(words);
  }

  lemma {:induction false} SpacedArguments(words: seq<string>)
    ensures Arguments(Spaced(words)) == NonEmpty(words)
    decreases |words|
  {
    if |words| == 1 {
      BareWord(words[0]);
      assert Bares(words[0])[0..] == Bares(words[0]) && words[..0] == [];
    } else if |words| > 1 {
      SpacedArguments(words[..|words| - 1]);
      AfterBlank(Spaced(words[..|words| - 1]), words[|words| - 1]);
    }
  }

  lemma {:induction false} SpacedGood(words: seq<string>)
    requires forall i, j :: 0 <= i < |words| && 0 <= j < |words[i]| ==> Good(Bare(words[i][j]))
    ensures forall i :: 0 <= i < |Spaced(words)| ==> Good(Spaced(words)[i])
    decreases |words|
  {
    if |words| > 1 { SpacedGood(words[..|words| - 1]); }
  }

  lemma {:induction false} AfterBlank(tokens: seq<Token>, word: string)
    ensures var all := tokens + [Blank(' ')] + Bares(word);
            Arguments(all) == Arguments(tokens) + if word == [] then [] else [word]
  {
    var all := tokens + [Blank(' ')] + Bares(word);
    LastBares(tokens, word);
    var n := |tokens| + 1;
    assert all[n..] == Bares(word) && all[..n - 1] == tokens;
    BareWord(word);
  }

  lemma {:induction false} LastBares(tokens: seq<Token>, word: string)
    ensures LastWord(tokens + [Blank(' ')] + Bares(word)) == |word|
    decreases |word|
  {
    var all := tokens + [Blank(' ')] + Bares(word);
    if word != [] {
      LastBares(tokens, word[..|word| - 1]);
      assert all[..|all| - 1] == tokens + [Blank(' ')] + Bares(word[..|word| - 1]);
    }
  }

  // ----- Filling in the variables -----

  predicate NoDollar(s: string) {
    forall i :: 0 <= i < |s| ==> s[i] != '$'
  }

  /** The first variable after some text is replaced and the rest treated alike; text without one stays. */
  lemma PassReplaces(a: string, old': string, by': string, b: string)
    requires Variable(old') && NoDollar(a)
    ensures OnePass(a, old', by') == a
    ensures OnePass(a + old' + b, old', by') == a + by' + OnePass(b, old', by')
  {
    PassSkips(a, old', by', []);
    assert a + [] == a;
    PassSkips(a, old', by', old' + b);
    Associate(a, old', b);
    assert MatchAt(old' + b, old', 0) && (old' + b)[|old'|..] == b;
    Associate(a, by', OnePass(b, old', by'));
  }

  lemma PassSkips(a: string, old': string, by': string, b: string)
    requires Variable(old') && NoDollar(a)
    ensures OnePass(a + b, old', by') == a + OnePass(b, old', by')
  {
    forall j | 0 <= j < |a| ensures !MatchAt(a + b, old', j) {
      assert j + |old'| <= |a + b| ==> (a + b)[j..j + |old'|][0] == a[j];
    }
    SkipUnmatched(a + b, old', by', |a|);
    assert (a + b)[..|a|] == a && (a + b)[|a|..] == b;
  }

  /** Text whose only variable is another one stays as it is. */
  lemma OtherVariable(b: string, other: string, c: string, old': string, by': string)
    requires Variable(old') && Variable(other) && NoDollar(b) && NoDollar(c)
    requires |old'| > 1 && |other| > 1 && old'[1] != other[1]
    ensures OnePass(b + other + c, old', by') == b + other + c
  {
    var value := b + other + c;
    assert value[|b|] == '$' && value[|b| + 1] == other[1];
    forall j | 0 <= j < |value| ensures !MatchAt(value, old', j) {
      assert value[j] == '$' ==> j == |b|;
      assert j + |old'| <= |value| ==>
          value[j..j + |old'|][0] == value[j] && value[j..j + |old'|][1] == value[j + 1];
    }
    SkipUnmatched(value, old', by', |value|);
    assert value[|value|..] == [] && value[..|value|] == value;
  }

  lemma FillTwo(a: string, b: string, c: string, one: string, first: string, two: string, second: string)
    requires Variable(one) && Variable(two) && NoDollar(a) && NoDollar(b) && NoDollar(c) && NoDollar(first)
    requires OnePass(b + two + c, one, first) == b + two + c
    ensures OnePass(OnePass(a + one + (b + two + c), one, first), two, second) == a + first + b + second + c
  {
    PassReplaces(a, one, first, b + two + c);
    Regroup(a, first, b, two + c);
    Associate(b, two, c);
    Associate(a + first, b, two + c);
    Associate(a + first + b, two, c);
    PassReplaces(a + first + b, two, second, c);
    PassReplaces(c, two, second, []);
  }

  /** The port and the address go where their variables were, and the text around them stays. */
  lemma VariablesAreFilledIn(a: string, b: string, c: string, localPort: nat, targetIp: string)
    requires NoDollar(a) && NoDollar(b) && NoDollar(c)
    ensures var command := a + "$LOCAL_TCP_PORT" + (b + "$TARGET_IP" + c);
            var r := OnePass(command, PORT_VARIABLE, Decimal(localPort));
            OnePass(r, ADDRESS_VARIABLE, targetIp) == a + Decimal(localPort) + b + targetIp + c
  {
    PortIsInert(localPort);
    OtherVariable(b, ADDRESS_VARIABLE, c, PORT_VARIABLE, Decimal(localPort));
    FillTwo(a, b, c, PORT_VARIABLE, Decimal(localPort), ADDRESS_VARIABLE, targetIp);
  }
}
