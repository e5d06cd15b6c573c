/** Decimal numbers and string order, as the signed and canonical texts use them. */
module Text {
  const DIGITS: string := "0123456789"

  predicate IsDigit(c: char) {
    '0' as int <= c as int <= '9' as int
  }

  function DigitValue(c: char): nat
    requires IsDigit(c)
  {
    c as int - '0' as int
  }

  function Decimal(n: nat): (s: string)
    ensures s != []
  {
    if n < 10 then [DIGITS[n]] else Decimal(n / 10) + [DIGITS[n % 10]]
  }

  function FormatInt(n: int): (s: string)
    ensures s != []
  {
    if n < 0 then "-" + Decimal(-n) else Decimal(n)
  }

  /** The number a string of digits denotes. */
  function Number(s: string): nat
    requires forall i :: 0 <= i < |s| ==> IsDigit(s[i])
  {
    if s == [] then 0 else Number(s[..|s| - 1]) * 10 + DigitValue(s[|s| - 1])
  }

  lemma {:induction false} DecimalDenotes(n: nat)
    ensures forall i :: 0 <= i < |Decimal(n)| ==> IsDigit(Decimal(n)[i])
    ensures Number(Decimal(n)) == n
  {
    var s := Decimal(n);
    if n < 10 {
      assert s[..0] == [];
    } else {
      DecimalDenotes(n / 10);
      assert s[..|s| - 1] == Decimal(n / 10);
    }
  }

  /** `s` does not go on with a digit. */
  predicate Ends(s: string) {
    s == [] || !IsDigit(s[0])
  }

  /** An undelimited decimal number can be read back as long as no digit follows it. */
  lemma DecimalPrefixFree(m: nat, n: nat, s: string, t: string)
    requires Decimal(m) + s == Decimal(n) + t && Ends(s) && Ends(t)
    ensures m == n && s == t
  {
    DecimalDenotes(m);
    DecimalDenotes(n);
    var a, b := Decimal(m), Decimal(n);
    assert (a + s)[..|a|] == a && (b + t)[..|b|] == b && (a + s)[|a|..] == s && (b + t)[|b|..] == t;
    NotShorter(a, s, b, t);
    NotShorter(b, t, a, s);
  }

  lemma NotShorter(a: string, s: string, b: string, t: string)
    requires a + s == b + t && Ends(s) && forall i :: 0 <= i < |b| ==> IsDigit(b[i])
    ensures |b| <= |a|
  {
    var whole := a + s;
    assert |a| < |whole| ==> whole[|a|] == s[0];
    assert forall i :: 0 <= i < |b| ==> whole[i] == b[i];
  }

  lemma FormatIntPrefixFree(m: int, n: int, s: string, t: string)
    requires FormatInt(m) + s == FormatInt(n) + t && Ends(s) && Ends(t)
    ensures m == n && s == t
  {
    var a, b := FormatInt(m), FormatInt(n);
    FirstOfFormatInt(m);
    FirstOfFormatInt(n);
    assert (a + s)[0] == a[0] && (b + t)[0] == b[0];
    if m < 0 {
      DropFirst('-', Decimal(-m), s);
      DropFirst('-', Decimal(-n), t);
      DecimalPrefixFree(-m, -n, s, t);
    } else {
      DecimalPrefixFree(m, n, s, t);
    }
  }

  lemma DropFirst(c: char, a: string, s: string)
    ensures ([c] + a + s)[1..] == a + s
  {
  }

  lemma FirstOfFormatInt(n: int)
    ensures if n < 0 then FormatInt(n)[0] == '-' else IsDigit(FormatInt(n)[0])
  {
    if n >= 0 { DecimalDenotes(n); }
  }

  lemma FormatIntPlain(n: int, i: nat)
    requires i < |FormatInt(n)|
    ensures FormatInt(n)[i] == '-' || IsDigit(FormatInt(n)[i])
  {
    if n < 0 { DecimalDenotes(-n); } else { DecimalDenotes(n); }
  }

  /** A decimal number has no leading zero. */
  lemma {:induction false} NoLeadingZero(n: nat)
    ensures Decimal(n)[0] == '0' <==> n == 0
    ensures |Decimal(n)| > 1 <==> n > 9
  {
    if n >= 10 { NoLeadingZero(n / 10); }
  }

  function Join(parts: seq<string>, separator: string): string {
    if parts == [] then "" else if |parts| == 1 then parts[0] else parts[0] + separator + Join(parts[1..], separator)
  }

  // ----- Order -----

  /** Code point order, which is also the byte order of UTF-8. */
  predicate Less(a: string, b: string) {
    b != [] && (a == [] || a[0] < b[0] || (a[0] == b[0] && Less(a[1..], b[1..])))
  }

  /** At the first place where two strings differ, the smaller character or the end comes first. */
  lemma {:induction false} LessIff(a: string, b: string)
    ensures Less(a, b) <==> exists i :: FirstSmaller(a, b, i)
    decreases |a|
  {
    if a == [] || b == [] || a[0] != b[0] {
      if Less(a, b) { assert FirstSmaller(a, b, 0); }
    } else {
      LessIff(a[1..], b[1..]);
      if i :| FirstSmaller(a[1..], b[1..], i) {
        assert forall j :: 0 < j < i + 1 ==> a[j] == a[1..][j - 1] && b[j] == b[1..][j - 1];
        assert FirstSmaller(a, b, i + 1);
      }
      if i :| FirstSmaller(a, b, i) {
        assert FirstSmaller(a[1..], b[1..], i - 1);
      }
    }
  }

  ghost predicate FirstSmaller(a: string, b: string, i: int) {
    && 0 <= i <= |a| && i < |b| && (forall j :: 0 <= j < i ==> a[j] == b[j])
    && (i == |a| || a[i] as int < b[i] as int)
  }

  lemma {:induction false} LessTotal(a: string, b: string)
    ensures Less(a, b) || Less(b, a) || a == b
    ensures !(Less(a, b) && Less(b, a))
    ensures Less(a, b) ==> a != b
    decreases |a|
  {
    if a != [] && b != [] {
      LessTotal(a[1..], b[1..]);
      assert a == [a[0]] + a[1..] && b == [b[0]] + b[1..];
    }
  }

  lemma {:induction false} LessTransitive(a: string, b: string, c: string)
    requires Less(a, b) && !Less(c, b)
    ensures Less(a, c)
    decreases |a|
  {
    if a != [] && b[0] == c[0] && a[0] == b[0] {
      LessTransitive(a[1..], b[1..], c[1..]);
    }
  }

  ghost predicate Sorted(s: seq<string>) {
    forall i, j :: 0 <= i < j < |s| ==> !Less(s[j], s[i])
  }

  /** A multiset has one sorted listing. */
  lemma {:induction false} SortedUnique(s: seq<string>, t: seq<string>)
    requires Sorted(s) && Sorted(t) && multiset(s) == multiset(t)
    ensures s == t
    decreases |s|
  {
    assert |s| == |multiset(s)| && |t| == |multiset(t)|;
    if s != [] {
      SortedHead(s, t[0]);
      SortedHead(t, s[0]);
      assert t[0] in multiset(t) && s[0] in multiset(s);
      LessTotal(s[0], t[0]);
      assert s == [s[0]] + s[1..] && t == [t[0]] + t[1..];
      assert multiset(s[1..]) == multiset(s) - multiset{s[0]} == multiset(t[1..]);
      SortedUnique(s[1..], t[1..]);
    }
  }

  lemma SortedHead(s: seq<string>, x: string)
    requires Sorted(s) && s != []
    ensures x in multiset(s) ==> !Less(x, s[0])
  {
    LessTotal(s[0], s[0]);
  }

  /** The sorted listing itself. */
  function InOrder(s: seq<string>): (r: seq<string>)
    ensures Sorted(r) && multiset(r) == multiset(s)
  {
    if s == [] then []
    else
      assert s == [s[0]] + s[1..];
      Insert(s[0], InOrder(s[1..]))
  }

  function Insert(x: string, s: seq<string>): (r: seq<string>)
    requires Sorted(s)
    ensures Sorted(r) && multiset(r) == multiset{x} + multiset(s)
  {
    if s == [] || !Less(s[0], x) then
      InsertFirst(x, s);
      [x] + s
    else
      var rest := Insert(x, s[1..]);
      InsertLater(x, s, rest);
      [s[0]] + rest
  }

  lemma InsertFirst(x: string, s: seq<string>)
    requires Sorted(s) && (s == [] || !Less(s[0], x))
    ensures Sorted([x] + s) && multiset([x] + s) == multiset{x} + multiset(s)
  {
    forall k | 0 <= k < |s| ensures !Less(s[k], x) {
      if Less(s[k], x) {
        LessTotal(s[0], s[k]);
        LessTransitive(s[k], x, s[0]);
      }
    }
  }

  lemma InsertLater(x: string, s: seq<string>, rest: seq<string>)
    requires s != [] && Sorted(s) && Less(s[0], x)
    requires Sorted(rest) && multiset(rest) == multiset{x} + multiset(s[1..])
    ensures Sorted([s[0]] + rest) && multiset([s[0]] + rest) == multiset{x} + multiset(s)
  {
    assert s == [s[0]] + s[1..];
    LessTotal(s[0], x);
    forall k | 0 <= k < |rest| ensures !Less(rest[k], s[0]) {
      assert rest[k] in multiset(rest);
      if rest[k] != x {
        assert rest[k] in multiset(s[1..]) && rest[k] in s[1..];
      }
    }
  }

  // ----- Sorting in place -----

  /** Insertion sort by adjacent swaps. */
  method SortStrings(values: array<string>)
    modifies values
    ensures Sorted(values[..]) && multiset(values[..]) == multiset(old(values[..]))
  {
    var i := 1;
    while i < values.Length
      invariant 1 <= i && (i <= values.Length || values.Length == 0)
      invariant values.Length > 0 ==> Sorted(values[..i])
      invariant multiset(values[..]) == multiset(old(values[..]))
    {
      SinkInto(values, i);
      i := i + 1;
    }
    assert values.Length > 0 ==> values[..i] == values[..];
  }

  /** The inner loop: the value at `i` moves down to its place among the sorted ones below it. */
  method SinkInto(values: array<string>, i: nat)
    requires 0 < i < values.Length && Sorted(values[..i])
    modifies values
    ensures Sorted(values[..i + 1]) && multiset(values[..]) == multiset(old(values[..]))
  {
    var j := i;
    assert forall k :: 0 <= k < i ==> values[..i + 1][k] == values[..i][k];
    while j > 0 && Less(values[j], values[j - 1])
      invariant 0 <= j <= i
      invariant SortedExcept(values[..i + 1], j)
      invariant multiset(values[..]) == multiset(old(values[..]))
    {
      SwapKeepsOrder(values[..i + 1], j);
      SwapKeeps(values[..], j);
      ghost var before := values[..];
      values[j], values[j - 1] := values[j - 1], values[j];
      assert values[..] == Swapped(before, j);
      assert values[..i + 1] == Swapped(before[..i + 1], j);
      j := j - 1;
    }
    SortedAtRest(values[..i + 1], j);
  }

  function Swapped(s: seq<string>, j: nat): seq<string>
    requires 0 < j < |s|
  {
    s[j := s[j - 1]][j - 1 := s[j]]
  }

  lemma SwapKeeps(s: seq<string>, j: nat)
    requires 0 < j < |s|
    ensures multiset(Swapped(s, j)) == multiset(s)
  {
  }

  /** All but the string at `j`, which may belong further down, are in order, and it is not above its followers. */
  ghost predicate SortedExcept(s: seq<string>, j: nat) {
    && j < |s|
    && (forall i, k :: 0 <= i < k < |s| && i != j && k != j ==> !Less(s[k], s[i]))
    && (forall k :: j < k < |s| ==> !Less(s[k], s[j]))
  }

  lemma SwapKeepsOrder(s: seq<string>, j: nat)
    requires SortedExcept(s, j) && j > 0 && Less(s[j], s[j - 1])
    ensures SortedExcept(Swapped(s, j), j - 1)
  {
    LessTotal(s[j], s[j - 1]);
    var t := Swapped(s, j);
    forall i, k | 0 <= i < k < |t| && i != j - 1 && k != j - 1 ensures !Less(t[k], t[i]) {
      if i == j { assert !Less(s[k], s[j - 1]); }
      else if k == j { assert !Less(s[j - 1], s[i]); }
      else { assert !Less(s[k], s[i]); }
    }
  }

  lemma SortedAtRest(s: seq<string>, j: nat)
    requires SortedExcept(s, j) && (j == 0 || !Less(s[j], s[j - 1]))
    ensures Sorted(s)
  {
    forall i | 0 <= i < j ensures !Less(s[j], s[i]) {
      if i < j - 1 && Less(s[j], s[i]) {
        assert !Less(s[j - 1], s[i]);
        LessTransitive(s[j], s[i], s[j - 1]);
      }
    }
  }

  // ----- Identities -----

  /** Names of parties and mods. */
  predicate ValidIdentity(s: string) {
    0 < |s| <= 64 && forall i :: 0 <= i < |s| ==>
      IsDigit(s[i]) || 'a' as int <= s[i] as int <= 'z' as int || 'A' as int <= s[i] as int <= 'Z' as int
      || s[i] == '-' || s[i] == '_' || s[i] == '.'
  }
}
