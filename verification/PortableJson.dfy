/**
  The canonical JSON text over which capability requests are signed.
  Strings are sequences of code points; the writer's output is the UTF-8 form of this text.
 */
module PortableJson {
  import opened Bytes
  import opened Text

  const MAX_DEPTH: nat := 16
  const MAX_INTEGER: nat := 9007199254740991
  const MAX_STRING: nat := 16384

  /** A decoded value. Numbers keep their literal: an optional minus sign and digits, or something else. */
  datatype Json =
    | Null
    | Bool(b: bool)
    | Number(negative: bool, magnitude: nat)
    | Fraction(literal: string)
    | Str(s: string)
    | Arr(items: seq<Json>)
    | Obj(fields: map<string, Json>)

  /** Normal form C of Unicode is not part of this model; it enters as a test on strings. */
  type Normal = string -> bool

  function IntOf(v: Json): int
    requires v.Number?
  {
    if v.negative then -(v.magnitude as int) else v.magnitude
  }

  function Utf8Length(s: string): nat {
    if s == [] then 0
    else
      var c := s[0] as int;
      (if c < 0x80 then 1 else if c < 0x800 then 2 else if c < 0x1_0000 then 3 else 4) + Utf8Length(s[1..])
  }

  predicate PortableString(s: string, nfc: Normal) {
    Utf8Length(s) <= MAX_STRING && (forall i :: 0 <= i < |s| ==> s[i] as int != 0) && nfc(s)
  }

  /** The values the writer accepts at a given depth. */
  predicate Portable(v: Json, depth: nat, nfc: Normal) {
    && depth <= MAX_DEPTH
    && match v
       case Null => true
       case Bool(_) => true
       case Number(_, m) => m <= MAX_INTEGER
       case Fraction(_) => false
       case Str(s) => PortableString(s, nfc)
       case Arr(items) => forall i :: 0 <= i < |items| ==> Portable(items[i], depth + 1, nfc)
       case Obj(fields) =>
         forall k :: k in fields ==>
           depth + 1 <= MAX_DEPTH && PortableString(k, nfc) && Portable(fields[k], depth + 1, nfc)
  }

  // ----- The text -----

  const HEX: string := "0123456789abcdef"

  function Escape(c: char): (e: string)
    ensures e != []
  {
    var n := c as int;
    if n == 0x22 then "\\\""
    else if n == 0x5C then "\\\\"
    else if n == 8 then "\\b"
    else if n == 12 then "\\f"
    else if n == 10 then "\\n"
    else if n == 13 then "\\r"
    else if n == 9 then "\\t"
    else if n < 0x20 then "\\u00" + [HEX[n / 16], HEX[n % 16]]
    else [c]
  }

  function Escaped(s: string): string {
    if s == [] then [] else Escape(s[0]) + Escaped(s[1..])
  }

  function Quoted(s: string): string {
    "\"" + Escaped(s) + "\""
  }

  /** The keys of an object in the order they are written. */
  ghost function KeyOrder(keys: set<string>): (order: seq<string>)
    ensures Sorted(order) && multiset(order) == multiset(keys)
    ensures forall j :: 0 <= j < |order| ==> order[j] in keys
    decreases |keys|
  {
    if keys == {} then []
    else
      var k := Least(keys);
      var rest := KeyOrder(keys - {k});
      ListedFirst(keys, k, rest);
      [k] + rest
  }

  lemma ListedFirst(keys: set<string>, k: string, rest: seq<string>)
    requires k in keys && Sorted(rest) && multiset(rest) == multiset(keys - {k})
    requires forall j :: j in keys ==> !Less(j, k)
    requires forall j :: 0 <= j < |rest| ==> rest[j] in keys - {k}
    ensures Sorted([k] + rest) && multiset([k] + rest) == multiset(keys)
    ensures forall j :: 0 <= j < |rest| + 1 ==> ([k] + rest)[j] in keys
  {
    assert multiset(keys) == multiset{k} + multiset(keys - {k});
  }

  ghost function Least(keys: set<string>): (k: string)
    requires keys != {}
    ensures k in keys && forall j :: j in keys ==> !Less(j, k)
    decreases |keys|
  {
    var x :| x in keys;
    LessTotal(x, x);
    if keys - {x} == {} then assert keys == {x}; x
    else
      var y := Least(keys - {x});
      LessTotal(x, y);
      assert Less(x, y) ==> forall j :: j in keys - {x} ==> !Less(j, x) by {
        forall j | j in keys - {x} && Less(x, y) ensures !Less(j, x) {
          if Less(j, x) { LessTotal(x, y); LessTransitive(j, x, y); }
        }
      }
      if Less(x, y) then x else y
  }

  ghost function Print(v: Json): (text: string)
    ensures text != []
    decreases v, 1, 0
  {
    match v
    case Null => "null"
    case Bool(b) => if b then "true" else "false"
    case Number(_, _) => FormatInt(IntOf(v))
    case Fraction(literal) => "?" + literal
    case Str(s) => Quoted(s)
    case Arr(items) => "[" + PrintItems(v, 0) + "]"
    case Obj(fields) => "{" + PrintFields(v, KeyOrder(fields.Keys), 0) + "}"
  }

  function Comma(i: nat): string {
    if i > 0 then "," else ""
  }

  ghost function PrintItems(v: Json, i: nat): string
    requires v.Arr? && i <= |v.items|
    decreases v, 0, |v.items| - i
  {
    if i == |v.items| then "" else Comma(i) + Print(v.items[i]) + PrintItems(v, i + 1)
  }

  ghost function PrintFields(v: Json, keys: seq<string>, i: nat): string
    requires v.Obj? && i <= |keys| && forall j :: 0 <= j < |keys| ==> keys[j] in v.fields
    decreases v, 0, |keys| - i
  {
    if i == |keys| then ""
    else Comma(i) + Quoted(keys[i]) + ":" + Print(v.fields[keys[i]]) + PrintFields(v, keys, i + 1)
  }

  // ----- What the text looks like -----

  predicate Special(c: char) {
    c as int < 0x20 || c == '"' || c == '\\'
  }

  /**
    Quotes and backslashes get a backslash, five control characters a letter after one, every other control character
    six characters that end in its code in hexadecimal, and everything else stands for itself.
   */
  lemma EscapeText(c: char)
    ensures var e, n := Escape(c), c as int;
            if c == '"' || c == '\\' then e == ['\\', c]
            else if n == 8 then e == "\\b"
            else if n == 9 then e == "\\t"
            else if n == 10 then e == "\\n"
            else if n == 12 then e == "\\f"
            else if n == 13 then e == "\\r"
            else if n < 0x20 then |e| == 6 && e[..4] == "\\u00" && HexValue(e[4]) * 16 + HexValue(e[5]) == n
            else e == [c]
    ensures |Escape(c)| > 1 <==> Special(c)
  {
  }

  /** A string is written unchanged, HTML characters and all, if and only if it has no special character. */
  lemma {:induction false} UnchangedIffPlain(s: string)
    ensures Escaped(s) == s <==> forall i :: 0 <= i < |s| ==> !Special(s[i])
    ensures |Escaped(s)| >= |s|
    ensures |Escaped(s)| == |s| ==> Escaped(s) == s
    decreases |s|
  {
    if s != [] {
      EscapeText(s[0]);
      UnchangedIffPlain(s[1..]);
      assert s == [s[0]] + s[1..];
      assert forall i :: 0 < i < |s| ==> s[i] == s[1..][i - 1];
    }
  }

  /** Constants and numbers; a number is its decimal digits after an optional minus sign. */
  lemma ScalarTexts(m: nat, s: string)
    ensures Print(Null) == "null" && Print(Bool(true)) == "true" && Print(Bool(false)) == "false"
    ensures Print(Number(false, m)) == Decimal(m) && (m > 0 ==> Print(Number(true, m)) == "-" + Decimal(m))
    ensures Print(Str(s)) == "\"" + Escaped(s) + "\""
  {
  }

  /** An array is the texts of its items between commas and brackets. */
  lemma ArrayText(v: Json, texts: seq<string>)
    requires v.Arr? && |texts| == |v.items| && forall i :: 0 <= i < |texts| ==> texts[i] == Print(v.items[i])
    ensures Print(v) == "[" + Join(texts, ",") + "]"
  {
    if texts != [] { ItemsJoined(v, texts, 0); }
    assert texts[0..] == texts;
  }

  lemma {:induction false} ItemsJoined(v: Json, texts: seq<string>, i: nat)
    requires v.Arr? && |texts| == |v.items| && i < |texts|
    requires forall j :: 0 <= j < |texts| ==> texts[j] == Print(v.items[j])
    ensures PrintItems(v, i) == Comma(i) + Join(texts[i..], ",")
    decreases |texts| - i
  {
    JoinFirst(texts, i);
    if i + 1 < |texts| {
      ItemsJoined(v, texts, i + 1);
      Associate(Comma(i), texts[i], "," + Join(texts[i + 1..], ","));
    } else {
      assert PrintItems(v, i + 1) == "";
    }
  }

  lemma JoinFirst(texts: seq<string>, i: nat)
    requires i < |texts|
    ensures Join(texts[i..], ",") == texts[i] + if i + 1 < |texts| then "," + Join(texts[i + 1..], ",") else ""
  {
    assert texts[i..][1..] == texts[i + 1..];
    if i + 1 < |texts| { Associate(texts[i], ",", Join(texts[i + 1..], ",")); }
  }

  /** An object is its fields, the keys in ascending order, between commas and braces. */
  lemma ObjectText(v: Json, keys: seq<string>, texts: seq<string>)
    requires v.Obj? && Sorted(keys) && multiset(keys) == multiset(v.fields.Keys) && |texts| == |keys|
    requires forall i :: 0 <= i < |keys| ==> keys[i] in v.fields
    requires forall i :: 0 <= i < |keys| ==> texts[i] == Quoted(keys[i]) + ":" + Print(v.fields[keys[i]])
    ensures Print(v) == "{" + Join(texts, ",") + "}"
  {
    OneKeyOrder(keys, v.fields.Keys);
    AllFields(v, keys, texts);
  }

  lemma AllFields(v: Json, keys: seq<string>, texts: seq<string>)
    requires v.Obj? && |texts| == |keys| && forall i :: 0 <= i < |keys| ==> keys[i] in v.fields
    requires forall i :: 0 <= i < |keys| ==> texts[i] == Quoted(keys[i]) + ":" + Print(v.fields[keys[i]])
    ensures PrintFields(v, keys, 0) == Join(texts, ",")
  {
    if texts != [] {
      FieldsJoined(v, keys, texts, 0);
      assert texts[0..] == texts;
    }
  }

  lemma OneKeyOrder(keys: seq<string>, names: set<string>)
    requires Sorted(keys) && multiset(keys) == multiset(names)
    ensures keys == KeyOrder(names)
  {
    SortedUnique(keys, KeyOrder(names));
  }

  lemma {:induction false} FieldsJoined(v: Json, keys: seq<string>, texts: seq<string>, i: nat)
    requires v.Obj? && |texts| == |keys| && i < |keys| && forall j :: 0 <= j < |keys| ==> keys[j] in v.fields
    requires forall j :: 0 <= j < |keys| ==> texts[j] == Quoted(keys[j]) + ":" + Print(v.fields[keys[j]])
    ensures PrintFields(v, keys, i) == Comma(i) + Join(texts[i..], ",")
    decreases |keys| - i
  {
    JoinFirst(texts, i);
    OneField(v, keys, i, texts[i]);
    if i + 1 < |keys| {
      FieldsJoined(v, keys, texts, i + 1);
      Associate(Comma(i), texts[i], "," + Join(texts[i + 1..], ","));
    } else {
      assert PrintFields(v, keys, i + 1) == "";
    }
  }

  lemma OneField(v: Json, keys: seq<string>, i: nat, text: string)
    requires v.Obj? && i < |keys| && forall j :: 0 <= j < |keys| ==> keys[j] in v.fields
    requires text == Quoted(keys[i]) + ":" + Print(v.fields[keys[i]])
    ensures PrintFields(v, keys, i) == Comma(i) + text + PrintFields(v, keys, i + 1)
  {
    var key, value := Quoted(keys[i]), Print(v.fields[keys[i]]);
    Associate(Comma(i), key, ":");
    Associate(Comma(i), key + ":", value);
  }

  /** `n` arrays around a null. */
  function Nest(n: nat): Json {
    if n == 0 then Null else Arr([Nest(n - 1)])
  }

  /** What the writer accepts: sixteen levels, integers of 53 bits, no fractions, and bounded strings without zeros. */
  lemma PortableLimits(n: nat, m: nat, negative: bool, s: string, nfc: Normal)
    ensures Portable(Nest(n), 0, nfc) <==> n <= 16
    ensures Portable(Number(negative, m), 0, nfc) <==> m < 0x20_0000_0000_0000
    ensures !Portable(Fraction(s), 0, nfc)
    ensures Portable(Str(s), 0, nfc)
        <==> Utf8Length(s) <= 16384 && nfc(s) && forall i :: 0 <= i < |s| ==> s[i] as int > 0
  {
    NestDepth(n, 0, nfc);
  }

  lemma {:induction false} NestDepth(n: nat, depth: nat, nfc: Normal)
    ensures Portable(Nest(n), depth, nfc) <==> n + depth <= 16
    decreases n
  {
    if n > 0 {
      NestDepth(n - 1, depth + 1, nfc);
      assert Nest(n).items[0] == Nest(n - 1);
    }
  }

  // ----- Reading it back -----

  /** The character an escape stands for and the length of the escape. */
  function Unescape(text: string): (r: (char, nat))
    requires text != []
  {
    if text[0] != '\\' || |text| < 2 then (text[0], 1)
    else match text[1]
      case 'b' => (8 as char, 2)
      case 'f' => (12 as char, 2)
      case 'n' => (10 as char, 2)
      case 'r' => (13 as char, 2)
      case 't' => (9 as char, 2)
      case 'u' => if |text| < 6 then (text[0], 1) else ((HexValue(text[4]) * 16 + HexValue(text[5])) as char, 6)
      case c => (c, 2)
  }

  function HexValue(c: char): (n: nat)
    ensures n < 16
  {
    if IsDigit(c) then DigitValue(c) else if 'a' as int <= c as int <= 'f' as int then c as int - 'a' as int + 10 else 0
  }

  lemma UnescapeEscape(c: char, rest: string)
    ensures Unescape(Escape(c) + rest) == (c, |Escape(c)|)
  {
    var text := Escape(c) + rest;
    assert forall i :: 0 <= i < |Escape(c)| ==> text[i] == Escape(c)[i];
  }

  lemma EscapePrefixFree(c: char, d: char, s: string, t: string)
    requires Escape(c) + s == Escape(d) + t
    ensures c == d && s == t
  {
    UnescapeEscape(c, s);
    UnescapeEscape(d, t);
    assert (Escape(c) + s)[|Escape(c)|..] == s && (Escape(d) + t)[|Escape(d)|..] == t;
  }

  lemma {:induction false} QuotedPrefixFree(a: string, b: string, s: string, t: string)
    requires Escaped(a) + ("\"" + s) == Escaped(b) + ("\"" + t)
    ensures a == b && s == t
    decreases |a|
  {
    if a == [] || b == [] {
      QuoteEndsText(a, b, s, t);
    } else {
      Split(a, s);
      Split(b, t);
      EscapePrefixFree(a[0], b[0], Escaped(a[1..]) + ("\"" + s), Escaped(b[1..]) + ("\"" + t));
      QuotedPrefixFree(a[1..], b[1..], s, t);
      assert a == [a[0]] + a[1..] && b == [b[0]] + b[1..];
    }
  }

  lemma Split(a: string, s: string)
    requires a != []
    ensures Escaped(a) + ("\"" + s) == Escape(a[0]) + (Escaped(a[1..]) + ("\"" + s))
  {
    Associate(Escape(a[0]), Escaped(a[1..]), "\"" + s);
  }

  /** No escaped text starts with the closing quote. */
  lemma QuoteEndsText(a: string, b: string, s: string, t: string)
    requires Escaped(a) + ("\"" + s) == Escaped(b) + ("\"" + t)
    requires a == [] || b == []
    ensures a == b && s == t
  {
    FirstOfText(a, s);
    FirstOfText(b, t);
  }

  lemma FirstOfText(a: string, s: string)
    ensures var text := Escaped(a) + ("\"" + s);
            && (a == [] <==> text[0] == '\"')
            && (a == [] ==> text[1..] == s)
  {
    if a == [] {
      assert Escaped(a) + ("\"" + s) == "\"" + s;
    } else {
      Split(a, s);
      assert (Escape(a[0]) + (Escaped(a[1..]) + ("\"" + s)))[0] == Escape(a[0])[0];
    }
  }

  // ----- The text determines the value -----

  /** Minus zero is written as zero; otherwise a value is its own canonical form. */
  function Canon(v: Json): Json {
    match v
    case Number(negative, m) => Number(negative && m != 0, m)
    case Arr(items) => Arr(seq(|items|, i requires 0 <= i < |items| => Canon(items[i])))
    case Obj(fields) => Obj(map k | k in fields :: Canon(fields[k]))
    case _ => v
  }

  ghost predicate Same(v: Json, w: Json) {
    Canon(v) == Canon(w)
  }

  lemma FirstOfPrint(v: Json, depth: nat, nfc: Normal)
    requires Portable(v, depth, nfc)
    ensures match v
            case Null => Print(v)[0] == 'n'
            case Bool(b) => Print(v)[0] == if b then 't' else 'f'
            case Number(_, _) => Print(v)[0] == '-' || IsDigit(Print(v)[0])
            case Str(_) => Print(v)[0] == '\"'
            case Arr(_) => Print(v)[0] == '['
            case Obj(_) => Print(v)[0] == '{'
  {
    if v.Number? { FirstOfFormatInt(IntOf(v)); }
  }

  lemma Cancel(p: string, x: string, y: string)
    requires p + x == p + y
    ensures x == y
  {
    assert (p + x)[|p|..] == x && (p + y)[|p|..] == y;
  }

  lemma ItemsUnfold(v: Json, i: nat, tail: string)
    requires v.Arr? && i < |v.items|
    ensures PrintItems(v, i) + tail == Comma(i) + (Print(v.items[i]) + (PrintItems(v, i + 1) + tail))
  {
    Associate(Comma(i), Print(v.items[i]), PrintItems(v, i + 1) + tail);
    Associate(Comma(i) + Print(v.items[i]), PrintItems(v, i + 1), tail);
  }

  /** What follows the quoted key of field `i`. */
  ghost function AfterKey(v: Json, keys: seq<string>, i: nat, tail: string): string
    requires v.Obj? && i < |keys| && forall j :: 0 <= j < |keys| ==> keys[j] in v.fields
  {
    ":" + (Print(v.fields[keys[i]]) + (PrintFields(v, keys, i + 1) + tail))
  }

  lemma FieldsUnfold(v: Json, keys: seq<string>, i: nat, tail: string)
    requires v.Obj? && i < |keys| && forall j :: 0 <= j < |keys| ==> keys[j] in v.fields
    ensures PrintFields(v, keys, i) + tail
         == Comma(i) + ("\"" + (Escaped(keys[i]) + ("\"" + AfterKey(v, keys, i, tail))))
  {
    var c, k, p, r := Comma(i), Escaped(keys[i]), Print(v.fields[keys[i]]), PrintFields(v, keys, i + 1);
    assert PrintFields(v, keys, i) == c + Quoted(keys[i]) + ":" + p + r;
    Unfold7(c, "\"", k, ":", p, r, tail);
  }

  lemma Unfold7(c: string, q: string, k: string, m: string, p: string, r: string, tail: string)
    ensures c + (q + k + q) + m + p + r + tail == c + (q + (k + (q + (m + (p + (r + tail))))))
  {
    var x := r + tail;
    Associate(c + (q + k + q) + m + p, r, tail);
    Associate(c + (q + k + q) + m, p, x);
    Associate(c + (q + k + q), m, p + x);
    Associate(c, q + k + q, m + (p + x));
    Associate(q + k, q, m + (p + x));
    Associate(q, k, q + (m + (p + x)));
  }

  /** How the rest of an array starts: its end, a comma, or the first item. */
  lemma ItemsStart(v: Json, depth: nat, nfc: Normal, i: nat, s: string)
    requires v.Arr? && Portable(v, depth, nfc) && i <= |v.items|
    ensures var text := PrintItems(v, i) + ("]" + s);
            && (i == |v.items| <==> text[0] == ']')
            && (i == |v.items| ==> text[1..] == s)
            && (0 < i < |v.items| ==> text[0] == ',')
  {
    if i == |v.items| {
      assert PrintItems(v, i) + ("]" + s) == "]" + s;
    } else {
      ItemsUnfold(v, i, "]" + s);
      FirstOfPrint(v.items[i], depth + 1, nfc);
      var item, rest := Print(v.items[i]), PrintItems(v, i + 1) + ("]" + s);
      assert (Comma(i) + (item + rest))[0] == if i > 0 then ',' else item[0];
    }
  }

  lemma FieldsStart(v: Json, depth: nat, nfc: Normal, keys: seq<string>, i: nat, s: string)
    requires v.Obj? && i <= |keys| && forall j :: 0 <= j < |keys| ==> keys[j] in v.fields
    ensures var text := PrintFields(v, keys, i) + ("}" + s);
            && (i == |keys| <==> text[0] == '}')
            && (i == |keys| ==> text[1..] == s)
            && (0 < i < |keys| ==> text[0] == ',')
  {
    if i == |keys| {
      assert PrintFields(v, keys, i) + ("}" + s) == "}" + s;
    } else {
      FieldsUnfold(v, keys, i, "}" + s);
    }
  }

  /** Two accepted values whose texts agree up to what follows are the same value, and so is what follows. */
  lemma {:induction false} PrintPrefixFree(v: Json, w: Json, d: nat, e: nat, nfc: Normal, s: string, t: string)
    requires Portable(v, d, nfc) && Portable(w, e, nfc) && Ends(s) && Ends(t)
    requires Print(v) + s == Print(w) + t
    ensures Same(v, w) && s == t
    decreases v, 1, 0
  {
    FirstOfPrint(v, d, nfc);
    FirstOfPrint(w, e, nfc);
    assert (Print(v) + s)[0] == Print(v)[0] && (Print(w) + t)[0] == Print(w)[0];
    match v
    case Null => Cancel("null", s, t);
    case Bool(b) => Cancel(Print(v), s, t);
    case Number(_, _) => FormatIntPrefixFree(IntOf(v), IntOf(w), s, t);
    case Str(a) =>
      Opened("\"", Escaped(a), "\"", s);
      Opened("\"", Escaped(w.s), "\"", t);
      QuotedPrefixFree(a, w.s, s, t);
    case Arr(items) =>
      Opened("[", PrintItems(v, 0), "]", s);
      Opened("[", PrintItems(w, 0), "]", t);
      ItemsPrefixFree(v, w, d, e, nfc, 0, s, t);
      SameItems(v, w);
    case Obj(fields) =>
      Opened("{", PrintFields(v, KeyOrder(v.fields.Keys), 0), "}", s);
      Opened("{", PrintFields(w, KeyOrder(w.fields.Keys), 0), "}", t);
      FieldsPrefixFree(v, w, d, e, nfc, KeyOrder(v.fields.Keys), KeyOrder(w.fields.Keys), 0, s, t);
      SameFields(v, w, KeyOrder(v.fields.Keys), KeyOrder(w.fields.Keys));
  }

  lemma SameItems(v: Json, w: Json)
    requires v.Arr? && w.Arr? && SameItemsFrom(v.items, w.items, 0)
    ensures Same(v, w)
  {
    assert Canon(v).items == Canon(w).items;
  }

  lemma Opened(open': string, body: string, close: string, s: string)
    requires |open'| == 1
    ensures (open' + body + close + s)[1..] == body + (close + s)
  {
  }

  lemma {:induction false} ItemsPrefixFree(v: Json, w: Json, d: nat, e: nat, nfc: Normal, i: nat, s: string, t: string)
    requires v.Arr? && w.Arr? && Portable(v, d, nfc) && Portable(w, e, nfc) && i <= |v.items| && i <= |w.items|
    requires PrintItems(v, i) + ("]" + s) == PrintItems(w, i) + ("]" + t)
    ensures s == t
    ensures SameItemsFrom(v.items, w.items, i)
    decreases v, 0, |v.items| - i
  {
    ItemsStart(v, d, nfc, i, s);
    ItemsStart(w, e, nfc, i, t);
    if i < |v.items| && i < |w.items| {
      var x, y := PrintItems(v, i + 1) + ("]" + s), PrintItems(w, i + 1) + ("]" + t);
      ItemsUnfold(v, i, "]" + s);
      ItemsUnfold(w, i, "]" + t);
      Cancel(Comma(i), Print(v.items[i]) + x, Print(w.items[i]) + y);
      ItemsStart(v, d, nfc, i + 1, s);
      ItemsStart(w, e, nfc, i + 1, t);
      PrintPrefixFree(v.items[i], w.items[i], d + 1, e + 1, nfc, x, y);
      ItemsPrefixFree(v, w, d, e, nfc, i + 1, s, t);
      SameItemsStep(v.items, w.items, i);
    }
  }

  ghost predicate SameItemsFrom(a: seq<Json>, b: seq<Json>, i: nat) {
    |a| == |b| && forall k :: i <= k < |a| ==> Same(a[k], b[k])
  }

  lemma SameItemsStep(a: seq<Json>, b: seq<Json>, i: nat)
    requires i < |a| && i < |b| && Same(a[i], b[i]) && SameItemsFrom(a, b, i + 1)
    ensures SameItemsFrom(a, b, i)
  {
  }

  ghost predicate SameFieldsFrom(v: map<string, Json>, w: map<string, Json>, ks: seq<string>, ls: seq<string>, i: nat) {
    && |ks| == |ls|
    && (forall k :: i <= k < |ks| ==> ks[k] == ls[k])
    && (forall k :: i <= k < |ks| ==> ks[k] in v && ks[k] in w && Same(v[ks[k]], w[ks[k]]))
  }

  lemma SameFieldsStep(v: map<string, Json>, w: map<string, Json>, ks: seq<string>, ls: seq<string>, i: nat)
    requires i < |ks| && i < |ls| && ks[i] == ls[i] && ks[i] in v && ks[i] in w && Same(v[ks[i]], w[ks[i]])
    requires SameFieldsFrom(v, w, ks, ls, i + 1)
    ensures SameFieldsFrom(v, w, ks, ls, i)
  {
  }

  lemma {:induction false} FieldsPrefixFree(v: Json, w: Json, d: nat, e: nat, nfc: Normal,
                                            ks: seq<string>, ls: seq<string>, i: nat, s: string, t: string)
    requires v.Obj? && w.Obj? && Portable(v, d, nfc) && Portable(w, e, nfc) && i <= |ks| && i <= |ls|
    requires forall j :: 0 <= j < |ks| ==> ks[j] in v.fields
    requires forall j :: 0 <= j < |ls| ==> ls[j] in w.fields
    requires PrintFields(v, ks, i) + ("}" + s) == PrintFields(w, ls, i) + ("}" + t)
    ensures s == t
    ensures SameFieldsFrom(v.fields, w.fields, ks, ls, i)
    decreases v, 0, |ks| - i
  {
    FieldsStart(v, d, nfc, ks, i, s);
    FieldsStart(w, e, nfc, ls, i, t);
    if i < |ks| && i < |ls| {
      var x, y := PrintFields(v, ks, i + 1) + ("}" + s), PrintFields(w, ls, i + 1) + ("}" + t);
      KeyPrefixFree(v, w, ks, ls, i, "}" + s, "}" + t);
      FieldsStart(v, d, nfc, ks, i + 1, s);
      FieldsStart(w, e, nfc, ls, i + 1, t);
      PrintPrefixFree(v.fields[ks[i]], w.fields[ls[i]], d + 1, e + 1, nfc, x, y);
      FieldsPrefixFree(v, w, d, e, nfc, ks, ls, i + 1, s, t);
      SameFieldsStep(v.fields, w.fields, ks, ls, i);
    }
  }

  lemma KeyPrefixFree(v: Json, w: Json, ks: seq<string>, ls: seq<string>, i: nat, s: string, t: string)
    requires v.Obj? && w.Obj? && i < |ks| && i < |ls|
    requires forall j :: 0 <= j < |ks| ==> ks[j] in v.fields
    requires forall j :: 0 <= j < |ls| ==> ls[j] in w.fields
    requires PrintFields(v, ks, i) + s == PrintFields(w, ls, i) + t
    ensures ks[i] == ls[i]
    ensures Print(v.fields[ks[i]]) + (PrintFields(v, ks, i + 1) + s)
            == Print(w.fields[ls[i]]) + (PrintFields(w, ls, i + 1) + t)
  {
    FieldsUnfold(v, ks, i, s);
    FieldsUnfold(w, ls, i, t);
    var a, b := AfterKey(v, ks, i, s), AfterKey(w, ls, i, t);
    Cancel(Comma(i), "\"" + (Escaped(ks[i]) + ("\"" + a)), "\"" + (Escaped(ls[i]) + ("\"" + b)));
    Cancel("\"", Escaped(ks[i]) + ("\"" + a), Escaped(ls[i]) + ("\"" + b));
    QuotedPrefixFree(ks[i], ls[i], a, b);
    Cancel(":", Print(v.fields[ks[i]]) + (PrintFields(v, ks, i + 1) + s),
        Print(w.fields[ls[i]]) + (PrintFields(w, ls, i + 1) + t));
  }

  lemma SameFields(v: Json, w: Json, ks: seq<string>, ls: seq<string>)
    requires v.Obj? && w.Obj? && SameFieldsFrom(v.fields, w.fields, ks, ls, 0)
    requires multiset(ks) == multiset(v.fields.Keys) && multiset(ls) == multiset(w.fields.Keys)
    ensures Same(v, w)
  {
    assert ks == ls;
    assert v.fields.Keys == w.fields.Keys by {
      forall k ensures k in v.fields.Keys <==> k in w.fields.Keys {
        assert k in v.fields.Keys <==> k in multiset(ks);
      }
    }
    forall k | k in v.fields ensures Same(v.fields[k], w.fields[k]) {
      assert k in multiset(ks);
    }
    SameMaps(v, w);
  }

  lemma SameMaps(v: Json, w: Json)
    requires v.Obj? && w.Obj? && v.fields.Keys == w.fields.Keys
    requires forall k :: k in v.fields ==> Same(v.fields[k], w.fields[k])
    ensures Same(v, w)
  {
    assert Canon(v).fields == Canon(w).fields;
  }

  // ----- The writer depends on the canonical form only -----

  lemma {:induction false} PrintCanon(v: Json)
    ensures Print(Canon(v)) == Print(v)
    decreases v, 1, 0
  {
    match v
    case Arr(items) => ItemsCanon(v, 0);
    case Obj(fields) =>
      assert Canon(v).fields.Keys == fields.Keys;
      FieldsCanon(v, KeyOrder(fields.Keys), 0);
    case _ =>
  }

  lemma {:induction false} ItemsCanon(v: Json, i: nat)
    requires v.Arr? && i <= |v.items|
    ensures PrintItems(Canon(v), i) == PrintItems(v, i)
    decreases v, 0, |v.items| - i
  {
    if i < |v.items| {
      PrintCanon(v.items[i]);
      ItemsCanon(v, i + 1);
    }
  }

  lemma {:induction false} FieldsCanon(v: Json, keys: seq<string>, i: nat)
    requires v.Obj? && i <= |keys| && forall j :: 0 <= j < |keys| ==> keys[j] in v.fields
    ensures PrintFields(Canon(v), keys, i) == PrintFields(v, keys, i)
    decreases v, 0, |keys| - i
  {
    if i < |keys| {
      PrintCanon(v.fields[keys[i]]);
      FieldsCanon(v, keys, i + 1);
    }
  }

  /** Two accepted values have the same text if and only if they are equal up to the sign of zero. */
  lemma SameTextIffSameValue(v: Json, w: Json, nfc: Normal)
    requires Portable(v, 0, nfc) && Portable(w, 0, nfc)
    ensures Print(v) == Print(w) <==> Same(v, w)
  {
    PrintCanon(v);
    PrintCanon(w);
    if Print(v) == Print(w) {
      PrintPrefixFree(v, w, 0, 0, nfc, "", "");
    }
  }

  /** The sign of zero is indeed lost: two different accepted literals share a text. */
  lemma MinusZeroIsZero(nfc: Normal)
    ensures Portable(Number(true, 0), 0, nfc) && Portable(Number(false, 0), 0, nfc)
    ensures Number(true, 0) != Number(false, 0) && Print(Number(true, 0)) == Print(Number(false, 0)) == "0"
  {
  }

  // ----- The writer -----

  method WriteString(out: string, s: string, nfc: Normal) returns (r: string, ok: bool)
    ensures ok <==> PortableString(s, nfc)
    ensures ok ==> r == out + Quoted(s)
  {
    r := out;
    if Utf8Length(s) > MAX_STRING || (exists i :: 0 <= i < |s| && s[i] as int == 0) || !nfc(s) { return r, false; }
    r := r + "\"";
    for i := 0 to |s|
      invariant r + Escaped(s[i..]) == out + "\"" + Escaped(s)
    {
      assert s[i..][1..] == s[i + 1..];
      Associate(r, Escape(s[i]), Escaped(s[i + 1..]));
      r := r + Escape(s[i]);
    }
    assert r + Escaped(s[|s|..]) == r;
    Associate(out, "\"" + Escaped(s), "\"");
    Associate(out, "\"", Escaped(s));
    return r + "\"", true;
  }

  /** The keys in whatever order the map yields them, then sorted. */
  method SortedKeys(fields: map<string, Json>) returns (keys: seq<string>)
    ensures keys == KeyOrder(fields.Keys)
  {
    var left, listed: seq<string> := fields.Keys, [];
    while left != {}
      invariant left <= fields.Keys && multiset(listed) + multiset(left) == multiset(fields.Keys)
      decreases left
    {
      var k :| k in left;
      assert multiset(left) == multiset{k} + multiset(left - {k});
      listed, left := listed + [k], left - {k};
    }
    var a := new string[|listed|](i requires 0 <= i < |listed| => listed[i]);
    assert a[..] == listed;
    SortStrings(a);
    keys := a[..];
    SortedUnique(keys, KeyOrder(fields.Keys));
  }

  /** Appends the canonical text of an accepted value, and fails on exactly the others. */
  method WritePortableJson(out: string, value: Json, depth: nat, nfc: Normal) returns (r: string, ok: bool)
    ensures ok <==> Portable(value, depth, nfc)
    ensures ok ==> r == out + Print(value)
    decreases value, 1
  {
    r, ok := out, true;
    if depth > MAX_DEPTH { return r, false; }
    match value
    case Null => r := r + "null";
    case Bool(b) => r := r + if b then "true" else "false";
    case Number(_, m) =>
      if m > MAX_INTEGER { return r, false; }
      r := r + FormatInt(IntOf(value));
    case Fraction(_) => ok := false;
    case Str(s) => r, ok := WriteString(r, s, nfc);
    case Arr(_) => r, ok := WriteItems(r + "[", value, depth, nfc);
      Associate(out, "[", PrintItems(value, 0) + "]");
      Associate("[", PrintItems(value, 0), "]");
    case Obj(fields) => r, ok := WriteFields(r + "{", value, depth, nfc);
      Associate(out, "{", PrintFields(value, KeyOrder(fields.Keys), 0) + "}");
      Associate("{", PrintFields(value, KeyOrder(fields.Keys), 0), "}");
  }

  method WriteItems(out: string, value: Json, depth: nat, nfc: Normal) returns (r: string, ok: bool)
    requires value.Arr? && depth <= MAX_DEPTH
    ensures ok <==> Portable(value, depth, nfc)
    ensures ok ==> r == out + (PrintItems(value, 0) + "]")
    decreases value, 0
  {
    r := out;
    for i := 0 to |value.items|
      invariant forall j :: 0 <= j < i ==> Portable(value.items[j], depth + 1, nfc)
      invariant r + (PrintItems(value, i) + "]") == out + (PrintItems(value, 0) + "]")
    {
      ItemsUnfold(value, i, "]");
      var item := r + Comma(i);
      ghost var rest := PrintItems(value, i + 1) + "]";
      Associate(r, Comma(i), Print(value.items[i]) + rest);
      r, ok := WritePortableJson(item, value.items[i], depth + 1, nfc);
      if !ok { return; }
      Associate(item, Print(value.items[i]), rest);
    }
    assert PrintItems(value, |value.items|) + "]" == "]";
    return r + "]", true;
  }

  method WriteFields(out: string, value: Json, depth: nat, nfc: Normal) returns (r: string, ok: bool)
    requires value.Obj? && depth <= MAX_DEPTH
    ensures ok <==> Portable(value, depth, nfc)
    ensures ok ==> r == out + (PrintFields(value, KeyOrder(value.fields.Keys), 0) + "}")
    decreases value, 0
  {
    var keys := SortedKeys(value.fields);
    r := out;
    for i := 0 to |keys|
      invariant forall j :: 0 <= j < i ==> PortableField(value, keys[j], depth, nfc)
      invariant r + (PrintFields(value, keys, i) + "}") == out + (PrintFields(value, keys, 0) + "}")
    {
      r, ok := WriteField(r, value, keys, i, depth, nfc);
      if !ok { return; }
    }
    AllFieldsPortable(value, keys, depth, nfc);
    assert PrintFields(value, keys, |keys|) + "}" == "}";
    return r + "}", true;
  }

  predicate PortableField(v: Json, k: string, depth: nat, nfc: Normal)
    requires v.Obj? && k in v.fields
  {
    depth + 1 <= MAX_DEPTH && PortableString(k, nfc) && Portable(v.fields[k], depth + 1, nfc)
  }

  method WriteField(out: string, value: Json, keys: seq<string>, i: nat, depth: nat, nfc: Normal)
    returns (r: string, ok: bool)
    requires value.Obj? && i < |keys| && forall j :: 0 <= j < |keys| ==> keys[j] in value.fields
    ensures ok <==> PortableField(value, keys[i], depth, nfc)
    ensures ok ==> r + (PrintFields(value, keys, i + 1) + "}") == out + (PrintFields(value, keys, i) + "}")
    decreases value, 0, 0
  {
    if depth + 1 > MAX_DEPTH { return out, false; }
    r, ok := WriteString(out + Comma(i), keys[i], nfc);
    if !ok { return; }
    r, ok := WritePortableJson(r + ":", value.fields[keys[i]], depth + 1, nfc);
    if ok { FieldWritten(value, keys, i, out); }
  }

  lemma FieldWritten(v: Json, keys: seq<string>, i: nat, r: string)
    requires v.Obj? && i < |keys| && forall j :: 0 <= j < |keys| ==> keys[j] in v.fields
    ensures r + Comma(i) + Quoted(keys[i]) + ":" + Print(v.fields[keys[i]]) + (PrintFields(v, keys, i + 1) + "}")
         == r + (PrintFields(v, keys, i) + "}")
  {
    var c, q, p, rest := Comma(i), Quoted(keys[i]), Print(v.fields[keys[i]]), PrintFields(v, keys, i + 1);
    Associate(r, c, q);
    Associate(r, c + q, ":");
    Associate(r, c + q + ":", p);
    Regroup(r, c + q + ":" + p, rest, "}");
    Associate(r, c + q + ":" + p + rest, "}");
  }

  lemma AllFieldsPortable(value: Json, keys: seq<string>, depth: nat, nfc: Normal)
    requires value.Obj? && keys == KeyOrder(value.fields.Keys) && depth <= MAX_DEPTH
    requires forall j :: 0 <= j < |keys| ==> keys[j] in value.fields && PortableField(value, keys[j], depth, nfc)
    ensures Portable(value, depth, nfc)
  {
    AllListed(value.fields, keys);
    assert forall k :: k in value.fields ==> PortableField(value, k, depth, nfc);
  }

  lemma AllListed(fields: map<string, Json>, keys: seq<string>)
    requires keys == KeyOrder(fields.Keys)
    ensures forall k :: k in fields ==> exists j :: 0 <= j < |keys| && keys[j] == k
  {
    forall k | k in fields ensures exists j :: 0 <= j < |keys| && keys[j] == k {
      assert k in multiset(keys);
    }
  }
}
