/** The domain-separated, length-prefixed byte strings that every signature of the control plane covers. */
module SignedFields {
  import opened Bytes

  /** The five purposes for which an identity key signs. */
  datatype Domain = ControlAuth | ClientAccess | AgentAccess | LpdRequest | LpdOffer

  function Name(d: Domain): string {
    match d
    case ControlAuth => "shadow6-control-auth-v1"
    case ClientAccess => "shadow6-client-access-v1"
    case AgentAccess => "shadow6-agent-access-v1"
    case LpdRequest => "shadow6-lpd-request-v1"
    case LpdOffer => "shadow6-lpd-offer-v1"
  }

  function Ascii(s: string): (b: seq<byte>)
    ensures |b| == |s|
  {
    seq(|s|, i requires 0 <= i < |s| => s[i] as int % 256)
  }

  function EncodeFields(fields: seq<seq<byte>>): seq<byte> {
    if fields == [] then [] else Be32(|fields[0]|) + fields[0] + EncodeFields(fields[1..])
  }

  function Payload(d: Domain, fields: seq<seq<byte>>): seq<byte> {
    Ascii(Name(d)) + EncodeFields(fields)
  }

  /** The layout: the name of the purpose, then for each field its length and itself. */
  lemma PayloadLayout(d: Domain, fields: seq<seq<byte>>, last: seq<byte>)
    ensures Payload(d, []) == Ascii(Name(d))
    ensures Payload(d, fields + [last]) == Payload(d, fields) + Be32(|last|) + last
  {
    FieldsAppend(fields, last);
    Associate(Ascii(Name(d)), EncodeFields(fields), Be32(|last|) + last);
    Associate(Payload(d, fields), Be32(|last|), last);
  }

  lemma {:induction false} FieldsAppend(fields: seq<seq<byte>>, last: seq<byte>)
    ensures EncodeFields(fields + [last]) == EncodeFields(fields) + (Be32(|last|) + last)
    decreases |fields|
  {
    if fields == [] {
      assert [last][1..] == [] && fields + [last] == [last];
    } else {
      FieldsAppend(fields[1..], last);
      assert (fields + [last])[1..] == fields[1..] + [last];
      Associate(Be32(|fields[0]|) + fields[0], EncodeFields(fields[1..]), Be32(|last|) + last);
    }
  }

  method BuildPayload(d: Domain, fields: seq<seq<byte>>) returns (result: seq<byte>)
    ensures result == Payload(d, fields)
  {
    result := Ascii(Name(d));
    for i := 0 to |fields|
      invariant result + EncodeFields(fields[i..]) == Payload(d, fields)
    {
      assert fields[i..][0] == fields[i] && fields[i..][1..] == fields[i + 1..];
      Associate(result, Be32(|fields[i]|) + fields[i], EncodeFields(fields[i + 1..]));
      Associate(result, Be32(|fields[i]|), fields[i]);
      result := result + Be32(|fields[i]|);
      result := result + fields[i];
    }
    assert result + EncodeFields(fields[|fields|..]) == result;
  }

  /** Reads the fields back; `None` if the bytes end within a field. */
  function DecodeFields(b: seq<byte>): (r: Option<seq<seq<byte>>>)
    ensures r.Some? ==> Small(r.value)
    decreases |b|
  {
    if b == [] then Some([])
    else if |b| < 4 || |b| < 4 + FromBe32(b[..4]) then None
    else
      var n := FromBe32(b[..4]);
      match DecodeFields(b[4 + n..])
      case None => None
      case Some(rest) => Some([b[4..4 + n]] + rest)
  }

  /** Every length fits the 32-bit prefix. */
  predicate Small(fields: seq<seq<byte>>) {
    forall i :: 0 <= i < |fields| ==> |fields[i]| < TWO_32
  }

  /** The fields can be read back if and only if their lengths fit; a longer one wraps its prefix. */
  lemma FieldsRoundTrip(fields: seq<seq<byte>>)
    ensures DecodeFields(EncodeFields(fields)) == Some(fields) <==> Small(fields)
  {
    if Small(fields) { SmallRoundTrip(fields); }
  }

  lemma {:induction false} SmallRoundTrip(fields: seq<seq<byte>>)
    requires Small(fields)
    ensures DecodeFields(EncodeFields(fields)) == Some(fields)
    decreases |fields|
  {
    if fields != [] {
      SmallRoundTrip(fields[1..]);
      DecodeFirst(fields[0], EncodeFields(fields[1..]));
      assert fields == [fields[0]] + fields[1..];
    }
  }

  lemma DecodeFirst(f: seq<byte>, rest: seq<byte>)
    requires |f| < TWO_32 && DecodeFields(rest).Some?
    ensures DecodeFields(Be32(|f|) + f + rest) == Some([f] + DecodeFields(rest).value)
  {
    Be32Small(|f|);
    DecodeAfter(Be32(|f|), f, rest);
  }

  lemma DecodeAfter(prefix: seq<byte>, f: seq<byte>, rest: seq<byte>)
    requires |prefix| == 4 && FromBe32(prefix) == |f| && DecodeFields(rest).Some?
    ensures DecodeFields(prefix + f + rest) == Some([f] + DecodeFields(rest).value)
  {
    var b := prefix + f + rest;
    assert b[..4] == prefix && b[4..4 + |f|] == f && b[4 + |f|..] == rest;
  }

  /** A field of exactly 2^32 bytes reads as an empty field and the fields encoded in it. */
  lemma LongFieldCollides(y: seq<byte>)
    requires |y| == TWO_32 - 4
    ensures EncodeFields([Be32(|y|) + y]) == EncodeFields([[], y])
  {
    var x := Be32(|y|) + y;
    assert |x| == TWO_32;
    assert Be32(|x|) == Be32(0) by { Be32Injective(|x|, 0); }
    var one, two, last: seq<seq<byte>> := [x], [[], y], [y];
    assert one[1..] == [] && two[1..] == last && last[1..] == [];
    Associate(Be32(0), [], x);
  }

  lemma SameFields(f: seq<seq<byte>>, g: seq<seq<byte>>)
    requires Small(f) && Small(g) && EncodeFields(f) == EncodeFields(g)
    ensures f == g
  {
    FieldsRoundTrip(f);
    FieldsRoundTrip(g);
  }

  /** No domain name begins like another, so no signature of one purpose passes for another. */
  lemma DomainsDiffer(d: Domain, e: Domain, x: seq<byte>, y: seq<byte>)
    requires Ascii(Name(d)) + x == Ascii(Name(e)) + y
    ensures d == e
  {
    var a, b := Ascii(Name(d)) + x, Ascii(Name(e)) + y;
    assert forall i :: 0 <= i < |Name(d)| ==> a[i] == Name(d)[i] as int % 256;
    assert forall i :: 0 <= i < |Name(e)| ==> b[i] == Name(e)[i] as int % 256;
    assert a[8] == b[8] && a[9] == b[9] && a[12] == b[12];
  }

  /** Equal signed bytes mean the same purpose and the same fields. */
  lemma PayloadDetermines(d: Domain, f: seq<seq<byte>>, e: Domain, g: seq<seq<byte>>)
    requires Small(f) && Small(g) && Payload(d, f) == Payload(e, g)
    ensures d == e && f == g
  {
    DomainsDiffer(d, e, EncodeFields(f), EncodeFields(g));
    var n := |Name(d)|;
    assert Payload(d, f)[n..] == EncodeFields(f) && Payload(e, g)[n..] == EncodeFields(g);
    SameFields(f, g);
  }
}
