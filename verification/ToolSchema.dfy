/** Tool argument checking, and the strict form of a tool's schema that is advertised to models. */
module ToolSchema {
  import opened Bytes

  const MAX_REQUEST: int := 65536

  /** A decoded JSON value. */
  datatype Value =
    | Null
    | Bool(b: bool)
    | Int(n: int)
    | Float(r: real)
    | Str(s: string)
    | List(items: seq<Value>)
    | Dict(fields: map<string, Value>)

  datatype Kind = Object | Array | String | Boolean | Integer | NullKind | OtherKind

  /** The `type` of a schema: absent, one kind, or a list of alternatives. */
  datatype Type = NoType | One(kind: Kind) | AnyOf(kinds: seq<Kind>)

  /** `listed` says whether the schema lists properties at all; bounds default as in the checker. */
  datatype Schema = Schema(
    kind: Type,
    allowed: Option<seq<Value>>,
    listed: bool, properties: map<string, Schema>,
    required: set<string>,
    closed: bool,
    items: Option<Schema>,
    minItems: int, maxItems: int, maxLength: int, minimum: int, maximum: int)

  /** A schema with only a type. */
  function Plain(kind: Type): Schema {
    Schema(kind, None, false, map[], {}, false, None, 0, MAX_REQUEST, MAX_REQUEST, -MAX_REQUEST, MAX_REQUEST)
  }

  // ----- Checking -----

  function Numeric(v: Value): Option<real> {
    match v
    case Bool(b) => Some(if b then 1.0 else 0.0)
    case Int(n) => Some(n as real)
    case Float(r) => Some(r)
    case _ => None
  }

  /** Equality as the `in` test of the checker sees it: booleans are numbers. */
  predicate Equal(a: Value, b: Value) {
    match (a, b)
    case (Null, Null) => true
    case (Str(s), Str(t)) => s == t
    case (List(x), List(y)) => |x| == |y| && forall i :: 0 <= i < |x| ==> i < |y| && Equal(x[i], y[i])
    case (Dict(x), Dict(y)) => x.Keys == y.Keys && forall k :: k in x ==> k in y && Equal(x[k], y[k])
    case _ => Numeric(a).Some? && Numeric(a) == Numeric(b)
  }

  predicate IsAllowed(v: Value, allowed: Option<seq<Value>>) {
    allowed.Some? ==> exists i :: 0 <= i < |allowed.value| && Equal(v, allowed.value[i])
  }

  predicate HasKind(v: Value, kind: Kind) {
    match kind
    case Object => v.Dict?
    case Array => v.List?
    case String => v.Str?
    case Boolean => v.Bool?
    case Integer => v.Int?
    case NullKind => v.Null?
    case OtherKind => true
  }

  /** What `_validate_input` accepts. */
  predicate Accepts(c: Schema, v: Value)
    decreases c, 1
  {
    match c.kind
    case NoType => IsAllowed(v, c.allowed)
    case One(kind) => AcceptsAs(c, v, kind)
    case AnyOf(kinds) => exists i :: 0 <= i < |kinds| && AcceptsAs(c, v, kinds[i])
  }

  predicate AcceptsAs(c: Schema, v: Value, kind: Kind)
    decreases c, 0
  {
    && HasKind(v, kind)
    && IsAllowed(v, c.allowed)
    && match kind
       case Object =>
         && (c.closed ==> v.fields.Keys <= if c.listed then c.properties.Keys else {})
         && c.required <= v.fields.Keys
         && (forall k :: k in v.fields && c.listed && k in c.properties ==> Accepts(c.properties[k], v.fields[k]))
       case Array =>
         && c.minItems <= |v.items| <= c.maxItems
         && (c.items.Some? ==> forall i :: 0 <= i < |v.items| ==> Accepts(c.items.value, v.items[i]))
       case String => |v.s| <= c.maxLength
       case Integer => c.minimum <= v.n <= c.maximum
       case _ => true
  }

  // ----- What each keyword adds -----

  /** A schema with only a type: each kind takes its own values, within the bounds that hold by default. */
  lemma PlainAccepts(kind: Kind, v: Value)
    ensures Accepts(Plain(One(kind)), v) <==>
              || kind.OtherKind?
              || match v
                 case Null => kind.NullKind?
                 case Bool(_) => kind.Boolean?
                 case Int(n) => kind.Integer? && -65536 <= n <= 65536
                 case Float(_) => false
                 case Str(s) => kind.String? && |s| <= 65536
                 case List(items) => kind.Array? && |items| <= 65536
                 case Dict(_) => kind.Object?
  {
  }

  /** All types are ones the checker knows; of others it checks nothing but the enumeration. */
  predicate Typed(c: Schema) {
    match c.kind
    case NoType => false
    case One(kind) => !kind.OtherKind?
    case AnyOf(kinds) => OtherKind !in kinds
  }

  /** If being of any one kind is the same but for a condition on the value, so is acceptance. */
  lemma ForEachKind(c: Schema, d: Schema, v: Value, condition: bool)
    requires Typed(c) && d.kind == c.kind
    requires forall kind: Kind :: !kind.OtherKind? ==> (AcceptsAs(d, v, kind) <==> AcceptsAs(c, v, kind) && condition)
    ensures Accepts(d, v) <==> Accepts(c, v) && condition
  {
    if c.kind.AnyOf? {
      var kinds := c.kind.kinds;
      assert forall i :: 0 <= i < |kinds| ==> (AcceptsAs(d, v, kinds[i]) <==> AcceptsAs(c, v, kinds[i]) && condition);
    }
  }

  predicate Within(c: Schema, v: Value) {
    match v
    case Int(n) => c.minimum <= n <= c.maximum
    case Str(s) => |s| <= c.maxLength
    case List(items) => c.minItems <= |items| <= c.maxItems
    case _ => true
  }

  /** Tighter bounds take away exactly the values outside them. */
  lemma BoundsDecide(c: Schema, d: Schema, v: Value)
    requires Typed(c) && d == c.(minItems := d.minItems, maxItems := d.maxItems, maxLength := d.maxLength,
                                 minimum := d.minimum, maximum := d.maximum)
    requires c.minItems <= d.minItems && d.maxItems <= c.maxItems && d.maxLength <= c.maxLength
    requires c.minimum <= d.minimum && d.maximum <= c.maximum
    ensures Accepts(d, v) <==> Accepts(c, v) && Within(d, v)
  {
    ForEachKind(c, d, v, Within(d, v));
  }

  /** An enumeration takes away exactly the values that equal none of its members. */
  lemma EnumerationDecides(c: Schema, v: Value, allowed: seq<Value>)
    requires Typed(c) && c.allowed == None
    ensures Accepts(c.(allowed := Some(allowed)), v)
        <==> Accepts(c, v) && exists i :: 0 <= i < |allowed| && Equal(v, allowed[i])
  {
    ForEachKind(c, c.(allowed := Some(allowed)), v, exists i :: 0 <= i < |allowed| && Equal(v, allowed[i]));
  }

  /** Requiring more properties takes away exactly the objects without them. */
  lemma RequiredDecides(c: Schema, v: Value, more: set<string>)
    requires Typed(c)
    ensures Accepts(c.(required := c.required + more), v) <==> Accepts(c, v) && (v.Dict? ==> more <= v.fields.Keys)
  {
    ForEachKind(c, c.(required := c.required + more), v, v.Dict? ==> more <= v.fields.Keys);
  }

  /** Closing a schema takes away exactly the objects with properties it does not list. */
  lemma ClosingDecides(c: Schema, v: Value)
    requires Typed(c) && c.listed
    ensures Accepts(c.(closed := true), v) <==> Accepts(c, v) && (v.Dict? ==> v.fields.Keys <= c.properties.Keys)
  {
    ForEachKind(c, c.(closed := true), v, v.Dict? ==> v.fields.Keys <= c.properties.Keys);
  }

  /** Listing a property of an open schema takes away exactly the objects whose own value of it is not accepted. */
  lemma PropertyDecides(c: Schema, v: Value, k: string, p: Schema)
    requires Typed(c) && c.listed && !c.closed && k !in c.properties
    ensures Accepts(c.(properties := c.properties[k := p]), v)
        <==> Accepts(c, v) && (v.Dict? && k in v.fields ==> Accepts(p, v.fields[k]))
  {
    ForEachKind(c, c.(properties := c.properties[k := p]), v, v.Dict? && k in v.fields ==> Accepts(p, v.fields[k]));
  }

  /** A schema for the items takes away exactly the lists with an item it does not accept. */
  lemma ItemsDecide(c: Schema, v: Value, p: Schema)
    requires Typed(c) && c.items == None
    ensures Accepts(c.(items := Some(p)), v)
        <==> Accepts(c, v) && (v.List? ==> forall i :: 0 <= i < |v.items| ==> Accepts(p, v.items[i]))
  {
    ForEachKind(c, c.(items := Some(p)), v, v.List? ==> forall i :: 0 <= i < |v.items| ==> Accepts(p, v.items[i]));
  }

  // ----- The strict form -----

  /** Adds null to the alternatives of an optional property. */
  function Nullable(c: Schema): Schema
    requires !c.kind.NoType?
  {
    c.(kind := if c.kind.One? then AnyOf([c.kind.kind, NullKind]) else AnyOf(c.kind.kinds + [NullKind]),
       allowed := if c.allowed.Some? then Some(c.allowed.value + [Null]) else None)
  }

  /** The strict form of a schema. `None` if a part of it is a free-form object or an optional property has no type. */
  function Strict(c: Schema): Option<Schema> {
    if c.kind == One(Object) then
      if !c.listed then None
      else
        var props := c.properties;
        if exists k :: k in props
             && (Strict(props[k]).None? || (k !in c.required && Strict(props[k]).value.kind.NoType?)) then None
        else Some(c.(properties := map k | k in props ::
                       if k in c.required then Strict(props[k]).value else Nullable(Strict(props[k]).value),
                     required := props.Keys, closed := true))
    else if c.kind == One(Array) && c.items.Some? then
      match Strict(c.items.value)
      case None => None
      case Some(items) => Some(c.(items := Some(items)))
    else Some(c)
  }

  /** No part of the schema is a free-form object, and every optional property has a type. */
  ghost predicate Convertible(c: Schema) {
    && (c.kind == One(Object) ==>
        && c.listed
        && forall k :: k in c.properties ==>
             Convertible(c.properties[k]) && (k in c.required || !c.properties[k].kind.NoType?))
    && (c.kind == One(Array) && c.items.Some? ==> Convertible(c.items.value))
  }

  /** Exactly these schemas have a strict form, which has the same type. */
  lemma {:induction false} StrictIffConvertible(c: Schema)
    ensures Strict(c).Some? <==> Convertible(c)
    ensures Strict(c).Some? ==> Strict(c).value.kind == c.kind
  {
    if c.kind == One(Object) && c.listed {
      forall k | k in c.properties
        ensures (Strict(c.properties[k]).Some? <==> Convertible(c.properties[k]))
          && (Strict(c.properties[k]).Some? ==> Strict(c.properties[k]).value.kind == c.properties[k].kind)
      {
        StrictIffConvertible(c.properties[k]);
      }
    } else if c.kind == One(Array) && c.items.Some? {
      StrictIffConvertible(c.items.value);
    }
  }

  /** Drops the nulls that stand for omitted properties. */
  function WithoutNulls(fields: map<string, Value>): map<string, Value> {
    map k | k in fields && fields[k] != Null :: fields[k]
  }

  lemma NullEquality(v: Value)
    ensures Equal(v, Null) <==> v == Null
  {
  }

  lemma AllowedWithNull(v: Value, allowed: seq<Value>)
    ensures IsAllowed(v, Some(allowed + [Null])) <==> v == Null || IsAllowed(v, Some(allowed))
  {
    NullEquality(v);
    var more := allowed + [Null];
    if i :| 0 <= i < |allowed| && Equal(v, allowed[i]) { assert Equal(v, more[i]); }
    if v == Null { assert Equal(v, more[|allowed|]); }
    if i :| 0 <= i < |more| && Equal(v, more[i]) { assert i < |allowed| ==> Equal(v, allowed[i]); }
  }

  /** A nullable schema accepts null, and of the other values exactly what the schema itself accepts. */
  lemma NullableAccepts(c: Schema, v: Value)
    requires !c.kind.NoType?
    ensures Accepts(Nullable(c), v) <==> v == Null || Accepts(c, v)
  {
    var d := Nullable(c);
    if c.allowed.Some? { AllowedWithNull(v, c.allowed.value); }
    var kinds := if c.kind.One? then [c.kind.kind] else c.kind.kinds;
    assert d.kind == AnyOf(kinds + [NullKind]);
    if v == Null {
      assert (kinds + [NullKind])[|kinds|] == NullKind && AcceptsAs(d, v, NullKind);
    } else {
      forall kind ensures AcceptsAs(d, v, kind) <==> AcceptsAs(c, v, kind) {
        SameAsKind(c, d, v, kind);
      }
      assert !AcceptsAs(d, v, NullKind);
      SomeKind(c, d, v, kinds);
      assert c.kind.One? ==> kinds[0] == c.kind.kind && (Accepts(c, v) <==> AcceptsAs(c, v, kinds[0]));
    }
  }

  /** Two schemas that differ in their types and in allowing null agree on every other value as one kind. */
  lemma SameAsKind(c: Schema, d: Schema, v: Value, kind: Kind)
    requires IsAllowed(v, d.allowed) <==> IsAllowed(v, c.allowed)
    requires d == c.(kind := d.kind, allowed := d.allowed)
    ensures AcceptsAs(d, v, kind) <==> AcceptsAs(c, v, kind)
  {
  }

  lemma SomeKind(c: Schema, d: Schema, v: Value, kinds: seq<Kind>)
    requires forall kind :: AcceptsAs(d, v, kind) <==> AcceptsAs(c, v, kind)
    requires !AcceptsAs(d, v, NullKind)
    ensures (exists i :: 0 <= i < |kinds + [NullKind]| && AcceptsAs(d, v, (kinds + [NullKind])[i]))
        <==> (exists i :: 0 <= i < |kinds| && AcceptsAs(c, v, kinds[i]))
  {
    var more := kinds + [NullKind];
    if i :| 0 <= i < |kinds| && AcceptsAs(c, v, kinds[i]) { assert AcceptsAs(d, v, more[i]); }
    if i :| 0 <= i < |more| && AcceptsAs(d, v, more[i]) { assert i < |kinds| ==> AcceptsAs(c, v, kinds[i]); }
  }

  // ----- Where the strict form keeps the meaning -----

  /** The strict form of an object keeps its properties, requires them all and allows no others. */
  lemma StrictShape(c: Schema, v: Value)
    requires c.kind == One(Object) && Strict(c).Some?
    ensures var d := Strict(c).value;
            && d.properties.Keys == c.properties.Keys
            && (Accepts(d, v) <==> v.Dict? && IsAllowed(v, c.allowed) && v.fields.Keys == c.properties.Keys
                                   && forall k :: k in v.fields ==> Accepts(d.properties[k], v.fields[k]))
  {
    var d := Strict(c).value;
    assert d.kind == One(Object) && d.listed && d.closed && d.allowed == c.allowed && d.required == c.properties.Keys;
    assert Accepts(d, v) <==> AcceptsAs(d, v, Object);
  }

  lemma StrictProperty(c: Schema, k: string, v: Value)
    requires c.kind == One(Object) && Strict(c).Some? && k in c.properties
    ensures k in Strict(c).value.properties && Strict(c.properties[k]).Some?
    ensures Accepts(Strict(c).value.properties[k], v)
        <==> (k !in c.required && v == Null) || Accepts(Strict(c.properties[k]).value, v)
  {
    assert Strict(c.properties[k]).Some?;
    if k !in c.required { NullableAccepts(Strict(c.properties[k]).value, v); }
  }

  /**
    In objects at any depth, required properties are listed ones, and an optional property is null only where
    its own schema takes null.
   */
  ghost predicate NullsFit(c: Schema, v: Value)
    decreases c
  {
    if c.kind == One(Object) && v.Dict? then
      && c.required <= c.properties.Keys
      && forall k :: k in v.fields && k in c.properties ==>
           if k !in c.required && v.fields[k] == Null then Accepts(c.properties[k], Null)
           else NullsFit(c.properties[k], v.fields[k])
    else if c.kind == One(Array) && v.List? && c.items.Some? then
      forall i :: 0 <= i < |v.items| ==> NullsFit(c.items.value, v.items[i])
    else true
  }

  /** A value that satisfies the strict form satisfies the schema if and only if its nulls fit. */
  lemma {:induction false} StrictIsValidIff(c: Schema, v: Value)
    requires Strict(c).Some? && Accepts(Strict(c).value, v)
    ensures Accepts(c, v) <==> NullsFit(c, v)
    decreases c
  {
    if c.kind == One(Object) {
      StrictShape(c, v);
      forall k | k in v.fields ensures Accepts(c.properties[k], v.fields[k])
                 <==> if k !in c.required && v.fields[k] == Null then Accepts(c.properties[k], Null)
                  else NullsFit(c.properties[k], v.fields[k])
      {
        StrictProperty(c, k, v.fields[k]);
        if k in c.required || v.fields[k] != Null { StrictIsValidIff(c.properties[k], v.fields[k]); }
      }
      assert Accepts(c, v) <==> AcceptsAs(c, v, Object);
    } else if c.kind == One(Array) && c.items.Some? {
      forall i | 0 <= i < |v.items|
        ensures Accepts(c.items.value, v.items[i]) <==> NullsFit(c.items.value, v.items[i])
      {
        StrictIsValidIff(c.items.value, v.items[i]);
      }
    }
  }

  /** Objects at any depth have exactly the listed properties, with null for the optional ones they lack. */
  ghost predicate Complete(c: Schema, v: Value)
    decreases c
  {
    if c.kind == One(Object) && v.Dict? then
      && v.fields.Keys == c.properties.Keys
      && forall k :: k in v.fields ==>
           (k !in c.required && v.fields[k] == Null) || Complete(c.properties[k], v.fields[k])
    else if c.kind == One(Array) && v.List? && c.items.Some? then
      forall i :: 0 <= i < |v.items| ==> Complete(c.items.value, v.items[i])
    else true
  }

  /** A value that satisfies the schema satisfies the strict form if and only if it is complete. */
  lemma {:induction false} ValidIsStrictIff(c: Schema, v: Value)
    requires Strict(c).Some? && Accepts(c, v)
    ensures Accepts(Strict(c).value, v) <==> Complete(c, v)
    decreases c
  {
    if c.kind == One(Object) {
      StrictShape(c, v);
      assert AcceptsAs(c, v, Object);
      if v.fields.Keys == c.properties.Keys {
        var d := Strict(c).value;
        forall k | k in v.fields ensures Accepts(d.properties[k], v.fields[k])
                   <==> (k !in c.required && v.fields[k] == Null) || Complete(c.properties[k], v.fields[k])
        {
          StrictProperty(c, k, v.fields[k]);
          ValidIsStrictIff(c.properties[k], v.fields[k]);
        }
      }
    } else if c.kind == One(Array) && c.items.Some? {
      assert AcceptsAs(c, v, Array);
      forall i | 0 <= i < |v.items|
        ensures Accepts(Strict(c.items.value).value, v.items[i]) <==> Complete(c.items.value, v.items[i])
      {
        ValidIsStrictIff(c.items.value, v.items[i]);
      }
    }
  }

  // ----- Tool calls -----

  /**
    Arguments that satisfy the strict form of any object schema satisfy the schema itself after their nulls are
    dropped, if and only if no required property is among those nulls, the nulls below the top fit,
    and an enumeration of whole arguments, if there is one, lists what is left.
   */
  lemma StrictArgumentsAreValid(c: Schema, fields: map<string, Value>)
    requires c.kind == One(Object) && Strict(c).Some? && Accepts(Strict(c).value, Dict(fields))
    ensures Accepts(c, Dict(WithoutNulls(fields)))
        <==> && (forall k :: k in c.required ==> k in fields && fields[k] != Null)
             && (forall k :: k in fields && k in c.properties && fields[k] != Null
                  ==> NullsFit(c.properties[k], fields[k]))
             && IsAllowed(Dict(WithoutNulls(fields)), c.allowed)
  {
    var kept := WithoutNulls(fields);
    StrictShape(c, Dict(fields));
    forall k | k in kept
      ensures k in c.properties && (Accepts(c.properties[k], kept[k]) <==> NullsFit(c.properties[k], fields[k]))
    {
      StrictProperty(c, k, fields[k]);
      StrictIsValidIff(c.properties[k], fields[k]);
    }
    assert kept.Keys <= c.properties.Keys;
    assert c.required <= kept.Keys <==> forall k :: k in c.required ==> k in fields && fields[k] != Null;
    assert Accepts(c, Dict(kept)) <==> AcceptsAs(c, Dict(kept), Object);
  }

  /** Fills in null for every omitted property. */
  function Padded(c: Schema, fields: map<string, Value>): map<string, Value> {
    map k | k in c.properties :: if k in fields then fields[k] else Null
  }

  /** Only listed properties, with complete values, and no enumeration of whole arguments that leaves them out. */
  ghost predicate Whole(c: Schema, fields: map<string, Value>) {
    && fields.Keys <= c.properties.Keys
    && (forall k :: k in fields ==> Complete(c.properties[k], fields[k]))
    && IsAllowed(Dict(Padded(c, fields)), c.allowed)
  }

  /**
    Conversely, accepted arguments without nulls come from strict arguments if and only if they are whole:
    they use listed properties only, which a closed schema guarantees, and the values of these are complete.
   */
  lemma ValidArgumentsAreReached(c: Schema, fields: map<string, Value>)
    requires c.kind == One(Object) && Strict(c).Some? && Accepts(c, Dict(fields))
    requires forall k :: k in fields ==> fields[k] != Null
    ensures c.closed ==> fields.Keys <= c.properties.Keys
    ensures Whole(c, fields) <==> exists args :: Accepts(Strict(c).value, Dict(args)) && WithoutNulls(args) == fields
  {
    var d := Strict(c).value;
    assert AcceptsAs(c, Dict(fields), Object);
    if Whole(c, fields) {
      PaddedIsStrict(c, fields);
      var args := Padded(c, fields);
      assert Accepts(d, Dict(args)) && WithoutNulls(args) == fields;
    }
    forall args | Accepts(d, Dict(args)) && WithoutNulls(args) == fields ensures Whole(c, fields) {
      ReachedIsWhole(c, fields, args);
    }
  }

  lemma ReachedIsWhole(c: Schema, fields: map<string, Value>, args: map<string, Value>)
    requires c.kind == One(Object) && Strict(c).Some? && Accepts(c, Dict(fields))
    requires Accepts(Strict(c).value, Dict(args)) && WithoutNulls(args) == fields
    ensures Whole(c, fields)
  {
    assert AcceptsAs(c, Dict(fields), Object);
    StrictShape(c, Dict(args));
    forall k | k in fields ensures k in c.properties && Complete(c.properties[k], fields[k]) {
      assert k in WithoutNulls(args) && args[k] == fields[k];
      StrictProperty(c, k, args[k]);
      ValidIsStrictIff(c.properties[k], fields[k]);
    }
    assert args == Padded(c, fields);
  }

  lemma PaddedIsStrict(c: Schema, fields: map<string, Value>)
    requires c.kind == One(Object) && Strict(c).Some? && Accepts(c, Dict(fields))
    requires forall k :: k in fields ==> fields[k] != Null
    requires Whole(c, fields)
    ensures Accepts(Strict(c).value, Dict(Padded(c, fields))) && WithoutNulls(Padded(c, fields)) == fields
  {
    assert WithoutNulls(Padded(c, fields)) == fields;
    var d, args := Strict(c).value, Padded(c, fields);
    assert AcceptsAs(c, Dict(fields), Object);
    StrictShape(c, Dict(args));
    forall k | k in args ensures Accepts(d.properties[k], args[k]) {
      StrictProperty(c, k, args[k]);
      if k in fields {
        assert Accepts(c.properties[k], fields[k]);
        ValidIsStrictIff(c.properties[k], fields[k]);
      }
    }
  }

  function Closed(properties: map<string, Schema>, required: set<string>): Schema {
    Plain(One(Object)).(listed := true, properties := properties, required := required, closed := true)
  }

  /**
    Only the top level is rid of nulls: here an optional property of a nested object is null, which the
    strict form asks for and the schema refuses.
   */
  lemma NestedNullSurvives()
    ensures var inner := Closed(map["p" := Plain(One(String))], {});
            var outer := Closed(map["o" := inner], {"o"});
            var args := map["o" := Dict(map["p" := Null])];
            && Strict(outer).Some? && Accepts(Strict(outer).value, Dict(args))
            && !Accepts(outer, Dict(WithoutNulls(args)))
  {
    var inner := Closed(map["p" := Plain(One(String))], {});
    var nested := Dict(map["p" := Null]);
    StrictText(inner, nested);
    Wrapped(inner, nested);
  }

  lemma {:induction false} Wrapped(inner: Schema, nested: Value)
    requires Strict(inner).Some? && Accepts(Strict(inner).value, nested) && !Accepts(inner, nested) && nested != Null
    ensures var outer := Closed(map["o" := inner], {"o"});
            var args := map["o" := nested];
            && Strict(outer).Some? && Accepts(Strict(outer).value, Dict(args))
            && !Accepts(outer, Dict(WithoutNulls(args)))
  {
    var outer := Closed(map["o" := inner], {"o"});
    var args := map["o" := nested];
    assert outer.properties["o"] == inner && Strict(outer).Some?;
    StrictShape(outer, Dict(args));
    StrictProperty(outer, "o", nested);
    assert WithoutNulls(args) == args;
    assert !AcceptsAs(outer, Dict(args), Object);
  }

  lemma StrictText(inner: Schema, nested: Value)
    requires inner == Closed(map["p" := Plain(One(String))], {}) && nested == Dict(map["p" := Null])
    ensures Strict(inner).Some? && Accepts(Strict(inner).value, nested) && !Accepts(inner, nested)
  {
    var text := Plain(One(String));
    assert Strict(text) == Some(text) && inner.properties["p"] == text;
    var d := Strict(inner).value;
    assert d.properties["p"] == Nullable(text) && d.properties.Keys == {"p"};
    NullableAccepts(text, Null);
    assert AcceptsAs(d, nested, Object);
    assert !Accepts(text, Null) && nested.fields["p"] == Null;
  }
}
