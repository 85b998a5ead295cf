/** `ToJson`: encoding a value of a described type as a jsoncpp tree. */
module Encoding {
  import opened JsonValue
  import opened Descriptor

  /** The node kind each overload produces. */
  predicate Shaped(t: Ty, r: Json) {
    match t
    case SignedT(_) => r.Int?
    case UnsignedT(_) => r.UInt?
    case BoolT => r.Bool?
    case StrT => r.String?
    case VecT(_) => r.Null? || (r.Array? && |r.items| > 0)
    case StructT(_) => r.Object?
  }

  /** `ToJson(s)`: the overload `t` selects. Signed numbers become signed
      nodes and unsigned numbers unsigned ones, at full width. A `bool`
      becomes a bool node and a struct always an object node: the source
      differs in both places (see README, Findings). */
  function Encode(t: Ty, v: Val): (r: Json)
    requires HasType(v, t)
    ensures Shaped(t, r)
    decreases t, 2
  {
    match t
    case SignedT(_) => Int(v.n)
    case UnsignedT(_) => UInt(v.n)
    case BoolT => Bool(v.b)
    case StrT => String(v.s)
    case VecT(e) => EncodeVector(e, v.items)
    case StructT(ms) => EncodeStruct(ms, v.fields)
  }

  /** The vector overload: null for an empty vector, otherwise an array of
      the encoded elements. */
  function EncodeVector(e: Ty, vs: seq<Val>): (r: Json)
    requires forall i :: 0 <= i < |vs| ==> HasType(vs[i], e)
    ensures r.Null? <==> |vs| == 0
    ensures r.Array? ==> |r.items| == |vs|
    decreases VecT(e), 1
  {
    if |vs| == 0 then Null else Array(EncodeItems(e, vs, |vs|))
  }

  function EncodeItems(e: Ty, vs: seq<Val>, n: nat): (r: seq<Json>)
    requires n <= |vs| && forall i :: 0 <= i < |vs| ==> HasType(vs[i], e)
    ensures |r| == n
    decreases VecT(e), 0, n
  {
    if n == 0 then [] else EncodeItems(e, vs, n - 1) + [Encode(e, vs[n - 1])]
  }

  /** The struct overload: an object with one entry per field. */
  function EncodeStruct(ms: seq<Member>, fs: seq<Val>): (r: Json)
    requires |fs| == FieldCount(ms) && FieldsTyped(ms, |ms|, fs)
    ensures r.Object?
    decreases StructT(ms), 1
  {
    Object(EncodeMembers(ms, |ms|, fs))
  }

  /** The entries that the walk over `ms[..n]` writes; a later field of a
      repeated name replaces an earlier one. */
  function EncodeMembers(ms: seq<Member>, n: nat, fs: seq<Val>): (r: map<string, Json>)
    requires n <= |ms| && FieldsTyped(ms, n, fs)
    ensures forall k :: k in r ==> exists i :: 0 <= i < n && ms[i].Field? && ms[i].name == k
    decreases StructT(ms), 0, n
  {
    if n == 0 then map[]
    else
      var prefix := EncodeMembers(ms, n - 1, fs);
      match ms[n - 1]
      case NonField(_) => prefix
      case Field(name, ft) => prefix[name := Encode(ft, fs[FieldPos(ms, n - 1)])]
  }

  /** `ToJson(s)`: dispatch on the overload. */
  method ToJson(t: Ty, v: Val) returns (r: Json)
    requires HasType(v, t)
    ensures r == Encode(t, v)
    decreases t, 2
  {
    match t {
      case SignedT(_) => r := Int(v.n);
      case UnsignedT(_) => r := UInt(v.n);
      case BoolT => r := Bool(v.b);
      case StrT => r := String(v.s);
      case VecT(e) => r := ToJsonVector(e, v.items);
      case StructT(ms) => r := ToJsonStruct(ms, v.fields);
    }
  }

  /** The vector overload's loop: start from a null node and assign
      `v[idx]` for each index in turn. */
  method ToJsonVector(e: Ty, s: seq<Val>) returns (v: Json)
    requires forall i :: 0 <= i < |s| ==> HasType(s[i], e)
    ensures v == EncodeVector(e, s)
    decreases VecT(e), 1
  {
    v := Null;
    var idx := 0;
    while idx < |s|
      invariant 0 <= idx <= |s|
      invariant v == if idx == 0 then Null else Array(EncodeItems(e, s, idx))
    {
      var x := ToJson(e, s[idx]);
      v := SetIndex(v, idx, x);
      idx := idx + 1;
    }
  }

  /** The struct overload's walk: assign `v[name]` for each field in
      declaration order, skipping the other described entries. */
  method ToJsonStruct(ms: seq<Member>, fs: seq<Val>) returns (v: Json)
    requires |fs| == FieldCount(ms) && FieldsTyped(ms, |ms|, fs)
    ensures v == EncodeStruct(ms, fs)
    decreases StructT(ms), 1
  {
    v := Object(map[]);
    var i := 0;
    while i < |ms|
      invariant 0 <= i <= |ms|
      invariant FieldsTyped(ms, i, fs)
      invariant v == Object(EncodeMembers(ms, i, fs))
    {
      FieldsTypedPrefix(ms, i + 1, |ms|, fs);
      if ms[i].Field? {
        FieldsTypedAt(ms, |ms|, fs, i);
        var x := ToJson(ms[i].ty, fs[FieldPos(ms, i)]);
        v := SetKey(v, ms[i].name, x);
      }
      i := i + 1;
    }
  }
}
