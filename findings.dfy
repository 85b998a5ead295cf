/** The conversion engine as the source writes it, next to the corrected
    engine of `Decoding` and `Encoding`. Three places depart from what the
    engine promises (decoding undoes encoding; a missing field keeps its
    default): `bool` encodes as a number, a struct without fields encodes
    as null, and `T r;` leaves absent scalar fields indeterminate.
    `EncodeAsWritten` and `DecodeAsWritten` are the whole as-written engine,
    recursing into themselves at every level; each is proved equal to the
    corrected engine wherever the departures cannot arise, and the inputs
    that expose each departure are exhibited. */
module Findings {
  import opened Outcome
  import opened JsonValue
  import opened Descriptor
  import opened Decoding
  import opened Encoding
  import opened Properties

  // ================================================= the encoder as written

  /** The arithmetic `ToJson` as written: `std::is_unsigned_v<bool>` holds,
      so a `bool` is stored as the unsigned number 0 or 1. */
  function EncodeArithAsWritten(t: Ty, v: Val): (r: Json)
    requires IsArithmetic(t) && HasType(v, t)
    ensures t.SignedT? ==> r == Int(v.n)
    ensures t.UnsignedT? ==> r == UInt(v.n)
    ensures t.BoolT? ==> r == UInt(if v.b then 1 else 0)
  {
    match t
    case SignedT(_) => Int(v.n)
    case UnsignedT(_) => UInt(v.n)
    case BoolT => UInt(if v.b then 1 else 0)
  }

  /** `ToJson(s)` as written, at every nesting level. */
  function EncodeAsWritten(t: Ty, v: Val): (r: Json)
    requires HasType(v, t)
    ensures t.BoolT? ==> r.UInt?
    ensures t.StructT? ==> (r.Null? <==> FieldCount(t.members) == 0)
    decreases t, 2
  {
    match t
    case StrT => String(v.s)
    case VecT(e) => VectorAsWritten(e, v.items)
    case StructT(ms) => WriteFromNull(ms, |ms|, v.fields)
    case _ => EncodeArithAsWritten(t, v)
  }

  /** The vector `ToJson` loop, from a null node, with the elements encoded
      as written. */
  function VectorAsWritten(e: Ty, vs: seq<Val>): (r: Json)
    requires forall i :: 0 <= i < |vs| ==> HasType(vs[i], e)
    ensures r.Null? <==> |vs| == 0
    ensures r.Array? ==> |r.items| == |vs|
    decreases VecT(e), 1
  {
    if |vs| == 0 then Null else Array(ItemsAsWritten(e, vs, |vs|))
  }

  function ItemsAsWritten(e: Ty, vs: seq<Val>, n: nat): (r: seq<Json>)
    requires n <= |vs| && forall i :: 0 <= i < |vs| ==> HasType(vs[i], e)
    ensures |r| == n
    decreases VecT(e), 0, n
  {
    if n == 0 then [] else ItemsAsWritten(e, vs, n - 1) + [EncodeAsWritten(e, vs[n - 1])]
  }

  /** The struct `ToJson` walk as written: it starts from a null node, so
      a description without fields leaves it null. */
  function WriteFromNull(ms: seq<Member>, n: nat, fs: seq<Val>): (r: Json)
    requires n <= |ms| && FieldsTyped(ms, n, fs)
    ensures r.Null? <==> FieldPos(ms, n) == 0
    ensures r.Null? || r.Object?
    decreases StructT(ms), 0, n
  {
    if n == 0 then Null
    else
      var prev := WriteFromNull(ms, n - 1, fs);
      match ms[n - 1]
      case NonField(_) => prev
      case Field(name, ft) => SetKey(prev, name, EncodeAsWritten(ft, fs[FieldPos(ms, n - 1)]))
  }

  /** The types where the as-written encoder cannot depart from the
      corrected one: no `bool` and no struct without fields, at any level. */
  predicate EncodesAsIntended(t: Ty)
    decreases t
  {
    match t
    case BoolT => false
    case VecT(e) => EncodesAsIntended(e)
    case StructT(ms) =>
      && FieldCount(ms) > 0
      && forall i :: 0 <= i < |ms| && ms[i].Field? ==> EncodesAsIntended(ms[i].ty)
    case _ => true
  }

  lemma {:induction false} NoFieldsWriteNothing(ms: seq<Member>, n: nat, fs: seq<Val>)
    requires n <= |ms| && FieldsTyped(ms, n, fs) && FieldPos(ms, n) == 0
    ensures EncodeMembers(ms, n, fs) == map[]
    decreases n
  {
    if n > 0 {
      NoFieldsWriteNothing(ms, n - 1, fs);
    }
  }

  /** Where no `bool` and no struct without fields occurs, the as-written
      encoder produces exactly the corrected encoding. */
  lemma {:induction false} EncodeAgrees(t: Ty, v: Val)
    requires EncodesAsIntended(t) && HasType(v, t)
    ensures EncodeAsWritten(t, v) == Encode(t, v)
    decreases t, 2
  {
    match t
    case VecT(e) =>
      if |v.items| > 0 {
        ItemsAgree(e, v.items, |v.items|);
      }
    case StructT(ms) =>
      WriteFromNullAgrees(ms, |ms|, v.fields);
    case SignedT(_) =>
    case UnsignedT(_) =>
    case StrT =>
  }

  lemma {:induction false} ItemsAgree(e: Ty, vs: seq<Val>, n: nat)
    requires EncodesAsIntended(e) && n <= |vs| && forall i :: 0 <= i < |vs| ==> HasType(vs[i], e)
    ensures ItemsAsWritten(e, vs, n) == EncodeItems(e, vs, n)
    decreases VecT(e), 0, n
  {
    if n > 0 {
      ItemsAgree(e, vs, n - 1);
      EncodeAgrees(e, vs[n - 1]);
    }
  }

  /** The walk from null gives null while no field has been written, and
      afterwards the object holding exactly the corrected walk's entries. */
  lemma {:induction false} WriteFromNullAgrees(ms: seq<Member>, n: nat, fs: seq<Val>)
    requires n <= |ms| && FieldsTyped(ms, n, fs)
    requires forall i :: 0 <= i < |ms| && ms[i].Field? ==> EncodesAsIntended(ms[i].ty)
    ensures WriteFromNull(ms, n, fs) == if FieldPos(ms, n) == 0 then Null else Object(EncodeMembers(ms, n, fs))
    decreases StructT(ms), 0, n
  {
    if n > 0 {
      WriteFromNullAgrees(ms, n - 1, fs);
      if ms[n - 1].Field? {
        EncodeAgrees(ms[n - 1].ty, fs[FieldPos(ms, n - 1)]);
        if FieldPos(ms, n - 1) == 0 {
          NoFieldsWriteNothing(ms, n - 1, fs);
        }
      }
    }
  }

  // ================================================= the decoder as written

  /** What default-initialisation (`T r;`) may leave in an object of type
      `t`: any value in an arithmetic member, an empty string or vector in
      a class-type member, and members of a nested struct likewise. Every
      such instance is a value of the type. */
  predicate DefaultInitialized(v: Val, t: Ty): (b: bool)
    ensures b ==> HasType(v, t)
    ensures b && (t.StrT? || t.VecT?) ==> v == Default(t)
    decreases t, 2
  {
    match t
    case StrT => v == VStr("")
    case VecT(_) => v == VVec([])
    case StructT(ms) => v.VStruct? && |v.fields| == FieldCount(ms) && FieldsDefaultInitialized(ms, |ms|, v.fields)
    case _ => HasType(v, t)
  }

  predicate FieldsDefaultInitialized(ms: seq<Member>, n: nat, fs: seq<Val>): (b: bool)
    requires n <= |ms|
    ensures b ==> FieldsTyped(ms, n, fs)
    decreases StructT(ms), 0, n
  {
    if n == 0 then true
    else
      && FieldsDefaultInitialized(ms, n - 1, fs)
      && (ms[n - 1].Field? ==>
            FieldPos(ms, n - 1) < |fs| && DefaultInitialized(fs[FieldPos(ms, n - 1)], ms[n - 1].ty))
  }

  /** `init(ms)` is the instance that `T r;` leaves for the struct type
      described by `ms`; an admissible choice gives every struct type an
      instance that default-initialisation may produce. */
  ghost predicate Admissible(init: seq<Member> -> seq<Val>) {
    forall ms :: |init(ms)| == FieldCount(ms) && FieldsDefaultInitialized(ms, |ms|, init(ms))
  }

  /** `FromJson<T>(j)` as written, at every nesting level: each struct
      decode starts from the instance `init` assigns to its type. */
  function DecodeAsWritten(t: Ty, j: Json, init: seq<Member> -> seq<Val>): (r: Result<Val>)
    requires Admissible(init)
    ensures r.Ok? ==> HasType(r.value, t)
    ensures !t.VecT? && !t.StructT? ==> r == Decode(t, j)
    decreases t, 2
  {
    match t
    case VecT(e) => VectorDecodeAsWritten(e, j, init)
    case StructT(ms) => StructDecodeAsWritten(ms, j, init)
    case _ => Decode(t, j)
  }

  function VectorDecodeAsWritten(e: Ty, j: Json, init: seq<Member> -> seq<Val>): (r: Result<Val>)
    requires Admissible(init)
    ensures r.Ok? ==> HasType(r.value, VecT(e))
    ensures IsEmpty(j) ==> r == Ok(VVec([]))
    decreases VecT(e), 1
  {
    if IsEmpty(j) then Ok(VVec([]))
    else if !j.Array? then
      match DecodeAsWritten(e, j, init)
      case Ok(v) => Ok(VVec([v]))
      case Err(x) => Err(x)
    else
      match ItemsDecodeAsWritten(e, j.items, |j.items|, init)
      case Ok(vs) => Ok(VVec(vs))
      case Err(x) => Err(x)
  }

  function ItemsDecodeAsWritten(e: Ty, items: seq<Json>, n: nat, init: seq<Member> -> seq<Val>): (r: Result<seq<Val>>)
    requires n <= |items| && Admissible(init)
    ensures r.Ok? ==> |r.value| == n && forall i :: 0 <= i < n ==> HasType(r.value[i], e)
    decreases VecT(e), 0, n
  {
    if n == 0 then Ok([])
    else
      match ItemsDecodeAsWritten(e, items, n - 1, init)
      case Err(x) => Err(x)
      case Ok(vs) =>
        match DecodeAsWritten(e, items[n - 1], init)
        case Err(x) => Err(x)
        case Ok(v) => Ok(vs + [v])
  }

  /** The struct `FromJson` as written: the walk starts from `T r;`. */
  function StructDecodeAsWritten(ms: seq<Member>, j: Json, init: seq<Member> -> seq<Val>): (r: Result<Val>)
    requires Admissible(init)
    ensures r.Ok? ==> HasType(r.value, StructT(ms))
    ensures !j.Object? ==> r == Err(TypeMismatch(JsonObject))
    decreases StructT(ms), 1
  {
    if !j.Object? then Err(TypeMismatch(JsonObject))
    else
      match MembersDecodeAsWritten(ms, |ms|, j, init, init(ms))
      case Ok(fs) => Ok(VStruct(fs))
      case Err(x) => Err(x)
  }

  function MembersDecodeAsWritten(ms: seq<Member>, n: nat, j: Json, init: seq<Member> -> seq<Val>, start: seq<Val>): (r: Result<seq<Val>>)
    requires j.Object? && n <= |ms| && FieldPos(ms, n) <= |start| && Admissible(init)
    ensures r.Ok? ==> |r.value| == |start|
    ensures r.Ok? && FieldsTyped(ms, |ms|, start) ==> FieldsTyped(ms, |ms|, r.value)
    decreases StructT(ms), 0, n
  {
    if n == 0 then Ok(start)
    else
      match MembersDecodeAsWritten(ms, n - 1, j, init, start)
      case Err(x) => Err(x)
      case Ok(cur) =>
        match ms[n - 1]
        case NonField(_) => Ok(cur)
        case Field(name, ft) =>
          match JsonResolve(j, name)
          case None => Ok(cur)
          case Some(node) =>
            match DecodeAsWritten(ft, node, init)
            case Err(x) => Err(x)
            case Ok(v) =>
              FieldsTypedUpdate(ms, |ms|, cur, n - 1, v);
              Ok(cur[FieldPos(ms, n - 1) := v])
  }

  /** The value-initialised instances, `T r{};` for every struct type. */
  function ValueInit(): (init: seq<Member> -> seq<Val>)
    ensures forall ms :: init(ms) == DefaultFields(ms, |ms|)
  {
    ms => DefaultFields(ms, |ms|)
  }

  /** The value-initialised default is one of the instances `T r;` may
      produce. */
  lemma {:induction false} DefaultIsDefaultInitialized(t: Ty)
    ensures DefaultInitialized(Default(t), t)
    decreases t, 2
  {
    match t
    case StructT(ms) => DefaultFieldsAreDefaultInitialized(ms, |ms|);
    case _ =>
  }

  lemma {:induction false} DefaultFieldsAreDefaultInitialized(ms: seq<Member>, n: nat)
    requires n <= |ms|
    ensures FieldsDefaultInitialized(ms, n, DefaultFields(ms, n))
    decreases StructT(ms), 0, n
  {
    if n > 0 {
      DefaultFieldsAreDefaultInitialized(ms, n - 1);
      FieldsDefaultInitializedExtend(ms, n - 1, DefaultFields(ms, n - 1), if ms[n - 1].Field? then [Default(ms[n - 1].ty)] else []);
      if ms[n - 1].Field? {
        DefaultIsDefaultInitialized(ms[n - 1].ty);
      }
    }
  }

  lemma {:induction false} FieldsDefaultInitializedExtend(ms: seq<Member>, n: nat, fs: seq<Val>, more: seq<Val>)
    requires n <= |ms| && FieldsDefaultInitialized(ms, n, fs)
    ensures FieldsDefaultInitialized(ms, n, fs + more)
    decreases n
  {
    if n > 0 {
      FieldsDefaultInitializedExtend(ms, n - 1, fs, more);
    }
  }

  lemma ValueInitAdmissible()
    ensures Admissible(ValueInit())
  {
    forall ms: seq<Member>
      ensures |ValueInit()(ms)| == FieldCount(ms) && FieldsDefaultInitialized(ms, |ms|, ValueInit()(ms))
    {
      DefaultFieldsAreDefaultInitialized(ms, |ms|);
    }
  }

  /** Where the nested decodes agree with the corrected ones, the as-written
      element loop agrees with the corrected one. */
  lemma {:induction false} ItemsDecodeAgree(e: Ty, items: seq<Json>, n: nat, init: seq<Member> -> seq<Val>)
    requires n <= |items| && Admissible(init)
    requires forall i :: 0 <= i < n ==> DecodeAsWritten(e, items[i], init) == Decode(e, items[i])
    ensures ItemsDecodeAsWritten(e, items, n, init) == DecodeItems(e, items, n)
    decreases n
  {
    if n > 0 {
      ItemsDecodeAgree(e, items, n - 1, init);
      var x := DecodeAsWritten(e, items[n - 1], init);
      assert x == Decode(e, items[n - 1]);
    }
  }

  /** Where the nested decodes of the present fields agree with the
      corrected ones, the as-written field walk from `start` is the
      corrected walk from `start`. */
  lemma {:induction false} MembersDecodeAgree(ms: seq<Member>, n: nat, j: Json, init: seq<Member> -> seq<Val>, start: seq<Val>)
    requires j.Object? && n <= |ms| && FieldPos(ms, n) <= |start| && Admissible(init)
    requires forall i :: 0 <= i < n && Present(ms, i, j) ==>
               DecodeAsWritten(ms[i].ty, j.members[ms[i].name], init) == FieldDecode(ms, i, j)
    ensures MembersDecodeAsWritten(ms, n, j, init, start) == DecodeMembers(ms, n, j, start)
    decreases n
  {
    if n > 0 {
      FieldPosMono(ms, n - 1, n);
      MembersDecodeAgree(ms, n - 1, j, init, start);
    }
  }

  /** The corrected decoder is the as-written one with every `T r;`
      replaced by the value-initialising `T r{};`. */
  lemma {:induction false} DecodeWithValueInit(t: Ty, j: Json)
    ensures Admissible(ValueInit())
    ensures DecodeAsWritten(t, j, ValueInit()) == Decode(t, j)
    decreases t, 2
  {
    ValueInitAdmissible();
    var init := ValueInit();
    match t
    case VecT(e) =>
      if !IsEmpty(j) {
        if j.Array? {
          forall i | 0 <= i < |j.items|
            ensures DecodeAsWritten(e, j.items[i], init) == Decode(e, j.items[i])
          {
            DecodeWithValueInit(e, j.items[i]);
          }
          ItemsDecodeAgree(e, j.items, |j.items|, init);
        } else {
          DecodeWithValueInit(e, j);
        }
      }
    case StructT(ms) =>
      if j.Object? {
        forall i | 0 <= i < |ms| && Present(ms, i, j)
          ensures DecodeAsWritten(ms[i].ty, j.members[ms[i].name], init) == FieldDecode(ms, i, j)
        {
          DecodeWithValueInit(ms[i].ty, j.members[ms[i].name]);
        }
        MembersDecodeAgree(ms, |ms|, j, init, init(ms));
      }
    case _ =>
  }

  /** Every node the decode of `t` reads supplies every field name of every
      struct on the way: absent fields, the only place `T r;` shows, never
      arise. */
  predicate Complete(t: Ty, j: Json)
    decreases t
  {
    match t
    case VecT(e) =>
      if IsEmpty(j) then true
      else if !j.Array? then Complete(e, j)
      else forall i :: 0 <= i < |j.items| ==> Complete(e, j.items[i])
    case StructT(ms) =>
      j.Object? ==>
        forall i :: 0 <= i < |ms| && ms[i].Field? ==>
          ms[i].name in j.members && Complete(ms[i].ty, j.members[ms[i].name])
    case _ => true
  }

  /** Where the walk starts from slots that every field overwrites, the
      start does not matter: the walk fails the same way from any two of
      them, or fills the same slots. */
  lemma {:induction false} MembersIndependentOfInit(ms: seq<Member>, n: nat, j: Json, a: seq<Val>, b: seq<Val>)
    requires j.Object? && n <= |ms| && FieldPos(ms, n) <= |a| == |b|
    requires forall i :: 0 <= i < n && ms[i].Field? ==> ms[i].name in j.members
    ensures DecodeMembers(ms, n, j, a).Ok? <==> DecodeMembers(ms, n, j, b).Ok?
    ensures DecodeMembers(ms, n, j, a).Err? ==> DecodeMembers(ms, n, j, a) == DecodeMembers(ms, n, j, b)
    ensures DecodeMembers(ms, n, j, a).Ok? ==>
              DecodeMembers(ms, n, j, a).value[..FieldPos(ms, n)] == DecodeMembers(ms, n, j, b).value[..FieldPos(ms, n)]
    decreases n
  {
    if n > 0 {
      MembersIndependentOfInit(ms, n - 1, j, a, b);
      var ra, rb := DecodeMembers(ms, n - 1, j, a), DecodeMembers(ms, n - 1, j, b);
      if ra.Ok? && ms[n - 1].Field? {
        var p := FieldPos(ms, n - 1);
        var x := Decode(ms[n - 1].ty, j.members[ms[n - 1].name]);
        if x.Ok? {
          assert ra.value[p := x.value][..p + 1] == ra.value[..p] + [x.value];
          assert rb.value[p := x.value][..p + 1] == rb.value[..p] + [x.value];
        }
      }
    }
  }

  /** On a complete document the as-written decoder, whatever `T r;`
      leaves, gives exactly the corrected decoding. */
  lemma {:induction false} CompleteAgrees(t: Ty, j: Json, init: seq<Member> -> seq<Val>)
    requires Admissible(init) && Complete(t, j)
    ensures DecodeAsWritten(t, j, init) == Decode(t, j)
    decreases t, 2
  {
    match t
    case VecT(e) =>
      if !IsEmpty(j) {
        if j.Array? {
          forall i | 0 <= i < |j.items|
            ensures DecodeAsWritten(e, j.items[i], init) == Decode(e, j.items[i])
          {
            CompleteAgrees(e, j.items[i], init);
          }
          ItemsDecodeAgree(e, j.items, |j.items|, init);
        } else {
          CompleteAgrees(e, j, init);
        }
      }
    case StructT(ms) =>
      if j.Object? {
        forall i | 0 <= i < |ms| && Present(ms, i, j)
          ensures DecodeAsWritten(ms[i].ty, j.members[ms[i].name], init) == FieldDecode(ms, i, j)
        {
          CompleteAgrees(ms[i].ty, j.members[ms[i].name], init);
        }
        var a, d := init(ms), DefaultFields(ms, |ms|);
        MembersDecodeAgree(ms, |ms|, j, init, a);
        MembersIndependentOfInit(ms, |ms|, j, a, d);
        var ra, rd := DecodeMembers(ms, |ms|, j, a), DecodeMembers(ms, |ms|, j, d);
        if ra.Ok? {
          assert ra.value == ra.value[..|a|];
          assert rd.value == rd.value[..|a|];
        }
      }
    case _ =>
  }

  /** The corrected encoding of a value is a complete document. */
  lemma {:induction false} EncodingIsComplete(t: Ty, v: Val)
    requires WellFormed(t) && HasType(v, t)
    ensures Complete(t, Encode(t, v))
    decreases t, 2
  {
    match t
    case VecT(e) =>
      VectorEncoding(e, v.items);
      forall i | 0 <= i < |v.items|
        ensures Complete(e, Encode(e, v.items[i]))
      {
        EncodingIsComplete(e, v.items[i]);
      }
    case StructT(ms) =>
      var j := Encode(t, v);
      forall i | 0 <= i < |ms| && ms[i].Field?
        ensures ms[i].name in j.members && Complete(ms[i].ty, j.members[ms[i].name])
      {
        StructEncodingEntries(ms, v.fields, i);
        EncodingIsComplete(ms[i].ty, v.fields[FieldPos(ms, i)]);
      }
    case _ =>
  }

  /** The program as written round-trips every value of a well-formed type
      with no `bool` and no struct without fields, whatever `T r;` leaves. */
  lemma RoundTripAsWritten(t: Ty, v: Val, init: seq<Member> -> seq<Val>)
    requires WellFormed(t) && EncodesAsIntended(t) && HasType(v, t) && Admissible(init)
    ensures DecodeAsWritten(t, EncodeAsWritten(t, v), init) == Ok(v)
  {
    EncodeAgrees(t, v);
    EncodingIsComplete(t, v);
    CompleteAgrees(t, Encode(t, v), init);
    RoundTrip(t, v);
  }

  // ================================================= the inputs that show each departure

  /** 1. No `bool` survives the as-written encode: the `bool` decoder
      requires a bool node. */
  lemma BoolDoesNotRoundTripAsWritten(b: bool, init: seq<Member> -> seq<Val>)
    requires Admissible(init)
    ensures DecodeAsWritten(BoolT, EncodeAsWritten(BoolT, VBool(b)), init) == Err(TypeMismatch(Boolean))
  {
    DecodeBool(EncodeAsWritten(BoolT, VBool(b)));
  }

  /** The corrected encoding differs only for `bool`, and round-trips. */
  lemma BoolRoundTrip(t: Ty, v: Val)
    requires IsArithmetic(t) && HasType(v, t)
    ensures !t.BoolT? ==> Encode(t, v) == EncodeAsWritten(t, v)
    ensures t.BoolT? ==> Encode(t, v) == Bool(v.b)
    ensures Decode(t, Encode(t, v)) == Ok(v)
  {
    RoundTrip(t, v);
  }

  const FlagOnly: seq<Member> := [Field("flag", BoolT)]

  /** The same departure one level down: a struct with a `bool` member
      encodes the member as `1u`, and the struct then fails to decode. */
  lemma NestedBoolAsWritten(init: seq<Member> -> seq<Val>)
    requires Admissible(init)
    ensures HasType(VStruct([VBool(true)]), StructT(FlagOnly))
    ensures EncodeAsWritten(StructT(FlagOnly), VStruct([VBool(true)])) == Object(map["flag" := UInt(1)])
    ensures DecodeAsWritten(StructT(FlagOnly), Object(map["flag" := UInt(1)]), init) == Err(TypeMismatch(Boolean))
  {
    var j := Object(map["flag" := UInt(1)]);
    assert FieldPos(FlagOnly, 1) == 1;
    assert HasType(VStruct([VBool(true)]), StructT(FlagOnly));
    assert MembersDecodeAsWritten(FlagOnly, 1, j, init, init(FlagOnly)) == Err(TypeMismatch(Boolean));
  }

  /** And inside a vector: `std::vector<bool>{false}` encodes as `[0u]`. */
  lemma BoolVectorAsWritten(init: seq<Member> -> seq<Val>)
    requires Admissible(init)
    ensures EncodeAsWritten(VecT(BoolT), VVec([VBool(false)])) == Array([UInt(0)])
    ensures DecodeAsWritten(VecT(BoolT), Array([UInt(0)]), init) == Err(TypeMismatch(Boolean))
  {
    assert ItemsDecodeAsWritten(BoolT, [UInt(0)], 1, init) == Err(TypeMismatch(Boolean));
  }

  lemma {:induction false} NoFieldsAreTyped(ms: seq<Member>, n: nat)
    requires n <= |ms| && FieldPos(ms, n) == 0
    ensures FieldsTyped(ms, n, [])
    decreases n
  {
    if n > 0 {
      NoFieldsAreTyped(ms, n - 1);
    }
  }

  /** 2. A struct without fields encodes as null under the as-written
      walk, and null is not an object, so its decoding fails. */
  lemma EmptyStructDoesNotRoundTripAsWritten(ms: seq<Member>, init: seq<Member> -> seq<Val>)
    requires FieldCount(ms) == 0 && Admissible(init)
    ensures HasType(VStruct([]), StructT(ms))
    ensures EncodeAsWritten(StructT(ms), VStruct([])) == Null
    ensures DecodeAsWritten(StructT(ms), EncodeAsWritten(StructT(ms), VStruct([])), init) == Err(TypeMismatch(JsonObject))
  {
    assert HasType(VStruct([]), StructT(ms)) by {
      NoFieldsAreTyped(ms, |ms|);
    }
  }

  /** The corrected walk starts from an empty object: it agrees with the
      as-written one whenever there is a field, and a struct without
      fields now round-trips. */
  lemma EmptyStructRoundTrip(ms: seq<Member>, fs: seq<Val>)
    requires HasType(VStruct(fs), StructT(ms))
    requires forall i :: 0 <= i < |ms| && ms[i].Field? ==> EncodesAsIntended(ms[i].ty)
    ensures FieldCount(ms) > 0 ==> EncodeAsWritten(StructT(ms), VStruct(fs)) == Encode(StructT(ms), VStruct(fs))
    ensures FieldCount(ms) == 0 ==> Encode(StructT(ms), VStruct(fs)) == Object(map[])
    ensures FieldCount(ms) == 0 ==> Decode(StructT(ms), Encode(StructT(ms), VStruct(fs))) == Ok(VStruct(fs))
  {
    WriteFromNullAgrees(ms, |ms|, fs);
    if FieldCount(ms) == 0 {
      NoFieldsWriteNothing(ms, |ms|, fs);
      var j := Encode(StructT(ms), VStruct(fs));
      MembersOutcome(ms, |ms|, j, DefaultFields(ms, |ms|));
      assert fs == [];
    }
  }

  const SizeOnly: seq<Member> := [Field("size", UnsignedT(W64))]

  /** A choice of `T r;` that leaves 7 in the `size` of a `SizeOnly`. */
  function SevenInit(): (init: seq<Member> -> seq<Val>)
    ensures init(SizeOnly) == [VInt(7)]
    ensures forall ms :: ms != SizeOnly ==> init(ms) == DefaultFields(ms, |ms|)
  {
    ms => if ms == SizeOnly then [VInt(7)] else DefaultFields(ms, |ms|)
  }

  /** 3. With `size` absent, two instances that `T r;` may leave give two
      different decodes: the result is not a function of the input. */
  lemma AbsentFieldIsIndeterminateAsWritten()
    ensures Admissible(ValueInit()) && Admissible(SevenInit())
    ensures DecodeAsWritten(StructT(SizeOnly), Object(map[]), ValueInit()) == Ok(VStruct([VInt(0)]))
    ensures DecodeAsWritten(StructT(SizeOnly), Object(map[]), SevenInit()) == Ok(VStruct([VInt(7)]))
  {
    ValueInitAdmissible();
    forall ms: seq<Member>
      ensures |SevenInit()(ms)| == FieldCount(ms) && FieldsDefaultInitialized(ms, |ms|, SevenInit()(ms))
    {
      if ms == SizeOnly {
        assert FieldPos(SizeOnly, 1) == 1;
      } else {
        DefaultFieldsAreDefaultInitialized(ms, |ms|);
      }
    }
    assert DefaultFields(SizeOnly, 1) == [VInt(0)];
  }

  /** Whether `t` names a described struct, directly or as an element. */
  predicate HoldsStruct(t: Ty)
    decreases t
  {
    match t
    case VecT(e) => HoldsStruct(e)
    case StructT(_) => true
    case _ => false
  }

  /** Whether `FromJson<T>` instantiates as written. The element call inside
      the vector overload names `FromJson` with a dependent type: ordinary
      lookup sees only the overloads declared above it (arithmetic, string,
      vector), and argument-dependent lookup on a `Json::Value` argument
      adds only namespace `Json`. So no vector element may be or hold a
      described struct. The struct overload's own field calls see every
      overload, itself included. */
  predicate DecodeResolves(t: Ty)
    decreases t
  {
    match t
    case VecT(e) => !HoldsStruct(e)
    case StructT(ms) =>
      forall i :: 0 <= i < |ms| && ms[i].Field? ==> DecodeResolves(ms[i].ty)
    case _ => true
  }

  /** A vector of any described struct, and any struct holding one, does
      not decode as written; a struct of structs does. */
  lemma VectorOfStructUnresolved(ms: seq<Member>, name: string)
    ensures !DecodeResolves(VecT(StructT(ms)))
    ensures !DecodeResolves(StructT([Field(name, VecT(StructT(ms)))]))
    ensures DecodeResolves(StructT(ms)) ==> DecodeResolves(StructT([Field(name, StructT(ms))]))
  {
    var outer := [Field(name, VecT(StructT(ms)))];
    assert outer[0].Field? && !DecodeResolves(outer[0].ty);
  }
}
