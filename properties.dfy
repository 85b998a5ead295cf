/** What the conversion engine promises, stated over the specification
    functions of `Decoding` and `Encoding`. */
module Properties {
  import opened Outcome
  import opened JsonValue
  import opened Descriptor
  import opened Decoding
  import opened Encoding

  // ---------------------------------------------------------------- scalars

  /** The accessor an integer type reads through accepts exactly this range:
      `asLargestInt`, `asLargestUInt`, `asInt` or `asUInt`. */
  function AccessorLo(t: Ty): int
    requires t.SignedT? || t.UnsignedT?
  {
    if t.UnsignedT? then 0 else if t.width == W64 then MIN_INT64 else MIN_INT
  }

  function AccessorHi(t: Ty): int
    requires t.SignedT? || t.UnsignedT?
  {
    if t.UnsignedT? then (if t.width == W64 then MAX_UINT64 else MAX_UINT)
    else if t.width == W64 then MAX_INT64 else MAX_INT
  }

  /** Every integer decode fails unless the node is integral, fails with
      the library's range error outside the accessor's range, otherwise
      yields the value of the type congruent to the number modulo 2^width
      (the `static_cast`), which is the number itself when it fits. */
  lemma DecodeInteger(t: Ty, j: Json)
    requires t.SignedT? || t.UnsignedT?
    ensures !IsIntegral(j) ==> Decode(t, j) == Err(TypeMismatch(Integer))
    ensures IsIntegral(j) && !(AccessorLo(t) <= Number(j) <= AccessorHi(t)) ==>
              Decode(t, j) == Err(OutOfRange)
    ensures IsIntegral(j) && AccessorLo(t) <= Number(j) <= AccessorHi(t) ==>
              && Decode(t, j).Ok? && Decode(t, j).value.VInt?
              && InRange(t, Decode(t, j).value.n)
              && (Decode(t, j).value.n - Number(j)) % Modulus(t.width) == 0
    ensures IsIntegral(j) && InRange(t, Number(j)) ==> Decode(t, j) == Ok(VInt(Number(j)))
  {
    if IsIntegral(j) && InRange(t, Number(j)) {
      DecodeIntegerInRange(t, j);
    }
  }

  /** The narrowing cast leaves a number that fits the type unchanged. */
  lemma CastInRange(t: Ty, x: int)
    requires (t.SignedT? || t.UnsignedT?) && InRange(t, x)
    ensures t.SignedT? ==> CastSigned(x, t.width) == x
    ensures t.UnsignedT? ==> CastUnsigned(x, t.width) == x
  {
    var m := Modulus(t.width);
    if t.SignedT? {
      assert 0 <= x + m / 2 < m;
    }
  }

  /** A number that fits the type passes through the accessor and the
      narrowing unchanged. */
  lemma DecodeIntegerInRange(t: Ty, j: Json)
    requires (t.SignedT? || t.UnsignedT?) && IsIntegral(j) && InRange(t, Number(j))
    ensures Decode(t, j) == Ok(VInt(Number(j)))
  {
    var x := Number(j);
    CastInRange(t, x);
    assert AccessorLo(t) <= x <= AccessorHi(t);
    if t.SignedT? {
      assert Decode(t, j) == DecodeArith(t, j);
    }
  }

  /** `bool` decodes only from a bool node: no 0/1 coercion of numbers. */
  lemma DecodeBool(j: Json)
    ensures Decode(BoolT, j).Ok? <==> j.Bool?
    ensures j.Bool? ==> Decode(BoolT, j) == Ok(VBool(j.b))
    ensures IsIntegral(j) ==> Decode(BoolT, j) == Err(TypeMismatch(Boolean))
  {
  }

  /** A string decodes only from a string node, and string encoding is
      undone by string decoding. */
  lemma DecodeEncodeString(j: Json, s: string)
    ensures Decode(StrT, j).Ok? <==> j.String?
    ensures !j.String? ==> Decode(StrT, j) == Err(TypeMismatch(Text))
    ensures Encode(StrT, VStr(s)) == String(s)
    ensures Decode(StrT, Encode(StrT, VStr(s))) == Ok(VStr(s))
  {
  }

  /** Signed types encode as signed nodes and unsigned ones as unsigned
      nodes, holding the value unchanged. */
  lemma EncodeInteger(t: Ty, n: int)
    requires (t.SignedT? || t.UnsignedT?) && InRange(t, n)
    ensures t.SignedT? ==> Encode(t, VInt(n)) == Int(n)
    ensures t.UnsignedT? ==> Encode(t, VInt(n)) == UInt(n)
  {
  }

  // ---------------------------------------------------------------- vectors

  /** The element-wise walk succeeds iff every element decodes; then the
      i-th value is the i-th element's; otherwise the error is that of the
      first element that fails. */
  lemma {:induction false} ItemsOutcome(e: Ty, items: seq<Json>, n: nat)
    requires n <= |items|
    ensures DecodeItems(e, items, n).Ok? <==> forall i :: 0 <= i < n ==> Decode(e, items[i]).Ok?
    ensures DecodeItems(e, items, n).Ok? ==>
              forall i :: 0 <= i < n ==> Decode(e, items[i]) == Ok(DecodeItems(e, items, n).value[i])
    ensures DecodeItems(e, items, n).Err? ==>
              exists i :: && 0 <= i < n
                          && Decode(e, items[i]) == Err(DecodeItems(e, items, n).error)
                          && forall k :: 0 <= k < i ==> Decode(e, items[k]).Ok?
    decreases n
  {
    if n > 0 {
      ItemsOutcome(e, items, n - 1);
      var prev := DecodeItems(e, items, n - 1);
      if prev.Ok? && Decode(e, items[n - 1]).Err? {
        assert forall k :: 0 <= k < n - 1 ==> Decode(e, items[k]).Ok?;
      }
    }
  }

  /** An empty node (null, [], {}) decodes as the empty vector. */
  lemma VectorOfEmptyNode(e: Ty, j: Json)
    requires IsEmpty(j)
    ensures Decode(VecT(e), j) == Ok(VVec([]))
  {
  }

  /** A non-empty node that is not an array decodes as a one-element vector
      holding the decoding of the whole node. */
  lemma VectorOfScalarNode(e: Ty, j: Json)
    requires !IsEmpty(j) && !j.Array?
    ensures Decode(e, j).Ok? ==> Decode(VecT(e), j) == Ok(VVec([Decode(e, j).value]))
    ensures Decode(e, j).Err? ==> Decode(VecT(e), j) == Err(Decode(e, j).error)
  {
  }

  /** A non-empty array decodes element by element, in order, into a vector
      of the same length, and fails with the first failing element's error. */
  lemma VectorOfArray(e: Ty, items: seq<Json>)
    requires |items| > 0
    ensures Decode(VecT(e), Array(items)).Ok? <==>
              forall i :: 0 <= i < |items| ==> Decode(e, items[i]).Ok?
    ensures Decode(VecT(e), Array(items)).Ok? ==>
              && Decode(VecT(e), Array(items)).value.VVec?
              && |Decode(VecT(e), Array(items)).value.items| == |items|
              && forall i :: 0 <= i < |items| ==>
                   Decode(e, items[i]) == Ok(Decode(VecT(e), Array(items)).value.items[i])
    ensures Decode(VecT(e), Array(items)).Err? ==>
              exists i :: && 0 <= i < |items|
                          && Decode(e, items[i]) == Err(Decode(VecT(e), Array(items)).error)
                          && forall k :: 0 <= k < i ==> Decode(e, items[k]).Ok?
  {
    ItemsOutcome(e, items, |items|);
  }

  lemma {:induction false} EncodeItemsAt(e: Ty, vs: seq<Val>, n: nat, i: nat)
    requires i < n <= |vs| && forall k :: 0 <= k < |vs| ==> HasType(vs[k], e)
    ensures EncodeItems(e, vs, n)[i] == Encode(e, vs[i])
    decreases n
  {
    if i < n - 1 {
      EncodeItemsAt(e, vs, n - 1, i);
    }
  }

  /** Vector encoding writes one entry per element, at the element's index;
      the empty vector leaves the node null, which decodes back to it. */
  lemma VectorEncoding(e: Ty, vs: seq<Val>)
    requires forall k :: 0 <= k < |vs| ==> HasType(vs[k], e)
    ensures |vs| == 0 ==> Encode(VecT(e), VVec(vs)) == Null
    ensures |vs| == 0 ==> Decode(VecT(e), Encode(VecT(e), VVec(vs))) == Ok(VVec([]))
    ensures |vs| > 0 ==>
              && Encode(VecT(e), VVec(vs)).Array?
              && |Encode(VecT(e), VVec(vs)).items| == |vs|
              && forall i :: 0 <= i < |vs| ==> Encode(VecT(e), VVec(vs)).items[i] == Encode(e, vs[i])
  {
    forall i | 0 <= i < |vs|
      ensures EncodeItems(e, vs, |vs|)[i] == Encode(e, vs[i])
    {
      EncodeItemsAt(e, vs, |vs|, i);
    }
  }

  // ---------------------------------------------------------------- structs

  /** A field is present when the object holds its name. */
  predicate Present(ms: seq<Member>, i: nat, j: Json)
    requires i < |ms| && j.Object?
  {
    ms[i].Field? && ms[i].name in j.members
  }

  /** The decoding of a present field's node. */
  function FieldDecode(ms: seq<Member>, i: nat, j: Json): Result<Val>
    requires i < |ms| && j.Object? && Present(ms, i, j)
  {
    Decode(ms[i].ty, j.members[ms[i].name])
  }

  lemma FieldSlotsBelow(ms: seq<Member>, n: nat)
    requires n <= |ms|
    ensures forall i :: 0 <= i < n && ms[i].Field? ==> FieldPos(ms, i) < FieldPos(ms, n)
  {
    forall i | 0 <= i < n && ms[i].Field?
      ensures FieldPos(ms, i) < FieldPos(ms, n)
    {
      FieldPosStrict(ms, i, n);
    }
  }

  /** The field walk from any starting slots: it succeeds iff every present
      field decodes; a present field's slot then holds its decoding and an
      absent field's slot keeps its starting value; on failure the error is
      that of the first present field, in declaration order, that fails. */
  lemma {:induction false} MembersOutcome(ms: seq<Member>, n: nat, j: Json, init: seq<Val>)
    requires j.Object? && n <= |ms| && FieldPos(ms, n) <= |init|
    ensures forall i :: 0 <= i < n && ms[i].Field? ==> FieldPos(ms, i) < FieldPos(ms, n)
    ensures DecodeMembers(ms, n, j, init).Ok? <==>
              forall i :: 0 <= i < n && Present(ms, i, j) ==> FieldDecode(ms, i, j).Ok?
    ensures DecodeMembers(ms, n, j, init).Ok? ==>
              forall i :: 0 <= i < n && ms[i].Field? ==>
                DecodeMembers(ms, n, j, init).value[FieldPos(ms, i)] ==
                  if Present(ms, i, j) then FieldDecode(ms, i, j).value else init[FieldPos(ms, i)]
    ensures DecodeMembers(ms, n, j, init).Ok? ==>
              DecodeMembers(ms, n, j, init).value[FieldPos(ms, n)..] == init[FieldPos(ms, n)..]
    ensures DecodeMembers(ms, n, j, init).Err? ==>
              exists i :: && 0 <= i < n && Present(ms, i, j)
                          && FieldDecode(ms, i, j) == Err(DecodeMembers(ms, n, j, init).error)
                          && forall k :: 0 <= k < i && Present(ms, k, j) ==> FieldDecode(ms, k, j).Ok?
    decreases n
  {
    FieldSlotsBelow(ms, n);
    if n > 0 {
      MembersOutcome(ms, n - 1, j, init);
      var prev := DecodeMembers(ms, n - 1, j, init);
      var r := DecodeMembers(ms, n, j, init);
      if prev.Ok? && Present(ms, n - 1, j) && FieldDecode(ms, n - 1, j).Err? {
        assert forall k :: 0 <= k < n - 1 && Present(ms, k, j) ==> FieldDecode(ms, k, j).Ok?;
      }
      if r.Ok? {
        var p := FieldPos(ms, n - 1);
        assert r.value[FieldPos(ms, n)..] == prev.value[FieldPos(ms, n)..];
        if ms[n - 1].Field? {
          assert r.value[p] == if Present(ms, n - 1, j) then FieldDecode(ms, n - 1, j).value else init[p] by {
            assert prev.value[p..][0] == init[p..][0];
          }
        }
      }
    }
  }

  lemma {:induction false} DefaultFieldsAt(ms: seq<Member>, n: nat, i: nat)
    requires i < n <= |ms| && ms[i].Field?
    ensures FieldPos(ms, i) < |DefaultFields(ms, n)|
    ensures DefaultFields(ms, n)[FieldPos(ms, i)] == Default(ms[i].ty)
    decreases n
  {
    FieldPosStrict(ms, i, n);
    if i < n - 1 {
      DefaultFieldsAt(ms, n - 1, i);
    }
  }

  /** Struct decode needs an object node (null is not one). */
  lemma StructOfNonObject(ms: seq<Member>, j: Json)
    requires !j.Object?
    ensures Decode(StructT(ms), j) == Err(TypeMismatch(JsonObject))
  {
  }

  /** Struct decode of an object: it succeeds iff every present field
      decodes; a present field gets its decoded value and a missing one the
      default; the first failing present field aborts with its error. */
  lemma StructOfObject(ms: seq<Member>, j: Json)
    requires j.Object?
    ensures Decode(StructT(ms), j).Ok? <==>
              forall i :: 0 <= i < |ms| && Present(ms, i, j) ==> FieldDecode(ms, i, j).Ok?
    ensures Decode(StructT(ms), j).Ok? ==>
              && Decode(StructT(ms), j).value.VStruct?
              && |Decode(StructT(ms), j).value.fields| == FieldCount(ms)
              && forall i :: 0 <= i < |ms| && ms[i].Field? ==>
                   && FieldPos(ms, i) < FieldCount(ms)
                   && Decode(StructT(ms), j).value.fields[FieldPos(ms, i)] ==
                        if Present(ms, i, j) then FieldDecode(ms, i, j).value else Default(ms[i].ty)
    ensures Decode(StructT(ms), j).Err? ==>
              exists i :: && 0 <= i < |ms| && Present(ms, i, j)
                          && FieldDecode(ms, i, j) == Err(Decode(StructT(ms), j).error)
                          && forall k :: 0 <= k < i && Present(ms, k, j) ==> FieldDecode(ms, k, j).Ok?
  {
    var init := DefaultFields(ms, |ms|);
    MembersOutcome(ms, |ms|, j, init);
    forall i | 0 <= i < |ms| && ms[i].Field?
      ensures init[FieldPos(ms, i)] == Default(ms[i].ty)
    {
      DefaultFieldsAt(ms, |ms|, i);
    }
  }

  lemma {:induction false} MembersIgnoreForeignKey(ms: seq<Member>, n: nat, m: map<string, Json>, k: string, x: Json, init: seq<Val>)
    requires n <= |ms| && FieldPos(ms, n) <= |init|
    requires forall i :: 0 <= i < |ms| && ms[i].Field? ==> ms[i].name != k
    ensures DecodeMembers(ms, n, Object(m[k := x]), init) == DecodeMembers(ms, n, Object(m), init)
    decreases n
  {
    if n > 0 {
      MembersIgnoreForeignKey(ms, n - 1, m, k, x, init);
    }
  }

  /** Struct decode reads nothing but the described fields' names: an entry
      under any other key, such as a non-field entry's name, is ignored. */
  lemma StructIgnoresForeignKey(ms: seq<Member>, m: map<string, Json>, k: string, x: Json)
    requires forall i :: 0 <= i < |ms| && ms[i].Field? ==> ms[i].name != k
    ensures Decode(StructT(ms), Object(m[k := x])) == Decode(StructT(ms), Object(m))
  {
    MembersIgnoreForeignKey(ms, |ms|, m, k, x, DefaultFields(ms, |ms|));
  }

  lemma {:induction false} EncodeMembersKeys(ms: seq<Member>, n: nat, fs: seq<Val>)
    requires n <= |ms| && FieldsTyped(ms, n, fs)
    ensures forall k :: k in EncodeMembers(ms, n, fs) <==> exists i :: 0 <= i < n && ms[i].Field? && ms[i].name == k
    decreases n
  {
    if n > 0 {
      EncodeMembersKeys(ms, n - 1, fs);
    }
  }

  lemma {:induction false} EncodeMembersAt(ms: seq<Member>, n: nat, fs: seq<Val>, i: nat)
    requires i < n <= |ms| && ms[i].Field? && FieldsTyped(ms, n, fs) && DistinctFieldNames(ms)
    ensures FieldPos(ms, i) < |fs| && HasType(fs[FieldPos(ms, i)], ms[i].ty)
    ensures ms[i].name in EncodeMembers(ms, n, fs)
    ensures EncodeMembers(ms, n, fs)[ms[i].name] == Encode(ms[i].ty, fs[FieldPos(ms, i)])
    decreases n
  {
    FieldsTypedAt(ms, n, fs, i);
    if i < n - 1 {
      FieldsTypedPrefix(ms, n - 1, n, fs);
      EncodeMembersAt(ms, n - 1, fs, i);
    }
  }

  /** Struct encoding yields an object whose keys are exactly the field
      names: non-field entries write nothing. */
  lemma StructEncodingKeys(ms: seq<Member>, fs: seq<Val>)
    requires HasType(VStruct(fs), StructT(ms))
    ensures Encode(StructT(ms), VStruct(fs)).Object?
    ensures forall k :: k in Encode(StructT(ms), VStruct(fs)).members <==>
              exists i :: 0 <= i < |ms| && ms[i].Field? && ms[i].name == k
  {
    assert Encode(StructT(ms), VStruct(fs)) == Object(EncodeMembers(ms, |ms|, fs));
    EncodeMembersKeys(ms, |ms|, fs);
  }

  /** With distinct names, each field's key holds that field's encoding. */
  lemma StructEncodingEntries(ms: seq<Member>, fs: seq<Val>, i: nat)
    requires HasType(VStruct(fs), StructT(ms)) && DistinctFieldNames(ms)
    requires i < |ms| && ms[i].Field?
    ensures FieldPos(ms, i) < |fs| && HasType(fs[FieldPos(ms, i)], ms[i].ty)
    ensures Encode(StructT(ms), VStruct(fs)).Object?
    ensures ms[i].name in Encode(StructT(ms), VStruct(fs)).members
    ensures Encode(StructT(ms), VStruct(fs)).members[ms[i].name] == Encode(ms[i].ty, fs[FieldPos(ms, i)])
  {
    assert Encode(StructT(ms), VStruct(fs)) == Object(EncodeMembers(ms, |ms|, fs));
    EncodeMembersAt(ms, |ms|, fs, i);
  }

  // ---------------------------------------------------------------- round trip

  /** Decoding undoes encoding for every value of every well-formed type. */
  lemma {:induction false} RoundTrip(t: Ty, v: Val)
    requires WellFormed(t) && HasType(v, t)
    ensures Decode(t, Encode(t, v)) == Ok(v)
    decreases t, 2
  {
    match t
    case VecT(e) =>
      var vs := v.items;
      if |vs| > 0 {
        RoundTripItems(e, vs, |vs|);
        assert vs[..|vs|] == vs;
      }
    case StructT(ms) =>
      var fs := v.fields;
      RoundTripMembers(ms, fs, |ms|);
      var d := DefaultFields(ms, |ms|);
      assert fs[..|fs|] + d[|fs|..] == fs;
    case SignedT(_) => DecodeIntegerInRange(t, Encode(t, v));
    case UnsignedT(_) => DecodeIntegerInRange(t, Encode(t, v));
    case BoolT =>
    case StrT =>
  }

  lemma {:induction false} RoundTripItems(e: Ty, vs: seq<Val>, n: nat)
    requires WellFormed(e) && n <= |vs| && forall k :: 0 <= k < |vs| ==> HasType(vs[k], e)
    ensures DecodeItems(e, EncodeItems(e, vs, |vs|), n) == Ok(vs[..n])
    decreases VecT(e), 0, n
  {
    if n > 0 {
      RoundTripItems(e, vs, n - 1);
      EncodeItemsAt(e, vs, |vs|, n - 1);
      RoundTrip(e, vs[n - 1]);
      assert vs[..n - 1] + [vs[n - 1]] == vs[..n];
    }
  }

  lemma {:induction false} RoundTripMembers(ms: seq<Member>, fs: seq<Val>, n: nat)
    requires WellFormed(StructT(ms)) && HasType(VStruct(fs), StructT(ms)) && n <= |ms|
    ensures FieldPos(ms, n) <= |fs|
    ensures DecodeMembers(ms, n, EncodeStruct(ms, fs), DefaultFields(ms, |ms|)) ==
              Ok(fs[..FieldPos(ms, n)] + DefaultFields(ms, |ms|)[FieldPos(ms, n)..])
    decreases StructT(ms), 0, n
  {
    FieldPosMono(ms, n, |ms|);
    if n > 0 {
      RoundTripMembers(ms, fs, n - 1);
      var d := DefaultFields(ms, |ms|);
      var p := FieldPos(ms, n - 1);
      var cur := fs[..p] + d[p..];
      var j := EncodeStruct(ms, fs);
      assert DecodeMembers(ms, n - 1, j, d) == Ok(cur);
      if ms[n - 1].Field? {
        EncodeMembersAt(ms, |ms|, fs, n - 1);
        RoundTrip(ms[n - 1].ty, fs[p]);
        assert JsonResolve(j, ms[n - 1].name) == Some(Encode(ms[n - 1].ty, fs[p]));
        assert DecodeMembers(ms, n, j, d) == Ok(cur[p := fs[p]]);
        assert cur[p := fs[p]] == fs[..p + 1] + d[p + 1..];
        assert FieldPos(ms, n) == p + 1;
      } else {
        assert FieldPos(ms, n) == p;
        assert DecodeMembers(ms, n, j, d) == Ok(cur);
      }
    } else {
      var d := DefaultFields(ms, |ms|);
      assert fs[..0] + d[0..] == d;
    }
  }
}
