/** The sample `Object` struct and its description, with the document the
    demo program parses, as a concrete scenario for the engine. */
module SampleObject {
  import opened Outcome
  import opened JsonValue
  import opened Descriptor
  import opened Decoding
  import opened Encoding
  import opened Properties
  import opened Findings

  /** `struct Object { std::vector<unsigned char> bytes; std::size_t size;
      std::string name; }` described as "bytes", "size", "name". */
  const ObjectTy: Ty := StructT([
    Field("bytes", VecT(UnsignedT(W8))),
    Field("size", UnsignedT(W64)),
    Field("name", StrT)])

  /** The demo's document: jsoncpp's reader stores a non-negative integer
      no larger than the maximum `int` as a signed node. */
  const SampleJson: Json := Object(map[
    "bytes" := Array([Int(2), Int(4), Int(8), Int(16), Int(32)]),
    "size" := Int(128),
    "name" := String("hehe")])

  const Sample: Val := VStruct([VVec([VInt(2), VInt(4), VInt(8), VInt(16), VInt(32)]), VInt(128), VStr("hehe")])

  /** The slots of the three fields, and the instance's typing. */
  lemma ObjectShape()
    ensures FieldPos(ObjectTy.members, 1) == 1 && FieldPos(ObjectTy.members, 2) == 2
    ensures FieldCount(ObjectTy.members) == 3
    ensures DefaultFields(ObjectTy.members, 3) == [VVec([]), VInt(0), VStr("")]
    ensures HasType(Sample, ObjectTy)
  {
    var ms := ObjectTy.members;
    assert FieldPos(ms, 1) == 1;
    assert FieldPos(ms, 2) == 2;
    assert FieldPos(ms, 3) == 3;
    assert DefaultFields(ms, 1) == [VVec([])];
    assert DefaultFields(ms, 2) == [VVec([]), VInt(0)];
    var fs := Sample.fields;
    assert HasType(fs[0], VecT(UnsignedT(W8)));
    assert FieldsTyped(ms, 1, fs);
    assert FieldsTyped(ms, 2, fs);
    assert FieldsTyped(ms, 3, fs);
  }

  /** The "bytes" array of the demo document decodes element by element. */
  lemma SampleBytesDecode()
    ensures Decode(VecT(UnsignedT(W8)), SampleJson.members["bytes"]) == Ok(Sample.fields[0])
  {
    var items := [Int(2), Int(4), Int(8), Int(16), Int(32)];
    var bytes := [VInt(2), VInt(4), VInt(8), VInt(16), VInt(32)];
    forall i | 0 <= i < 5
      ensures Decode(UnsignedT(W8), items[i]) == Ok(bytes[i])
    {
      DecodeIntegerInRange(UnsignedT(W8), items[i]);
    }
    VectorOfArray(UnsignedT(W8), items);
    var dv := Decode(VecT(UnsignedT(W8)), Array(items));
    assert dv.value.items == bytes;
  }

  /** A struct decode of `ObjectTy` is fixed by what each field decodes to. */
  lemma ObjectDecode(j: Json, f0: Val, f1: Val, f2: Val)
    requires j.Object?
    requires Present(ObjectTy.members, 0, j) ==> FieldDecode(ObjectTy.members, 0, j) == Ok(f0)
    requires Present(ObjectTy.members, 1, j) ==> FieldDecode(ObjectTy.members, 1, j) == Ok(f1)
    requires Present(ObjectTy.members, 2, j) ==> FieldDecode(ObjectTy.members, 2, j) == Ok(f2)
    requires !Present(ObjectTy.members, 0, j) ==> f0 == VVec([])
    requires !Present(ObjectTy.members, 1, j) ==> f1 == VInt(0)
    requires !Present(ObjectTy.members, 2, j) ==> f2 == VStr("")
    ensures Decode(ObjectTy, j) == Ok(VStruct([f0, f1, f2]))
  {
    var ms := ObjectTy.members;
    ObjectShape();
    StructOfObject(ms, j);
    var fs := Decode(ObjectTy, j).value.fields;
    assert fs[FieldPos(ms, 0)] == f0;
    assert fs[FieldPos(ms, 1)] == f1;
    assert fs[FieldPos(ms, 2)] == f2;
    assert fs == [f0, f1, f2];
  }

  /** The demo document decodes to the expected instance. */
  lemma SampleDecodes()
    ensures Decode(ObjectTy, SampleJson) == Ok(Sample)
  {
    var ms, j := ObjectTy.members, SampleJson;
    SampleBytesDecode();
    DecodeIntegerInRange(UnsignedT(W64), Int(128));
    ObjectDecode(j, Sample.fields[0], VInt(128), VStr("hehe"));
  }

  /** The "bytes" vector encodes as an array of unsigned nodes. */
  lemma SampleBytesEncode()
    ensures HasType(Sample.fields[0], VecT(UnsignedT(W8)))
    ensures Encode(VecT(UnsignedT(W8)), Sample.fields[0]) == Array([UInt(2), UInt(4), UInt(8), UInt(16), UInt(32)])
  {
    var vs := Sample.fields[0].items;
    assert HasType(Sample.fields[0], VecT(UnsignedT(W8)));
    VectorEncoding(UnsignedT(W8), vs);
  }

  /** Encoding the instance gives an object with the same three keys;
      the numbers come back as unsigned nodes. */
  lemma SampleEncodes()
    ensures HasType(Sample, ObjectTy)
    ensures Encode(ObjectTy, Sample) == Object(map[
              "bytes" := Array([UInt(2), UInt(4), UInt(8), UInt(16), UInt(32)]),
              "size" := UInt(128),
              "name" := String("hehe")])
  {
    ObjectShape();
    var ms, fs := ObjectTy.members, Sample.fields;
    var e := [UInt(2), UInt(4), UInt(8), UInt(16), UInt(32)];
    SampleBytesEncode();
    FieldsTypedPrefix(ms, 1, 3, fs);
    FieldsTypedPrefix(ms, 2, 3, fs);
    assert EncodeMembers(ms, 1, fs) == map["bytes" := Array(e)];
    assert EncodeMembers(ms, 2, fs) == map["bytes" := Array(e), "size" := UInt(128)];
  }

  /** Decoding the encoded instance reconstructs it field for field. */
  lemma SampleRoundTrip()
    ensures HasType(Sample, ObjectTy)
    ensures Decode(ObjectTy, Encode(ObjectTy, Sample)) == Ok(Sample)
  {
    ObjectShape();
    RoundTrip(ObjectTy, Sample);
  }

  /** `Object` has no `bool` member and is not empty, so the demo program as
      written reproduces the instance, whatever `T r;` leaves in it. */
  lemma SampleRoundTripAsWritten(init: seq<Member> -> seq<Val>)
    requires Admissible(init)
    ensures HasType(Sample, ObjectTy)
    ensures DecodeAsWritten(ObjectTy, EncodeAsWritten(ObjectTy, Sample), init) == Ok(Sample)
  {
    ObjectShape();
    assert WellFormed(ObjectTy);
    assert EncodesAsIntended(ObjectTy);
    RoundTripAsWritten(ObjectTy, Sample, init);
  }

  /** What `main` computes as written: the parsed document supplies every
      field, so the decode is the intended one whatever `T r;` leaves, and
      `Object` has no `bool` member, so the encode is the intended one. */
  lemma MainAsWritten(init: seq<Member> -> seq<Val>)
    requires Admissible(init)
    ensures DecodeResolves(ObjectTy)
    ensures DecodeAsWritten(ObjectTy, SampleJson, init) == Ok(Sample)
    ensures EncodeAsWritten(ObjectTy, Sample) == Object(map[
              "bytes" := Array([UInt(2), UInt(4), UInt(8), UInt(16), UInt(32)]),
              "size" := UInt(128),
              "name" := String("hehe")])
  {
    SampleInstantiates();
    CompleteAgrees(ObjectTy, SampleJson, init);
    SampleDecodes();
    SampleEncodes();
    EncodeAgrees(ObjectTy, Sample);
  }

  /** `FromJson<Object>` instantiates, the demo document supplies every
      field, and `Object` holds neither a `bool` nor a fieldless struct. */
  lemma SampleInstantiates()
    ensures DecodeResolves(ObjectTy)
    ensures Complete(ObjectTy, SampleJson)
    ensures EncodesAsIntended(ObjectTy)
  {
    var ms := ObjectTy.members;
    assert ms[0].Field? && ms[0].ty == VecT(UnsignedT(W8));
    var items := SampleJson.members["bytes"].items;
    assert forall i :: 0 <= i < |items| ==> Complete(UnsignedT(W8), items[i]);
    assert Complete(ms[0].ty, SampleJson.members["bytes"]);
    assert FieldPos(ms, 1) == 1;
  }

  /** A document holding only "name": the missing fields keep their
      defaults, an empty vector and zero. */
  lemma MissingFieldsKeepDefaults()
    ensures Decode(ObjectTy, Object(map["name" := String("x")])) ==
              Ok(VStruct([VVec([]), VInt(0), VStr("x")]))
  {
    ObjectDecode(Object(map["name" := String("x")]), VVec([]), VInt(0), VStr("x"));
  }

  /** A bare number where the vector is declared decodes as a one-element
      vector, narrowed by the cast to `unsigned char` (300 becomes 44). */
  lemma ScalarAsVectorNarrows()
    ensures Decode(ObjectTy, Object(map["bytes" := Int(300)])) ==
              Ok(VStruct([VVec([VInt(44)]), VInt(0), VStr("")]))
  {
    assert CastUnsigned(300, W8) == 44;
    assert Decode(UnsignedT(W8), Int(300)) == Ok(VInt(44));
    VectorOfScalarNode(UnsignedT(W8), Int(300));
    ObjectDecode(Object(map["bytes" := Int(300)]), VVec([VInt(44)]), VInt(0), VStr(""));
  }

  /** A field of the wrong kind aborts the whole decode with that field's
      error; the later, also ill-typed field is never reached. */
  lemma WrongKindAborts()
    ensures Decode(ObjectTy, Object(map["size" := String("big"), "name" := Bool(true)])) ==
              Err(TypeMismatch(Integer))
  {
    ObjectShape();
    var ms, j := ObjectTy.members, Object(map["size" := String("big"), "name" := Bool(true)]);
    var init := DefaultFields(ms, 3);
    assert DecodeMembers(ms, 1, j, init) == Ok(init);
    assert DecodeMembers(ms, 2, j, init) == Err(TypeMismatch(Integer));
  }

  /** A struct holding a described struct: encoding and decoding recurse
      through the same overloads without a special case. */
  const OuterTy: Ty := StructT([Field("inner", ObjectTy), Field("tags", VecT(StrT))])

  lemma NestedRoundTrip()
    ensures DecodeResolves(OuterTy)
    ensures HasType(VStruct([Sample, VVec([VStr("a")])]), OuterTy)
    ensures Decode(OuterTy, Encode(OuterTy, VStruct([Sample, VVec([VStr("a")])]))) ==
              Ok(VStruct([Sample, VVec([VStr("a")])]))
  {
    ObjectShape();
    var ms, v := OuterTy.members, VStruct([Sample, VVec([VStr("a")])]);
    assert FieldPos(ms, 1) == 1;
    assert FieldPos(ms, 2) == 2;
    assert FieldsTyped(ms, 1, v.fields);
    assert FieldsTyped(ms, 2, v.fields);
    assert WellFormed(ObjectTy);
    assert DecodeResolves(ObjectTy);
    RoundTrip(OuterTy, v);
  }
}
