# Type-directed JSON conversion over jsoncpp, in Dafny

This project models the conversion engine in `examples/jsoncpp.cpp`. Two
overload sets, `FromJson<T>` and `ToJson`, convert between a jsoncpp
`Json::Value` tree and a C++ value. The static type `T` chooses the
overload:

- an arithmetic type (the integer types the source lists, and `bool`);
- a type convertible to `std::string`;
- a `std::vector` of a supported type. `ToJson` accepts any such element
  type. `FromJson` does not: it calls itself on the elements, and that call
  cannot find the struct overload (see `Findings.DecodeResolves`);
- a struct described with `DESCRIBE`/`MEMBER`. Its fields are visited in
  declaration order and looked up by name with `JsonResolve`.

The model has these modules:

- `Outcome`: `Result`/`Option` and the error kinds. A thrown
  `std::runtime_error` becomes `Err(TypeMismatch(...))`. A jsoncpp range
  exception becomes `Err(OutOfRange)`.
- `JsonValue`: the parts of `Json::Value` the engine uses. These are the
  node kinds, `isIntegral`, `empty`, the integer accessors with their
  ranges, `find`, and `operator[]` assignment on an index and on a key.
- `Descriptor`: type descriptors `Ty` and typed values `Val`. A `StructT`
  carries the ordered entry list of a description, where an entry is a
  field or a non-field. This module also has the typing predicate
  `HasType`, the value-initialised default of a type, and the four overload
  guards.
- `Decoding` and `Encoding`: the engine with the three corrections listed
  below, one specification function per overload. The source's loops are
  methods (`FromJsonVector`, `FromJsonStruct`, `ToJsonVector`,
  `ToJsonStruct`) that follow the source's control flow with the corrected
  rules, and each is proved to compute its function.
- `Properties`: what the engine promises at each type, and the round-trip
  theorem stated over all well-formed types and all their values.
- `Findings`: the whole engine as the source writes it, at every nesting
  level (`EncodeAsWritten`, `DecodeAsWritten`). It is proved equal to the
  corrected engine wherever the departures cannot arise, and the inputs
  that show each departure are exhibited.
- `SampleObject`: the sample `Object` and its description, and the document
  the demo program parses.

Facts about jsoncpp and the platform that the model assumes:

- `Json::LargestInt` is `Json::Int64` and `Json::LargestUInt` is
  `Json::UInt64`; with `std::size_t`, these give one signed and one unsigned
  64-bit kind.
- `char` is signed.
- `isIntegral` is true of integer nodes only, because floating-point nodes
  are not modelled.
- `asInt`, `asUInt`, `asLargestInt` and `asLargestUInt` accept exactly the
  range of their result type and fail outside it.
- The narrowing `static_cast` reduces modulo 2^width.

Where the intended behaviour and the code differ, the corrected behaviour is
what the model uses, and the code as written is modelled beside it (see
Findings). These places are:

- the encoding of `bool`;
- the encoding of a struct without fields;
- the starting state `T r;` of a decoded struct.

## Model

| member | source | states |
|---|---|---|
| Descriptor.ExactlyOneOverload | examples/jsoncpp.cpp:10-17 | the descriptor's shape: each `Ty` constructor falls under exactly one of the four guards. The guards are constructor tests, so this holds by construction and says nothing about the C++ `enable_if` conditions themselves |
| Descriptor.Default | examples/jsoncpp.cpp:121 | the corrected start of a struct decode, value-initialisation (`T r{};` in place of `T r;`), for an aggregate without default member initialisers such as `Object`: zero, `false`, empty string and empty vector, a value of that type |
| JsonValue.IsIntegral | examples/jsoncpp.cpp:41-71 | `isIntegral()` holds of integer nodes only (real nodes are not modelled); such a node is never empty, an array or an object |
| JsonValue.IsEmpty | examples/jsoncpp.cpp:98 | `empty()` holds exactly of null, `[]` and `{}` |
| JsonValue.AsInt | examples/jsoncpp.cpp:55 | `asInt()` succeeds exactly on numbers in the 32-bit signed range, with the number itself; otherwise the range error |
| JsonValue.AsUInt | examples/jsoncpp.cpp:73 | `asUInt()` succeeds exactly on numbers in the 32-bit unsigned range, with the number itself; otherwise the range error |
| JsonValue.AsLargestInt | examples/jsoncpp.cpp:43-48 | `asLargestInt()`/`asInt64()` succeed exactly on numbers in the 64-bit signed range, with the number itself; otherwise the range error |
| JsonValue.AsLargestUInt | examples/jsoncpp.cpp:61-66 | `asLargestUInt()`/`asUInt64()` succeed exactly on numbers in the 64-bit unsigned range, with the number itself; otherwise the range error |
| JsonValue.AsInteger | examples/jsoncpp.cpp:40-74 | an integer accessor succeeds exactly when the node's number lies in the accessor's range, returns that number, and otherwise fails with the range error |
| JsonValue.Find | examples/jsoncpp.cpp:21 | `find` yields a node exactly when the object holds the key, and that node is the entry under the key |
| JsonValue.SetIndex | examples/jsoncpp.cpp:154 | `v[idx] = x` makes a null node an array; the element at `idx` is `x`, other elements are kept, the array grows to `idx + 1` with null padding |
| JsonValue.SetKey | examples/jsoncpp.cpp:166 | `v[k] = x` makes a null node an object; its keys are the old keys plus `k`, `k` holds `x`, every other entry is kept |
| Decoding.JsonResolve | examples/jsoncpp.cpp:19-25 | the lookup gives a node exactly when the object has a member of that name, and that member's node |
| Decoding.CastSigned | examples/jsoncpp.cpp:55 | the `static_cast` to `char`/`short`/`int` lands in the type's range and is congruent to the argument modulo 2^width |
| Decoding.CastUnsigned | examples/jsoncpp.cpp:73 | the `static_cast` to `unsigned char`/`unsigned short`/`unsigned int` lands in the type's range and is congruent modulo 2^width |
| Decoding.DecodeArith | examples/jsoncpp.cpp:40-79 | a decoded number is a value of the target type; `bool` succeeds exactly on a bool node, with its value; a non-integral node for an integer type, or a non-bool node for `bool`, fails with the matching type error |
| Decoding.DecodeString | examples/jsoncpp.cpp:83-89 | succeeds exactly on a string node and returns its text; any other node fails with the string type error |
| Decoding.Decode | examples/jsoncpp.cpp:27-130 | the corrected decoder (struct decodes start value-initialised): whatever any overload returns is a value of the requested type |
| Decoding.DecodeVector | examples/jsoncpp.cpp:91-114 | a successful vector decode yields a vector whose elements all have the element type |
| Decoding.DecodeItems | examples/jsoncpp.cpp:109-111 | the element loop over the first `n` elements, on success, yields `n` values, each of the element type |
| Decoding.DecodeStruct | examples/jsoncpp.cpp:116-130 | the corrected struct decode (starting value-initialised): on success it yields one value of the right type per field |
| Decoding.DecodeMembers | examples/jsoncpp.cpp:122-128 | the field walk keeps the number of slots and keeps every slot typed |
| Decoding.MembersErrPersists | examples/jsoncpp.cpp:122-128 | once a field fails, later fields do not change the outcome: the failure propagates unchanged |
| Decoding.ItemsErrPersists | examples/jsoncpp.cpp:109-111 | once an element fails, the whole vector decode fails with that error |
| Decoding.FromJson | examples/jsoncpp.cpp:27-130 | the overload dispatch computes `Decode` |
| Decoding.FromJsonVector | examples/jsoncpp.cpp:98-113 | the reserve/push_back loop over `j[idx]` computes `DecodeVector`: loop invariant that the pushed prefix is the decode of the first `idx` elements |
| Decoding.FromJsonStruct | examples/jsoncpp.cpp:120-129 | the in-place `for_each` over the description that assigns `f.get(r)`, started from the value-initialised instance, computes `DecodeStruct` |
| Encoding.Encode | examples/jsoncpp.cpp:132-170 | the corrected encoder (`bool` as a bool node, a struct from an empty object): every overload produces its node kind: signed node, unsigned node, bool node, string node, null or non-empty array, object |
| Encoding.EncodeVector | examples/jsoncpp.cpp:150-157 | the vector encode is null exactly for the empty vector, and otherwise an array of the vector's length |
| Encoding.EncodeItems | examples/jsoncpp.cpp:153-155 | the element loop over the first `n` elements writes `n` entries |
| Encoding.EncodeStruct | examples/jsoncpp.cpp:161-170 | the corrected struct encode: a struct always encodes as an object node |
| Encoding.EncodeMembers | examples/jsoncpp.cpp:164-168 | every key written is the name of some field entry |
| Encoding.ToJson | examples/jsoncpp.cpp:132-170 | the overload dispatch computes the corrected `Encode` |
| Encoding.ToJsonVector | examples/jsoncpp.cpp:150-157 | the loop of `v[idx] = ToJson(s[idx])` from a null node computes `EncodeVector` |
| Encoding.ToJsonStruct | examples/jsoncpp.cpp:161-170 | the loop of `v[name] = ToJson(f.get(s))`, started from an empty object in place of null, computes `EncodeStruct`, keeping every slot typed |
| Properties.DecodeInteger | examples/jsoncpp.cpp:40-74 | an integer decode fails with the type error on a non-integral node and with the range error outside the accessor's range; otherwise it yields the in-range value congruent to the number (the narrowing cast) |
| Properties.CastInRange | examples/jsoncpp.cpp:50-74 | the narrowing casts leave a number that fits the target type unchanged |
| Properties.DecodeIntegerInRange | examples/jsoncpp.cpp:40-74 | a number within the target type's range decodes to itself |
| Properties.DecodeBool | examples/jsoncpp.cpp:75-79 | `bool` decodes exactly from a bool node, to its value; an integer node fails with the bool type error |
| Properties.DecodeEncodeString | examples/jsoncpp.cpp:83-89 | a string decodes only from a string node; a string encodes as a string node and decodes back to itself |
| Properties.EncodeInteger | examples/jsoncpp.cpp:139-146 | a signed value encodes as a signed node and an unsigned value as an unsigned node holding the same number |
| Properties.ItemsOutcome | examples/jsoncpp.cpp:109-111 | the element loop succeeds iff every element decodes; element `i` of the result is element `i`'s decoding; a failure carries the error of the first failing element |
| Properties.VectorOfEmptyNode | examples/jsoncpp.cpp:98-100 | null, `[]` and `{}` decode as the empty vector |
| Properties.VectorOfScalarNode | examples/jsoncpp.cpp:101-103 | a non-empty non-array node decodes as a one-element vector of its decoding, or fails with its error |
| Properties.VectorOfArray | examples/jsoncpp.cpp:104-113 | a non-empty array decodes iff every element does, in order and with the same length; otherwise fails with the first failing element's error |
| Properties.VectorEncoding | examples/jsoncpp.cpp:150-157 | the empty vector encodes as null and decodes back to empty; otherwise element `i` of the array is the encoding of element `i` |
| Properties.MembersOutcome | examples/jsoncpp.cpp:122-128 | the field walk from any start succeeds iff every present field decodes; a present field's slot holds its decoding, an absent one keeps its start value; a failure is the first failing present field's |
| Properties.StructOfNonObject | examples/jsoncpp.cpp:120 | a struct decode of a non-object node fails with the object type error |
| Properties.StructOfObject | examples/jsoncpp.cpp:120-129 | a struct decode of an object succeeds iff every present field decodes; present fields get their decoding and absent fields their default; a failure is the first failing present field's |
| Properties.StructIgnoresForeignKey | examples/jsoncpp.cpp:122-127 | only the names of field entries are read: adding an entry under any other key does not change the decode |
| Properties.StructEncodingKeys | examples/jsoncpp.cpp:164-168 | the encoded object's keys are exactly the names of the field entries |
| Properties.StructEncodingEntries | examples/jsoncpp.cpp:164-168 | with distinct field names, each field's key holds the encoding of that field's value |
| Properties.RoundTrip | examples/jsoncpp.cpp:27-170 | for every well-formed type and every value of it, decoding the encoding gives back the value |
| Properties.RoundTripItems | examples/jsoncpp.cpp:104-113 | decoding the first `n` encoded elements gives back the first `n` elements |
| Properties.RoundTripMembers | examples/jsoncpp.cpp:120-129 | after the first `n` entries of the walk over an encoded struct, the slots so far hold the original fields and the rest are still defaults |
| Findings.EncodeArithAsWritten | examples/jsoncpp.cpp:139-146 | as written, the arithmetic encode stores `bool` as the unsigned number 0 or 1 (`std::is_unsigned_v<bool>` holds) and other numbers by signedness |
| Findings.EncodeAsWritten | examples/jsoncpp.cpp:132-170 | the whole encoder as written: a `bool` at any level becomes an unsigned node, and a struct is null exactly when it has no fields |
| Findings.VectorAsWritten | examples/jsoncpp.cpp:150-157 | the vector loop as written, with the elements encoded as written: null exactly for the empty vector, otherwise an array of its length |
| Findings.ItemsAsWritten | examples/jsoncpp.cpp:153-155 | the as-written element loop over the first `n` elements writes `n` entries |
| Findings.WriteFromNull | examples/jsoncpp.cpp:163-169 | the struct walk as written, from a null node: the node stays null exactly when the description has no fields, and otherwise becomes an object |
| Findings.NoFieldsWriteNothing | examples/jsoncpp.cpp:163-169 | a description without field entries writes nothing |
| Findings.EncodeAgrees | examples/jsoncpp.cpp:132-170 | on every type with no `bool` and no struct without fields, at any level, the as-written encoder gives exactly the corrected encoding |
| Findings.ItemsAgree | examples/jsoncpp.cpp:153-155 | on such element types, the as-written element loop writes the corrected entries |
| Findings.WriteFromNullAgrees | examples/jsoncpp.cpp:163-169 | the as-written walk gives null while no field has been written, and afterwards the object holding exactly the corrected walk's entries |
| Findings.DefaultInitialized | examples/jsoncpp.cpp:121 | every instance that `T r;` may leave in an aggregate without default member initialisers, such as `Object`: any value of each scalar member's type, with empty string and vector members |
| Findings.FieldsDefaultInitialized | examples/jsoncpp.cpp:121 | default-initialised slots of a struct are typed slots |
| Findings.DecodeAsWritten | examples/jsoncpp.cpp:27-130 | the whole decoder as written, where each struct decode starts from an instance `T r;` may leave: its results are typed, and scalar and string decodes are the corrected ones |
| Findings.VectorDecodeAsWritten | examples/jsoncpp.cpp:91-114 | the vector decode as written, with the elements decoded as written: typed on success, and an empty node gives the empty vector |
| Findings.ItemsDecodeAsWritten | examples/jsoncpp.cpp:109-111 | the as-written element loop yields `n` typed values on success |
| Findings.StructDecodeAsWritten | examples/jsoncpp.cpp:116-130 | the struct decode as written, from `T r;`: typed on success, and a non-object node gives the object type error |
| Findings.MembersDecodeAsWritten | examples/jsoncpp.cpp:122-128 | the as-written field walk keeps the number of slots and keeps typed slots typed |
| Findings.ValueInit | examples/jsoncpp.cpp:121 | the value-initialised choice gives every struct type its default field values |
| Findings.ValueInitAdmissible | examples/jsoncpp.cpp:121 | value-initialisation is one of the outcomes `T r;` may have, for every struct type |
| Findings.DefaultIsDefaultInitialized | examples/jsoncpp.cpp:121 | the value-initialised value of every type is one that `T r;` may leave |
| Findings.DecodeWithValueInit | examples/jsoncpp.cpp:116-130 | the corrected decoder is the as-written decoder with every `T r;` replaced by `T r{};` |
| Findings.ItemsDecodeAgree | examples/jsoncpp.cpp:109-111 | where each element's as-written decode is the corrected one, so is the element loop's |
| Findings.MembersDecodeAgree | examples/jsoncpp.cpp:122-128 | where each present field's as-written decode is the corrected one, the as-written walk from any start is the corrected walk from that start |
| Findings.MembersIndependentOfInit | examples/jsoncpp.cpp:122-128 | when every field is present, the walk gives the same outcome from any starting slots |
| Findings.CompleteAgrees | examples/jsoncpp.cpp:116-130 | on a document that supplies every field of every struct it reaches, the as-written decoder gives the corrected decoding, whatever `T r;` leaves |
| Findings.EncodingIsComplete | examples/jsoncpp.cpp:159-170 | every encoding of a value of a well-formed type supplies every field of every struct in it |
| Findings.RoundTripAsWritten | examples/jsoncpp.cpp:27-170 | the program as written round-trips every value of a well-formed type with no `bool` and no struct without fields, whatever `T r;` leaves |
| Findings.BoolDoesNotRoundTripAsWritten | examples/jsoncpp.cpp:75-77 | no `bool` survives the as-written encode: decoding it fails with the bool type error |
| Findings.BoolRoundTrip | examples/jsoncpp.cpp:139-146 | the corrected encode differs from the source's only for `bool`, which it stores as a bool node, and it round-trips |
| Findings.NestedBoolAsWritten | examples/jsoncpp.cpp:143-144 | a struct with one `bool` member `true` encodes as `{"flag": 1u}` as written, and that document fails to decode with the bool type error |
| Findings.BoolVectorAsWritten | examples/jsoncpp.cpp:150-157 | `std::vector<bool>{false}` encodes as `[0u]` as written, and that array fails to decode with the bool type error |
| Findings.EmptyStructDoesNotRoundTripAsWritten | examples/jsoncpp.cpp:120 | a struct with no fields encodes as null as written, which the struct decode rejects with the object type error |
| Findings.EmptyStructRoundTrip | examples/jsoncpp.cpp:161-170 | with the corrected start, an empty object, a struct with no fields encodes as `{}` and decodes back; with any field the two encodes agree |
| Findings.VectorOfStructUnresolved | examples/jsoncpp.cpp:102-110 | as written, `FromJson<std::vector<S>>` for a described `S` does not instantiate, nor does any struct holding such a vector; a struct holding a struct does |
| Findings.AbsentFieldIsIndeterminateAsWritten | examples/jsoncpp.cpp:121 | with `size` absent, two instances that `T r;` may leave decode to different values, 0 and 7 |
| SampleObject.ObjectShape | examples/jsoncpp.cpp:172-182 | the description of `Object` has three field slots and the default `{[], 0, ""}`, and the sample instance has its type |
| SampleObject.SampleBytesDecode | examples/jsoncpp.cpp:188 | `[2, 4, 8, 16, 32]` decodes to the `unsigned char` vector of the same numbers |
| SampleObject.ObjectDecode | examples/jsoncpp.cpp:116-130 | an `Object` decode is fixed by each present field's decoding, and by the defaults for absent fields |
| SampleObject.SampleDecodes | examples/jsoncpp.cpp:186-198 | the demo document decodes to `{bytes = [2,4,8,16,32], size = 128, name = "hehe"}` |
| SampleObject.SampleBytesEncode | examples/jsoncpp.cpp:150-157 | the sample's `bytes` vector encodes as the array of the same numbers as unsigned nodes |
| SampleObject.SampleEncodes | examples/jsoncpp.cpp:199 | encoding the instance gives an object with the three keys, the numbers as unsigned nodes |
| SampleObject.SampleRoundTrip | examples/jsoncpp.cpp:198-199 | decoding the encoded instance gives back the instance |
| SampleObject.SampleRoundTripAsWritten | examples/jsoncpp.cpp:116-170 | the engine as written round-trips the sample instance, whatever `T r;` leaves |
| SampleObject.MainAsWritten | examples/jsoncpp.cpp:184-199 | what `main` computes as written: `FromJson<Object>` instantiates, decodes the parsed document to the instance whatever `T r;` leaves, and `ToJson` gives the object with `bytes` as unsigned nodes, `size` as `128u` and `name` as `"hehe"` |
| SampleObject.SampleInstantiates | examples/jsoncpp.cpp:91-130 | `FromJson<Object>` instantiates, the demo document supplies every field of `Object`, and `Object` holds no `bool` and no fieldless struct |
| SampleObject.MissingFieldsKeepDefaults | examples/jsoncpp.cpp:124-126 | the corrected decoder, on a document with only `name`, gives an empty `bytes` and zero `size` (as written, `size` would be indeterminate) |
| SampleObject.ScalarAsVectorNarrows | examples/jsoncpp.cpp:101-102 | a bare `300` where `bytes` is expected gives the one-element vector `[44]` |
| SampleObject.WrongKindAborts | examples/jsoncpp.cpp:124-125 | a string under `size` aborts the decode with the integer type error before `name` is read |
| SampleObject.NestedRoundTrip | examples/jsoncpp.cpp:116-170 | a struct holding an `Object` and a string vector is one `FromJson` instantiates, and it round-trips |

## Left out

- Text parsing and rendering (`Json::Reader::parse`, `operator<<`) and the body of `main` are not modelled. The decoder starts from a tree, and the demo's document is given as that tree.
- `float`, `double` and `long double` (the `isDouble` branches) are floating point and are not modelled. The floating-point conversion that `ToJson` does is left out for the same reason, and so are real nodes: `isIntegral` on a double with an integral value is not modelled.
- Types that meet the arithmetic guard but reach the final `assert(false)` (`signed char`, `long long`, `unsigned long long` on platforms where they differ from the 64-bit kinds, `wchar_t`, `char16_t`, ...) are not in `Ty`.
- The `describe` macros, template metaprogramming and SFINAE selection are not executable code here. A description is an explicit `seq<Member>`, and the overload choice is a match on `Ty`.
- Error messages are not modelled. Only the error kind is kept.
- An exception thrown inside jsoncpp is modelled as `Err(OutOfRange)` and not as a C++ exception.
- The order of an object's keys is left out: an object is a `map`.
- The loop counter of the vector encode is an `int` compared against `size()`, and it would overflow past 2^31 elements. The model's index is unbounded.
- `char` is taken to be signed. Narrowing past a signed type's range is implementation-defined before C++20, and the model fixes it as reduction modulo 2^width.
- Findings.DecodeAsWritten takes the instance that `T r;` leaves as one choice per struct type (`init`), so two decodes of the same type in one run are modelled as starting from the same garbage. Reading an indeterminate value is undefined behaviour in C++; the model only admits any value of the member's type there.
- Decoding.DecodeVector defines the decode of a vector whose element is, or holds, a described struct. The source rejects this at compile time, because the element call at lines 102 and 110 only sees the overloads declared above it, and argument-dependent lookup on `Json::Value` reaches only namespace `Json`. Properties.RoundTrip and Findings.RoundTripAsWritten range over these types too. `Findings.DecodeResolves` names the types for which the source's `FromJson` instantiates.
- Descriptor.Default: described structs are taken to be aggregates without default member initialisers and without a user-provided default constructor, as `Object` is. A member such as `std::string name = "anon";` keeps its initialiser under both `T r;` and `T r{}`, and `Ty` cannot express it.
- Findings.DefaultInitialized: for the same reason it forces empty string and vector members, which excludes a member initialiser such as `"anon"`.
- Memory, object lifetime and aliasing of `Json::Value`: nodes are values.

## Findings

| source | as written | input that shows it | evidently intended | confidence | as-written member | corrected member |
|---|---|---|---|---|---|---|
| examples/jsoncpp.cpp:143-144 | `std::is_unsigned_v<bool>` holds, so a `bool` is encoded as the unsigned number 0 or 1; `FromJson<bool>` then demands `isBool()` and throws | `ToJson(true)` gives `1u`, then `FromJson<bool>` throws "required value is not a bool" | `bool` encoded as a bool node, so decoding undoes encoding | not executed | Findings.BoolDoesNotRoundTripAsWritten | Findings.BoolRoundTrip |
| examples/jsoncpp.cpp:163-169 | the struct encode starts from a null `Json::Value` and only assignments make it an object, so a struct without fields encodes as `null`, which `FromJson` rejects with "required value is not a object" | a described struct with no `MEMBER` entries | an empty object `{}` that decodes back | not executed | Findings.EmptyStructDoesNotRoundTripAsWritten | Findings.EmptyStructRoundTrip |
| examples/jsoncpp.cpp:121 | `T r;` default-initialises, so an arithmetic field absent from the document is left indeterminate | `{}` decoded as a struct with a `std::size_t size` field | absent fields value-initialised (`T r{};`), so they read as zero | not executed | Findings.AbsentFieldIsIndeterminateAsWritten | Properties.StructOfObject |
