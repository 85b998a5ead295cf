/** Static type descriptors and typed values. A `Ty` stands for the C++
    type that selects a `FromJson`/`ToJson` overload; `StructT` carries the
    ordered entry list that a `DESCRIBE` block registers. */
module Descriptor {

  /** Widths of the supported integer types. */
  datatype Width = W8 | W16 | W32 | W64

  function Modulus(w: Width): (m: nat)
    ensures m >= 0x100
  {
    match w
    case W8 => 0x100
    case W16 => 0x1_0000
    case W32 => 0x1_0000_0000
    case W64 => 0x1_0000_0000_0000_0000
  }

  datatype Ty =
    | SignedT(width: Width)    // char, short, int, Json::Int64 (= LargestInt)
    | UnsignedT(width: Width)  // unsigned char, unsigned short, unsigned int, std::size_t (= UInt64 = LargestUInt)
    | BoolT
    | StrT                     // any type convertible to std::string
    | VecT(elem: Ty)           // std::vector<elem>
    | StructT(members: seq<Member>)  // a described struct

  /** One entry of a description: a data member, or any other described
      entry (`f.is_field` is false), which both directions skip. */
  datatype Member =
    | Field(name: string, ty: Ty)
    | NonField(name: string)

  /** A value of some `Ty`. A struct holds one value per `Field` entry, in
      declaration order; `FieldPos` gives an entry's slot. */
  datatype Val =
    | VBool(b: bool)
    | VInt(n: int)
    | VStr(s: string)
    | VVec(items: seq<Val>)
    | VStruct(fields: seq<Val>)

  /** The four overload guards: `std::is_arithmetic_v`,
      `std::is_convertible_v<T, std::string>`, `is_std_vector_v` and
      `describe::is_described_struct_v`. */
  predicate IsArithmetic(t: Ty) {
    t.SignedT? || t.UnsignedT? || t.BoolT?
  }

  predicate IsConvertibleToString(t: Ty) {
    t.StrT?
  }

  predicate IsStdVector(t: Ty) {
    t.VecT?
  }

  predicate IsDescribedStruct(t: Ty) {
    t.StructT?
  }

  /** Number of `Field` entries among `ms[..i]`: the slot of entry `i`. */
  function FieldPos(ms: seq<Member>, i: nat): (k: nat)
    requires i <= |ms|
    ensures k <= i
  {
    if i == 0 then 0 else FieldPos(ms, i - 1) + (if ms[i - 1].Field? then 1 else 0)
  }

  function FieldCount(ms: seq<Member>): nat {
    FieldPos(ms, |ms|)
  }

  lemma {:induction false} FieldPosMono(ms: seq<Member>, i: nat, k: nat)
    requires i <= k <= |ms|
    ensures FieldPos(ms, i) <= FieldPos(ms, k)
    decreases k
  {
    if i < k {
      FieldPosMono(ms, i, k - 1);
    }
  }

  /** A `Field` entry owns its slot: every later entry's slot is beyond it. */
  lemma FieldPosStrict(ms: seq<Member>, i: nat, k: nat)
    requires i < k <= |ms| && ms[i].Field?
    ensures FieldPos(ms, i) < FieldPos(ms, k)
  {
    FieldPosMono(ms, i + 1, k);
  }

  /** The range of an integer type. */
  predicate InRange(t: Ty, n: int)
    requires t.SignedT? || t.UnsignedT?
  {
    if t.SignedT? then -(Modulus(t.width) / 2) <= n < Modulus(t.width) / 2
    else 0 <= n < Modulus(t.width)
  }

  /** `v` is a value of the C++ type `t`. */
  predicate HasType(v: Val, t: Ty)
    decreases t, 2
  {
    match t
    case SignedT(_) => v.VInt? && InRange(t, v.n)
    case UnsignedT(_) => v.VInt? && InRange(t, v.n)
    case BoolT => v.VBool?
    case StrT => v.VStr?
    case VecT(e) => v.VVec? && forall i :: 0 <= i < |v.items| ==> HasType(v.items[i], e)
    case StructT(ms) => v.VStruct? && |v.fields| == FieldCount(ms) && FieldsTyped(ms, |ms|, v.fields)
  }

  /** Every `Field` entry among `ms[..n]` has a slot in `fs` holding a value
      of its type. */
  predicate FieldsTyped(ms: seq<Member>, n: nat, fs: seq<Val>)
    requires n <= |ms|
    decreases StructT(ms), 0, n
  {
    if n == 0 then true
    else
      && FieldsTyped(ms, n - 1, fs)
      && (ms[n - 1].Field? ==>
            FieldPos(ms, n - 1) < |fs| && HasType(fs[FieldPos(ms, n - 1)], ms[n - 1].ty))
  }

  lemma {:induction false} FieldsTypedAt(ms: seq<Member>, n: nat, fs: seq<Val>, i: nat)
    requires i < n <= |ms| && ms[i].Field? && FieldsTyped(ms, n, fs)
    ensures FieldPos(ms, i) < |fs| && HasType(fs[FieldPos(ms, i)], ms[i].ty)
    decreases n
  {
    if i < n - 1 {
      FieldsTypedAt(ms, n - 1, fs, i);
    }
  }

  /** Writing a value of the right type into a field's slot keeps the
      slots typed. */
  lemma {:induction false} FieldsTypedUpdate(ms: seq<Member>, n: nat, fs: seq<Val>, i: nat, v: Val)
    requires n <= |ms| && i < |ms| && ms[i].Field? && FieldPos(ms, i) < |fs|
    requires HasType(v, ms[i].ty)
    ensures FieldsTyped(ms, n, fs) ==> FieldsTyped(ms, n, fs[FieldPos(ms, i) := v])
    decreases n
  {
    if n > 0 {
      FieldsTypedUpdate(ms, n - 1, fs, i, v);
      if ms[n - 1].Field? && n - 1 != i {
        if n - 1 < i {
          FieldPosStrict(ms, n - 1, i);
        } else {
          FieldPosStrict(ms, i, n - 1);
        }
      }
    }
  }

  lemma {:induction false} FieldsTypedPrefix(ms: seq<Member>, n: nat, k: nat, fs: seq<Val>)
    requires n <= k <= |ms| && FieldsTyped(ms, k, fs)
    ensures FieldsTyped(ms, n, fs)
    decreases k
  {
    if n < k {
      FieldsTypedPrefix(ms, n, k - 1, fs);
    }
  }

  lemma {:induction false} FieldsTypedExtend(ms: seq<Member>, n: nat, fs: seq<Val>, more: seq<Val>)
    requires n <= |ms|
    ensures FieldsTyped(ms, n, fs) ==> FieldsTyped(ms, n, fs + more)
    decreases n
  {
    if n > 0 {
      FieldsTypedExtend(ms, n - 1, fs, more);
    }
  }

  /** The value-initialised value of a type (`T{}`): zero, false, the
      empty string, the empty vector, and a struct of such values. */
  function Default(t: Ty): (v: Val)
    ensures HasType(v, t)
    decreases t, 2
  {
    match t
    case SignedT(_) => VInt(0)
    case UnsignedT(_) => VInt(0)
    case BoolT => VBool(false)
    case StrT => VStr("")
    case VecT(_) => VVec([])
    case StructT(ms) => VStruct(DefaultFields(ms, |ms|))
  }

  function DefaultFields(ms: seq<Member>, n: nat): (fs: seq<Val>)
    requires n <= |ms|
    ensures |fs| == FieldPos(ms, n) && FieldsTyped(ms, n, fs)
    decreases StructT(ms), 0, n
  {
    if n == 0 then []
    else
      var prefix := DefaultFields(ms, n - 1);
      match ms[n - 1]
      case NonField(_) => prefix
      case Field(_, ft) =>
        FieldsTypedExtend(ms, n - 1, prefix, [Default(ft)]);
        prefix + [Default(ft)]
  }

  /** No two `Field` entries share a name. */
  predicate DistinctFieldNames(ms: seq<Member>) {
    forall i, k :: 0 <= i < k < |ms| && ms[i].Field? && ms[k].Field? ==> ms[i].name != ms[k].name
  }

  /** Every struct reachable from `t` has distinct field names; a
      description that repeats a name cannot round-trip, since both
      entries encode under one key. */
  predicate WellFormed(t: Ty)
    decreases t
  {
    match t
    case VecT(e) => WellFormed(e)
    case StructT(ms) =>
      && DistinctFieldNames(ms)
      && forall i :: 0 <= i < |ms| && ms[i].Field? ==> WellFormed(ms[i].ty)
    case _ => true
  }

  /** Exactly one overload guard holds of every supported type, so the
      overload set is never empty and never ambiguous. */
  lemma ExactlyOneOverload(t: Ty)
    ensures IsArithmetic(t) || IsConvertibleToString(t) || IsStdVector(t) || IsDescribedStruct(t)
    ensures !(IsArithmetic(t) && IsConvertibleToString(t)) && !(IsArithmetic(t) && IsStdVector(t))
    ensures !(IsArithmetic(t) && IsDescribedStruct(t)) && !(IsConvertibleToString(t) && IsStdVector(t))
    ensures !(IsConvertibleToString(t) && IsDescribedStruct(t)) && !(IsStdVector(t) && IsDescribedStruct(t))
  {
  }
}
