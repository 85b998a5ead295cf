/** `FromJson`: decoding a jsoncpp tree into a value of a described type.
    The functions specify each overload; the methods follow the source's
    loops and are proved to compute those functions. */
module Decoding {
  import opened Outcome
  import opened JsonValue
  import opened Descriptor

  /** Reduction modulo `m` changes a number by a multiple of `m`. */
  lemma ModCongruent(y: int, m: int)
    requires m > 0
    ensures (y % m - y) % m == 0
  {
    var q := y / m;
    assert y % m - y == (-q) * m;
    MultipleMod(-q, m);
  }

  lemma MultipleMod(k: int, m: int)
    requires m > 0
    ensures (k * m) % m == 0
  {
    var d, s := (k * m) / m, (k * m) % m;
    assert (k - d) * m == s;
    assert k - d == 0 by {
      if k - d != 0 {
        MultipleBounds(k - d, m);
      }
    }
  }

  /** A nonzero multiple of `m` lies outside `0 .. m - 1`. */
  lemma MultipleBounds(c: int, m: int)
    requires m > 0 && c != 0
    ensures c * m < 0 || c * m >= m
  {
    if c > 0 {
      assert c * m == (c - 1) * m + m;
    }
  }

  /** `static_cast` of an in-range `int` to a narrower signed type: the
      unique value of the type congruent to `x` modulo 2^width. */
  function CastSigned(x: int, w: Width): (r: int)
    ensures InRange(SignedT(w), r)
    ensures (r - x) % Modulus(w) == 0
  {
    var m := Modulus(w);
    ModCongruent(x + m / 2, m);
    (x + m / 2) % m - m / 2
  }

  /** `static_cast` to a narrower unsigned type: reduction modulo 2^width. */
  function CastUnsigned(x: int, w: Width): (r: int)
    ensures InRange(UnsignedT(w), r)
    ensures (r - x) % Modulus(w) == 0
  {
    ModCongruent(x, Modulus(w));
    x % Modulus(w)
  }

  /** The arithmetic overload. A 64-bit type reads the number through
      `asLargestInt`/`asLargestUInt`; a narrower one through
      `asInt`/`asUInt` and then narrows it. `bool` needs a bool node. */
  function DecodeArith(t: Ty, j: Json): (r: Result<Val>)
    requires IsArithmetic(t)
    ensures r.Ok? ==> HasType(r.value, t)
    ensures t.BoolT? ==> (r.Ok? <==> j.Bool?) && (r.Ok? ==> r.value == VBool(j.b))
    ensures !t.BoolT? && r.Ok? ==> IsIntegral(j)
    ensures !t.BoolT? && !IsIntegral(j) ==> r == Err(TypeMismatch(Integer))
    ensures t.BoolT? && !j.Bool? ==> r == Err(TypeMismatch(Boolean))
  {
    match t
    case BoolT =>
      if !j.Bool? then Err(TypeMismatch(Boolean)) else Ok(VBool(j.b))
    case SignedT(w) =>
      if !IsIntegral(j) then Err(TypeMismatch(Integer))
      else if w == W64 then
        (match AsLargestInt(j)
         case Ok(n) => Ok(VInt(n))
         case Err(e) => Err(e))
      else
        (match AsInt(j)
         case Ok(n) => Ok(VInt(CastSigned(n, w)))
         case Err(e) => Err(e))
    case UnsignedT(w) =>
      if !IsIntegral(j) then Err(TypeMismatch(Integer))
      else if w == W64 then
        (match AsLargestUInt(j)
         case Ok(n) => Ok(VInt(n))
         case Err(e) => Err(e))
      else
        (match AsUInt(j)
         case Ok(n) => Ok(VInt(CastUnsigned(n, w)))
         case Err(e) => Err(e))
  }

  /** The overload for types convertible to `std::string`. */
  function DecodeString(j: Json): (r: Result<Val>)
    ensures r.Ok? <==> j.String?
    ensures r.Ok? ==> r.value == VStr(j.s)
    ensures !j.String? ==> r == Err(TypeMismatch(Text))
  {
    if !j.String? then Err(TypeMismatch(Text)) else Ok(VStr(j.s))
  }

  /** `JsonResolve`: the member of an object node stored under `name`. */
  function JsonResolve(j: Json, name: string): (r: Option<Json>)
    requires j.Object?
    ensures r.Some? <==> name in j.members
    ensures r.Some? ==> r.value == j.members[name]
  {
    Find(j, name)
  }

  /** `FromJson<T>`: the overload `t` selects. A decoded value is always a
      value of `t`. */
  function Decode(t: Ty, j: Json): (r: Result<Val>)
    ensures r.Ok? ==> HasType(r.value, t)
    decreases t, 2
  {
    match t
    case StrT => DecodeString(j)
    case VecT(e) => DecodeVector(e, j)
    case StructT(ms) => DecodeStruct(ms, j)
    case _ => DecodeArith(t, j)
  }

  /** The `std::vector` overload: an empty node gives the empty vector, a
      non-array node a one-element vector, an array the decoded elements. */
  function DecodeVector(e: Ty, j: Json): (r: Result<Val>)
    ensures r.Ok? ==> HasType(r.value, VecT(e))
    decreases VecT(e), 1
  {
    if IsEmpty(j) then Ok(VVec([]))
    else if !j.Array? then
      match Decode(e, j)
      case Ok(v) => Ok(VVec([v]))
      case Err(x) => Err(x)
    else
      match DecodeItems(e, j.items, |j.items|)
      case Ok(vs) => Ok(VVec(vs))
      case Err(x) => Err(x)
  }

  /** The elements `items[..n]` decoded in order; the first failure wins. */
  function DecodeItems(e: Ty, items: seq<Json>, n: nat): (r: Result<seq<Val>>)
    requires n <= |items|
    ensures r.Ok? ==> |r.value| == n && forall i :: 0 <= i < n ==> HasType(r.value[i], e)
    decreases VecT(e), 0, n
  {
    if n == 0 then Ok([])
    else
      match DecodeItems(e, items, n - 1)
      case Err(x) => Err(x)
      case Ok(vs) =>
        match Decode(e, items[n - 1])
        case Err(x) => Err(x)
        case Ok(v) => Ok(vs + [v])
  }

  /** The described-struct overload: an object node is required; the
      fields start value-initialised (see README, Findings). */
  function DecodeStruct(ms: seq<Member>, j: Json): (r: Result<Val>)
    ensures r.Ok? ==> HasType(r.value, StructT(ms))
    decreases StructT(ms), 1
  {
    if !j.Object? then Err(TypeMismatch(JsonObject))
    else
      match DecodeMembers(ms, |ms|, j, DefaultFields(ms, |ms|))
      case Ok(fs) => Ok(VStruct(fs))
      case Err(x) => Err(x)
  }

  /** The field walk over `ms[..n]`, starting from the slots `init`: a
      field whose name the object holds is overwritten by its decoded
      value, an absent field keeps its slot, and a failing field aborts
      the walk. Slots of entries at or beyond `n` are untouched. */
  function DecodeMembers(ms: seq<Member>, n: nat, j: Json, init: seq<Val>): (r: Result<seq<Val>>)
    requires j.Object? && n <= |ms| && FieldPos(ms, n) <= |init|
    ensures r.Ok? ==> |r.value| == |init|
    ensures r.Ok? && FieldsTyped(ms, |ms|, init) ==> FieldsTyped(ms, |ms|, r.value)
    decreases StructT(ms), 0, n
  {
    if n == 0 then Ok(init)
    else
      match DecodeMembers(ms, n - 1, j, init)
      case Err(x) => Err(x)
      case Ok(cur) =>
        match ms[n - 1]
        case NonField(_) => Ok(cur)
        case Field(name, ft) =>
          match JsonResolve(j, name)
          case None => Ok(cur)
          case Some(node) =>
            match Decode(ft, node)
            case Err(x) => Err(x)
            case Ok(v) =>
              FieldsTypedUpdate(ms, |ms|, cur, n - 1, v);
              Ok(cur[FieldPos(ms, n - 1) := v])
  }

  /** Once the walk over a prefix fails, the whole walk fails the same way. */
  lemma {:induction false} MembersErrPersists(ms: seq<Member>, n: nat, k: nat, j: Json, init: seq<Val>)
    requires j.Object? && n <= k <= |ms| && FieldPos(ms, k) <= |init|
    requires FieldPos(ms, n) <= |init|
    requires DecodeMembers(ms, n, j, init).Err?
    ensures DecodeMembers(ms, k, j, init) == DecodeMembers(ms, n, j, init)
    decreases k
  {
    if n < k {
      FieldPosMono(ms, k - 1, k);
      MembersErrPersists(ms, n, k - 1, j, init);
    }
  }

  lemma {:induction false} ItemsErrPersists(e: Ty, items: seq<Json>, n: nat, k: nat)
    requires n <= k <= |items|
    requires DecodeItems(e, items, n).Err?
    ensures DecodeItems(e, items, k) == DecodeItems(e, items, n)
    decreases k
  {
    if n < k {
      ItemsErrPersists(e, items, n, k - 1);
    }
  }

  /** `FromJson<T>(j)`: dispatch on the overload. */
  method FromJson(t: Ty, j: Json) returns (r: Result<Val>)
    ensures r == Decode(t, j)
    decreases t, 2
  {
    match t {
      case VecT(e) => r := FromJsonVector(e, j);
      case StructT(ms) => r := FromJsonStruct(ms, j);
      case StrT => r := DecodeString(j);
      case _ => r := DecodeArith(t, j);
    }
  }

  /** The vector overload's loop: `reserve` then one `push_back` per index. */
  method FromJsonVector(e: Ty, j: Json) returns (r: Result<Val>)
    ensures r == DecodeVector(e, j)
    decreases VecT(e), 1
  {
    if IsEmpty(j) {
      return Ok(VVec([]));
    }
    if !j.Array? {
      var x := FromJson(e, j);
      if x.Err? {
        return Err(x.error);
      }
      return Ok(VVec([x.value]));
    }
    var vec: seq<Val> := [];
    var size := |j.items|;
    var idx := 0;
    while idx < size
      invariant 0 <= idx <= size
      invariant DecodeItems(e, j.items, idx) == Ok(vec)
    {
      var x := FromJson(e, j.items[idx]);
      if x.Err? {
        ItemsErrPersists(e, j.items, idx + 1, size);
        return Err(x.error);
      }
      vec := vec + [x.value];
      idx := idx + 1;
    }
    r := Ok(VVec(vec));
  }

  /** The struct overload's walk: the instance's slots are overwritten in
      place, one present field at a time. */
  method FromJsonStruct(ms: seq<Member>, j: Json) returns (r: Result<Val>)
    ensures r == DecodeStruct(ms, j)
    decreases StructT(ms), 1
  {
    if !j.Object? {
      return Err(TypeMismatch(JsonObject));
    }
    ghost var init := DefaultFields(ms, |ms|);
    var fields := DefaultFields(ms, |ms|);
    var i := 0;
    while i < |ms|
      invariant 0 <= i <= |ms|
      invariant FieldPos(ms, i) <= |init|
      invariant DecodeMembers(ms, i, j, init) == Ok(fields)
    {
      FieldPosMono(ms, i + 1, |ms|);
      if ms[i].Field? {
        var found := JsonResolve(j, ms[i].name);
        if found.Some? {
          var x := FromJson(ms[i].ty, found.value);
          if x.Err? {
            MembersErrPersists(ms, i + 1, |ms|, j, init);
            return Err(x.error);
          }
          fields := fields[FieldPos(ms, i) := x.value];
        }
      }
      i := i + 1;
    }
    r := Ok(VStruct(fields));
  }
}
