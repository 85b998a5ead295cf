/** The jsoncpp `Json::Value` tree, as far as the conversion engine uses it.
    The queries and updates below fix what the engine assumes of the library:
    the `is*` queries are tag checks, `empty()` holds of null and of a
    container of size 0, `find` looks a key up in an object, and `v[i] = x`
    or `v[k] = x` on a null node first turns it into an array or an object. */
module JsonValue {
  import opened Outcome

  const MIN_INT: int := -0x8000_0000
  const MAX_INT: int := 0x7FFF_FFFF
  const MAX_UINT: int := 0xFFFF_FFFF
  const MIN_INT64: int := -0x8000_0000_0000_0000
  const MAX_INT64: int := 0x7FFF_FFFF_FFFF_FFFF
  const MAX_UINT64: int := 0xFFFF_FFFF_FFFF_FFFF

  /** Storage of jsoncpp's intValue and uintValue nodes. */
  type Int64 = i: int | MIN_INT64 <= i <= MAX_INT64
  type UInt64 = u: int | 0 <= u <= MAX_UINT64

  /** A node. Floating-point (realValue) nodes are not part of this model. */
  datatype Json =
    | Null
    | Bool(b: bool)
    | Int(i: Int64)
    | UInt(u: UInt64)
    | String(s: string)
    | Array(items: seq<Json>)
    | Object(members: map<string, Json>)

  /** `isIntegral()`: a signed or unsigned integer node. Such a node is a
      scalar: it is not empty, not an array and not an object. */
  predicate IsIntegral(j: Json): (b: bool)
    ensures b ==> !IsEmpty(j) && !j.Array? && !j.Object?
  {
    j.Int? || j.UInt?
  }

  /** The number an integer node holds. */
  function Number(j: Json): int
    requires IsIntegral(j)
  {
    if j.Int? then j.i else j.u
  }

  /** `empty()`: true of null and of an array or object with no entries. */
  predicate IsEmpty(j: Json): (b: bool)
    ensures b <==> j == Null || j == Array([]) || j == Object(map[])
  {
    match j
    case Null => true
    case Array(items) => |items| == 0
    case Object(members) => |members| == 0
    case _ => false
  }

  /** The common shape of `asInt`, `asUInt`, `asLargestInt` and
      `asLargestUInt` on an integer node: the number itself when it lies in
      the accessor's range, the library's out-of-range failure otherwise. */
  function AsInteger(j: Json, lo: int, hi: int): (r: Result<int>)
    requires IsIntegral(j)
    ensures r.Ok? <==> lo <= Number(j) <= hi
    ensures r.Ok? ==> r.value == Number(j)
    ensures r.Err? ==> r.error == OutOfRange
  {
    var n := Number(j);
    if lo <= n <= hi then Ok(n) else Err(OutOfRange)
  }

  function AsInt(j: Json): (r: Result<int>)
    requires IsIntegral(j)
    ensures r.Ok? <==> MIN_INT <= Number(j) <= MAX_INT
    ensures r.Ok? ==> r.value == Number(j)
    ensures r.Err? ==> r.error == OutOfRange
  {
    AsInteger(j, MIN_INT, MAX_INT)
  }

  function AsUInt(j: Json): (r: Result<int>)
    requires IsIntegral(j)
    ensures r.Ok? <==> 0 <= Number(j) <= MAX_UINT
    ensures r.Ok? ==> r.value == Number(j)
    ensures r.Err? ==> r.error == OutOfRange
  {
    AsInteger(j, 0, MAX_UINT)
  }

  function AsLargestInt(j: Json): (r: Result<int>)
    requires IsIntegral(j)
    ensures r.Ok? <==> MIN_INT64 <= Number(j) <= MAX_INT64
    ensures r.Ok? ==> r.value == Number(j)
    ensures r.Err? ==> r.error == OutOfRange
  {
    AsInteger(j, MIN_INT64, MAX_INT64)
  }

  function AsLargestUInt(j: Json): (r: Result<int>)
    requires IsIntegral(j)
    ensures r.Ok? <==> 0 <= Number(j) <= MAX_UINT64
    ensures r.Ok? ==> r.value == Number(j)
    ensures r.Err? ==> r.error == OutOfRange
  {
    AsInteger(j, 0, MAX_UINT64)
  }

  /** `find(name)`: the member stored under `name`, if any; jsoncpp
      accepts only null and object nodes here. */
  function Find(j: Json, name: string): (r: Option<Json>)
    requires j.Null? || j.Object?
    ensures r.Some? <==> j.Object? && name in j.members
    ensures r.Some? ==> r.value == j.members[name]
  {
    if j.Object? && name in j.members then Some(j.members[name]) else None
  }

  function Nulls(n: nat): (r: seq<Json>)
    ensures |r| == n && forall i :: 0 <= i < n ==> r[i] == Null
  {
    if n == 0 then [] else Nulls(n - 1) + [Null]
  }

  /** `v[idx] = x`: a null node becomes an array; an array grows with
      null entries up to `idx` when it is too short. */
  function SetIndex(v: Json, idx: nat, x: Json): (r: Json)
    requires v.Null? || v.Array?
    ensures r.Array?
    ensures var old_items := if v.Null? then [] else v.items;
      && |r.items| == (if idx < |old_items| then |old_items| else idx + 1)
      && r.items[idx] == x
      && (forall k :: 0 <= k < |old_items| && k != idx ==> r.items[k] == old_items[k])
      && (forall k :: |old_items| <= k < idx ==> r.items[k] == Null)
  {
    var items := if v.Null? then [] else v.items;
    if idx < |items| then Array(items[idx := x])
    else Array(items + Nulls(idx - |items|) + [x])
  }

  /** `v[k] = x`: a null node becomes an object; the entry under `k` is
      inserted or replaced and every other entry is kept. */
  function SetKey(v: Json, k: string, x: Json): (r: Json)
    requires v.Null? || v.Object?
    ensures r.Object?
    ensures r.members.Keys == (if v.Null? then {} else v.members.Keys) + {k}
    ensures r.members[k] == x
    ensures v.Object? ==> forall k' :: k' in v.members && k' != k ==> r.members[k'] == v.members[k']
  {
    var members := if v.Null? then map[] else v.members;
    Object(members[k := x])
  }
}
