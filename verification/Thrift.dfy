/** The Thrift compact reader and skipper: include/nanom/tagged.hpp section 25. A described struct is a
    schema value, its members a list of values. */
module Thrift {
  import opened Bytes
  import opened Leb128
  import opened Tagged

  const INT32_MAX := 0x7FFF_FFFF

  // ------------------------------------------------------------------
  // Schemas and values
  // ------------------------------------------------------------------

  /** Member types; an enum travels as I32. */
  datatype Type =
    | Bool | I8 | I16 | I32 | I64 | Dbl | Binary
    | List(elem: Type)
    | Empty
    | Struct(fields: seq<Field>)

  datatype Presence = Required | Defaulted | Optional

  datatype Field = Field(id: nat, ty: Type, presence: Presence)

  datatype Value =
    | VBool(b: bool)
    | VInt(n: int)
    | VDbl(bits: nat)
    | VBin(bytes: seq<byte>)
    | VList(elems: seq<Value>)
    | VEmpty
    | VStruct(members: seq<Option<Value>>)

  /** A value-initialised member. */
  function Default(ty: Type): (v: Value) {
    match ty
    case Bool => VBool(false)
    case Dbl => VDbl(0)
    case Binary => VBin([])
    case List(_) => VList([])
    case Empty => VEmpty
    case Struct(fields) =>
      VStruct(seq(|fields|, i requires 0 <= i < |fields| =>
        if fields[i].presence.Optional? then None else Some(Default(fields[i].ty))))
    case _ => VInt(0)
  }

  function DefaultMembers(fields: seq<Field>): (ms: seq<Option<Value>>)
    ensures |ms| == |fields|
    ensures forall i :: 0 <= i < |fields| ==>
      ms[i] == if fields[i].presence.Optional? then None else Some(Default(fields[i].ty))
  {
    Default(Struct(fields)).members
  }

  // ------------------------------------------------------------------
  // Wire types
  // ------------------------------------------------------------------

  /** Wire codes: 0 stop, 1/2 bool, 3 i8, 4 i16, 5 i32, 6 i64, 7 double, 8 binary, 9 list, 10 set, 11 map,
      12 struct. */
  function TypeOf(ty: Type): (t: nat)
    ensures 1 <= t <= 12
  {
    match ty
    case Bool => 1
    case I8 => 3
    case I16 => 4
    case I32 => 5
    case I64 => 6
    case Dbl => 7
    case Binary => 8
    case List(_) => 9
    case Empty => 12
    case Struct(_) => 12
  }

  predicate WireOk(expected: nat, wire: nat) {
    if expected == 1 then wire == 1 || wire == 2
    else if expected == 9 then wire == 9 || wire == 10
    else wire == expected
  }

  function MinElemBytes(t: nat): (n: nat)
    ensures n == 1 || n == 8
  {
    if t == 7 then 8 else 1
  }

  datatype Fault =
    | Truncated | BadVarint | OutOfRange | BadType | TypeMismatch | TooDeep | BadCount | BadBool | BadId
    | MissingRequired

  datatype Result<+T> =
    | Fail(f: Fault)
    | Ok(v: T, next: nat)

  // ------------------------------------------------------------------
  // Scalars
  // ------------------------------------------------------------------

  function Varint(s: seq<byte>, p: nat): (r: Result<nat>)
    ensures r.Ok? ==> p < r.next <= |s| && r.v < Pow2(64)
  {
    match Read(s, p, 64)
    case Value(v, next) => Ok(v, next)
    case TooWide => Fail(BadVarint)
    case Incomplete => Fail(Truncated)
  }

  function Varint32(s: seq<byte>, p: nat): (r: Result<nat>)
    ensures r.Ok? ==> p < r.next <= |s| && r.v <= 0xFFFF_FFFF
  {
    var r := Varint(s, p);
    if r.Ok? && r.v > 0xFFFF_FFFF then Fail(BadVarint) else r
  }

  /** A zigzag varint into a w-bit member. */
  function Zigzag(s: seq<byte>, p: nat, w: nat): (r: Result<int>)
    requires w >= 1
    ensures r.Ok? ==> p < r.next <= |s| && 0 - Pow2(w - 1) <= r.v < Pow2(w - 1)
  {
    match Varint(s, p)
    case Fail(f) => Fail(f)
    case Ok(u, next) =>
      var d := ZigzagDecode(u, 64);
      if d < 0 - Pow2(w - 1) || d >= Pow2(w - 1) then Fail(OutOfRange) else Ok(d, next)
  }

  function Blob(s: seq<byte>, p: nat): (r: Result<seq<byte>>)
    ensures r.Ok? ==> p < r.next <= |s|
  {
    match Varint32(s, p)
    case Fail(f) => Fail(f)
    case Ok(n, q) => if |s| - q < n then Fail(Truncated) else Ok(s[q..q + n], q + n)
  }

  datatype Header = Header(count: nat, elem: nat)

  /** tagged.hpp:546-555: the count is bounded by the bytes left before anything is reserved. */
  function ListHeader(s: seq<byte>, p: nat): (r: Result<Header>)
    ensures r.Ok? ==> p < r.next <= |s| && r.v.elem < 16 && r.v.count * MinElemBytes(r.v.elem) <= |s| - r.next
  {
    if p >= |s| then Fail(Truncated)
    else
      var elem, short := s[p] % 16, s[p] / 16;
      if short == 15 then
        match Varint32(s, p + 1)
        case Fail(f) => Fail(f)
        case Ok(n, q) => if n > (|s| - q) / MinElemBytes(elem) then Fail(BadCount) else Ok(Header(n, elem), q)
      else if short > (|s| - (p + 1)) / MinElemBytes(elem) then Fail(BadCount)
      else Ok(Header(short, elem), p + 1)
  }

  // ------------------------------------------------------------------
  // Structural skip
  // ------------------------------------------------------------------

  function SkipVarint(s: seq<byte>, p: nat): (r: Result<()>)
    ensures r.Ok? ==> p < r.next <= |s|
  {
    match Varint(s, p)
    case Fail(f) => Fail(f)
    case Ok(_, next) => Ok((), next)
  }

  /** n bytes, whatever they are. */
  function SkipBytes(s: seq<byte>, p: nat, n: nat): (r: Result<()>)
    ensures r.Ok? ==> r.next == p + n <= |s|
  {
    if |s| < p + n then Fail(Truncated) else Ok((), p + n)
  }

  predicate BoolType(t: nat) {
    t == 1 || t == 2
  }

  /** One value of wire type t (tagged.hpp:613-662). */
  function Skip(s: seq<byte>, p: nat, t: nat, inContainer: bool, depth: nat): (r: Result<()>)
    requires p <= |s|
    ensures r.Ok? ==> p <= r.next <= |s| && (inContainer || !BoolType(t) ==> p < r.next)
    decreases |s| - p, 1, 0
  {
    if BoolType(t) && !inContainer then Ok((), p)
    else if BoolType(t) || t == 3 then SkipBytes(s, p, 1)
    else if 4 <= t <= 6 then SkipVarint(s, p)
    else if t == 7 then SkipBytes(s, p, 8)
    else if t == 8 then
      match Blob(s, p)
      case Fail(f) => Fail(f)
      case Ok(_, next) => Ok((), next)
    else if t == 9 || t == 10 then
      if depth > MAX_DEPTH then Fail(TooDeep)
      else
        match ListHeader(s, p)
        case Fail(f) => Fail(f)
        case Ok(h, q) => SkipElems(s, q, h.elem, h.count, depth)
    else if t == 11 then
      if depth > MAX_DEPTH then Fail(TooDeep)
      else
        match Varint32(s, p)
        case Fail(f) => Fail(f)
        case Ok(n, q) =>
          if n == 0 then Ok((), q)
          else if q >= |s| then Fail(Truncated)
          else
            var kt, vt := s[q] / 16, s[q] % 16;
            if n > (|s| - (q + 1)) / (MinElemBytes(kt) + MinElemBytes(vt)) then Fail(BadCount)
            else SkipPairs(s, q + 1, kt, vt, n, depth)
    else if t == 12 then SkipStruct(s, p, depth + 1)
    else Fail(BadType)
  }

  function SkipElems(s: seq<byte>, p: nat, t: nat, count: nat, depth: nat): (r: Result<()>)
    requires p <= |s|
    ensures r.Ok? ==> p <= r.next <= |s|
    decreases |s| - p, 2, count
  {
    if count == 0 then Ok((), p)
    else
      match Skip(s, p, t, true, depth + 1)
      case Fail(f) => Fail(f)
      case Ok(_, q) => SkipElems(s, q, t, count - 1, depth)
  }

  function SkipPairs(s: seq<byte>, p: nat, kt: nat, vt: nat, count: nat, depth: nat): (r: Result<()>)
    requires p <= |s|
    ensures r.Ok? ==> p <= r.next <= |s|
    decreases |s| - p, 2, count
  {
    if count == 0 then Ok((), p)
    else
      match Skip(s, p, kt, true, depth + 1)
      case Fail(f) => Fail(f)
      case Ok(_, q) =>
        match Skip(s, q, vt, true, depth + 1)
        case Fail(f) => Fail(f)
        case Ok(_, q') => SkipPairs(s, q', kt, vt, count - 1, depth)
  }

  /** Fields up to and including STOP (tagged.hpp:580-609). */
  function SkipStruct(s: seq<byte>, p: nat, depth: nat): (r: Result<()>)
    requires p <= |s|
    ensures r.Ok? ==> p < r.next <= |s|
    decreases |s| - p, 0, 0
  {
    if depth > MAX_DEPTH then Fail(TooDeep)
    else if p >= |s| then Fail(Truncated)
    else if s[p] == 0 then Ok((), p + 1)
    else
      match (if s[p] / 16 == 0 then SkipVarint(s, p + 1) else Ok((), p + 1))
      case Fail(f) => Fail(f)
      case Ok(_, q) =>
        match Skip(s, q, s[p] % 16, false, depth)
        case Fail(f) => Fail(f)
        case Ok(_, q') => SkipStruct(s, q', depth)
  }

  // ------------------------------------------------------------------
  // Decoding
  // ------------------------------------------------------------------

  /** The member a wire id names (message_info::slot_of). */
  function SlotOf(fields: seq<Field>, id: int): (r: Option<nat>)
    ensures r.Some? ==> r.value < |fields| && fields[r.value].id == id
    ensures r.None? ==> forall i :: 0 <= i < |fields| ==> fields[i].id != id
  {
    if |fields| == 0 then None
    else if fields[|fields| - 1].id == id then Some(|fields| - 1)
    else SlotOf(fields[..|fields| - 1], id)
  }

  /** (seen & required_mask) == required_mask. */
  predicate AllSeen(fields: seq<Field>, seen: set<nat>) {
    forall i :: 0 <= i < |fields| && fields[i].presence.Required? ==> i in seen
  }

  /** The id of the field whose header byte has the given delta. */
  function FieldId(s: seq<byte>, p: nat, delta: nat, last: int): (r: Result<int>)
    requires p <= |s|
    ensures r.Ok? ==> p <= r.next <= |s|
  {
    if delta == 0 then Zigzag(s, p, 16)
    else if last + delta > 32767 then Fail(BadId)
    else Ok(last + delta, p)
  }

  /** One value of a member type whose wire type is already checked, into a member that holds cur
      (tagged.hpp:669-746): a nested struct is read over what the member holds. */
  function ReadValue(s: seq<byte>, p: nat, depth: nat, ty: Type, cur: Value): (r: Result<Value>)
    requires p <= |s|
    ensures r.Ok? ==> p < r.next <= |s|
    decreases |s| - p, 1, 0
  {
    match ty
    case Bool =>
      if p >= |s| then Fail(Truncated) else if s[p] > 2 then Fail(BadBool) else Ok(VBool(s[p] == 1), p + 1)
    case I8 => if p >= |s| then Fail(Truncated) else Ok(VInt(if s[p] < 128 then s[p] else s[p] as int - 256), p + 1)
    case I16 => IntOf(Zigzag(s, p, 16))
    case I32 => IntOf(Zigzag(s, p, 32))
    case I64 => IntOf(Zigzag(s, p, 64))
    case Dbl => if |s| - p < 8 then Fail(Truncated) else Ok(VDbl(LeNat(s[p..p + 8])), p + 8)
    case Binary =>
      (match Blob(s, p)
       case Fail(f) => Fail(f)
       case Ok(b, q) => Ok(VBin(b), q))
    case List(elem) =>
      (match ListHeader(s, p)
       case Fail(f) => Fail(f)
       case Ok(h, q) =>
         if h.count > 0 && !WireOk(TypeOf(elem), h.elem) then Fail(TypeMismatch)
         else if depth > MAX_DEPTH then Fail(TooDeep)
         else ReadElems(s, q, depth + 1, elem, h.count, []))
    case Empty =>
      (match SkipStruct(s, p, depth + 1)
       case Fail(f) => Fail(f)
       case Ok(_, q) => Ok(VEmpty, q))
    case Struct(fields) =>
      if depth + 1 > MAX_DEPTH then Fail(TooDeep)
      else
        var base := if cur.VStruct? && |cur.members| == |fields| then cur.members else DefaultMembers(fields);
        ReadFields(s, p, depth + 1, fields, base, 0, {})
  }

  function IntOf(r: Result<int>): Result<Value> {
    match r
    case Fail(f) => Fail(f)
    case Ok(n, q) => Ok(VInt(n), q)
  }

  /** `count` more elements after those in acc. */
  function ReadElems(s: seq<byte>, p: nat, depth: nat, elem: Type, count: nat, acc: seq<Value>): (r: Result<Value>)
    requires p <= |s|
    ensures r.Ok? ==> p <= r.next <= |s| && r.v.VList? && |r.v.elems| == |acc| + count
    decreases |s| - p, 2, count
  {
    if count == 0 then Ok(VList(acc), p)
    else
      match ReadValue(s, p, depth, elem, Default(elem))
      case Fail(f) => Fail(f)
      case Ok(v, q) => ReadElems(s, q, depth, elem, count - 1, acc + [v])
  }

  /** The fields of a struct up to STOP, over `members`; `seen` are the members met so far
      (tagged.hpp:749-804). */
  function ReadFields(s: seq<byte>, p: nat, depth: nat, fields: seq<Field>, members: seq<Option<Value>>, last: int,
                      seen: set<nat>): (r: Result<Value>)
    requires p <= |s| && |members| == |fields|
    ensures r.Ok? ==> p < r.next <= |s| && r.v.VStruct? && |r.v.members| == |fields|
    decreases |s| - p, 0, 0
  {
    if p >= |s| then Fail(Truncated)
    else if s[p] == 0 then
      if AllSeen(fields, seen) then Ok(VStruct(members), p + 1) else Fail(MissingRequired)
    else
      var t := s[p] % 16;
      match FieldId(s, p + 1, s[p] / 16, last)
      case Fail(f) => Fail(f)
      case Ok(id, q) =>
        var slot := SlotOf(fields, id);
        if slot.None? || !WireOk(TypeOf(fields[slot.value].ty), t) then
          match Skip(s, q, t, false, depth)
          case Fail(f) => Fail(f)
          case Ok(_, q') => ReadFields(s, q', depth, fields, members, id, seen)
        else
          var i := slot.value;
          if fields[i].ty.Bool? then
            ReadFields(s, q, depth, fields, members[i := Some(VBool(t == 1))], id, seen + {i})
          else
            var cur := if members[i].Some? then members[i].value else Default(fields[i].ty);
            match ReadValue(s, q, depth, fields[i].ty, cur)
            case Fail(f) => Fail(f)
            case Ok(v, q') => ReadFields(s, q', depth, fields, members[i := Some(v)], id, seen + {i})
  }

  /** thrift_compact<M>(): one struct from the head of s (tagged.hpp:810-818). */
  function Decode(s: seq<byte>, fields: seq<Field>): (r: Result<Value>)
    ensures r.Ok? ==> 0 < r.next <= |s|
  {
    ReadFields(s, 0, 0, fields, DefaultMembers(fields), 0, {})
  }
}
