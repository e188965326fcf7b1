/** The protobuf wire-format reader: include/nanom/protobuf.hpp:156-450. A message model is a schema value. */
module Protobuf {
  import opened Bytes
  import opened Leb128
  import opened Tagged

  const MAX_FIELD_NUMBER := 536870911

  // ------------------------------------------------------------------
  // Models and messages
  // ------------------------------------------------------------------

  /** Scalar member types; an enum is Int(32), float and double are the bits Fixed(4) and Fixed(8) carry. */
  datatype Scalar =
    | Bool
    | Int(bits: nat)
    | Uint(bits: nat)
    | Sint(bits: nat)
    | Fixed(bytes: nat)

  datatype Type =
    | Num(k: Scalar)
    | Text
    | Empty
    | Message(fields: seq<Field>)

  /** One value, required or left off the wire while it holds the default; an optional or boxed one; a vector. */
  datatype Shape = Required | Defaulted | Opt | Repeated

  datatype Field = Field(id: nat, ty: Type, shape: Shape)

  datatype Value =
    | VNum(n: int)
    | VText(bytes: seq<byte>)
    | VEmpty
    | VMsg(members: seq<Slot>)

  datatype Slot = One(v: Value) | Maybe(o: Option<Value>) | Many(vs: seq<Value>)

  function Default(ty: Type): (v: Value) {
    match ty
    case Num(_) => VNum(0)
    case Text => VText([])
    case Empty => VEmpty
    case Message(fields) =>
      VMsg(seq(|fields|, i requires 0 <= i < |fields| =>
        match fields[i].shape
        case Opt => Maybe(None)
        case Repeated => Many([])
        case _ => One(Default(fields[i].ty))))
  }

  function DefaultSlots(fields: seq<Field>): (ms: seq<Slot>)
    ensures |ms| == |fields|
    ensures forall i :: 0 <= i < |fields| ==> ms[i] == DefaultSlot(fields[i])
  {
    Default(Message(fields)).members
  }

  function DefaultSlot(f: Field): Slot {
    match f.shape
    case Opt => Maybe(None)
    case Repeated => Many([])
    case _ => One(Default(f.ty))
  }

  // ------------------------------------------------------------------
  // Scalars
  // ------------------------------------------------------------------

  /** Wire types: 0 varint, 1 fixed64, 2 length-delimited, 5 fixed32. */
  function WireOf(ty: Type): (wt: nat)
    ensures wt < 8
  {
    match ty
    case Num(Fixed(n)) => if n == 4 then 5 else 1
    case Num(_) => 0
    case _ => 2
  }

  datatype Result<+T> =
    | Fail
    | Ok(v: T, next: nat)

  function Varint(s: seq<byte>, p: nat): (r: Result<nat>)
    ensures r.Ok? ==> p < r.next <= |s| && r.v < Pow2(64)
  {
    match Read(s, p, 64)
    case Value(v, next) => Ok(v, next)
    case _ => Fail
  }

  /** std::in_range for a signed member. */
  predicate InRange(n: int, bits: nat) {
    bits >= 1 && 0 - Pow2(bits - 1) <= n < Pow2(bits - 1)
  }

  /** The member value a varint stands for, if it fits the member. */
  function OfVarint(k: Scalar, u: nat): (r: Option<int>)
    requires u < Pow2(64) && !k.Fixed?
  {
    match k
    case Bool => if u > 1 then None else Some(u)
    case Uint(bits) => if u < Pow2(bits) then Some(u) else None
    case Int(bits) =>
      var n := ToSigned(u, 64);
      if InRange(n, bits) then Some(n) else None
    case Sint(bits) =>
      var n := ZigzagDecode(u, 64);
      if InRange(n, bits) then Some(n) else None
  }

  /** read_scalar (protobuf.hpp:202-256). */
  function ReadScalar(s: seq<byte>, p: nat, k: Scalar): (r: Result<Value>)
    ensures r.Ok? ==> p <= r.next <= |s|
    ensures r.Ok? && (k.Fixed? ==> k.bytes > 0) ==> p < r.next
  {
    if k.Fixed? then
      if p > |s| || |s| - p < k.bytes then Fail else Ok(VNum(LeNat(s[p..p + k.bytes])), p + k.bytes)
    else
      match Varint(s, p)
      case Fail => Fail
      case Ok(u, q) =>
        match OfVarint(k, u)
        case None => Fail
        case Some(n) => Ok(VNum(n), q)
  }

  /** A length and that many bytes. */
  function Chunk(s: seq<byte>, p: nat): (r: Result<seq<byte>>)
    ensures r.Ok? ==> p < r.next <= |s| && |r.v| < r.next - p
  {
    match Varint(s, p)
    case Fail => Fail
    case Ok(n, q) => if n > |s| - q then Fail else Ok(s[q..q + n], q + n)
  }

  /** skip_value (protobuf.hpp:177-197). */
  function SkipValue(s: seq<byte>, p: nat, wt: nat): (r: Result<()>)
    requires p <= |s|
    ensures r.Ok? ==> p < r.next <= |s|
  {
    if wt == 0 then
      match Varint(s, p)
      case Fail => Fail
      case Ok(_, q) => Ok((), q)
    else if wt == 1 then (if |s| - p < 8 then Fail else Ok((), p + 8))
    else if wt == 5 then (if |s| - p < 4 then Fail else Ok((), p + 4))
    else if wt == 2 then
      match Chunk(s, p)
      case Fail => Fail
      case Ok(_, q) => Ok((), q)
    else Fail
  }

  // ------------------------------------------------------------------
  // Messages
  // ------------------------------------------------------------------

  function SlotOf(fields: seq<Field>, id: nat): (r: Option<nat>)
    ensures r.Some? ==> r.value < |fields| && fields[r.value].id == id
    ensures r.None? ==> forall i :: 0 <= i < |fields| ==> fields[i].id != id
  {
    if |fields| == 0 then None
    else if fields[|fields| - 1].id == id then Some(|fields| - 1)
    else SlotOf(fields[..|fields| - 1], id)
  }

  /** An empty_struct's body: any well-formed records. */
  predicate EmptyOk(s: seq<byte>, p: nat)
    requires p <= |s|
    decreases |s| - p
  {
    p == |s| ||
    (var key := Varint(s, p);
     key.Ok? && key.v / 8 != 0 &&
     var q := SkipValue(s, key.next, key.v % 8);
     q.Ok? && EmptyOk(s, q.next))
  }

  /** read_len: a length-delimited value from its bytes, over what the member holds. */
  function ReadLen(body: seq<byte>, depth: nat, ty: Type, cur: Value): (r: Option<Value>)
    decreases |body|, 2
  {
    match ty
    case Text => Some(VText(body))
    case Empty => if EmptyOk(body, 0) then Some(VEmpty) else None
    case Message(fields) =>
      if depth >= MAX_DEPTH then None
      else
        var base := if cur.VMsg? && |cur.members| == |fields| then cur.members else DefaultSlots(fields);
        ReadMessage(body, depth + 1, fields, base)
    case Num(_) => None
  }

  /** A packed run: scalars to the end of its bytes. */
  function ReadPacked(s: seq<byte>, p: nat, k: Scalar, acc: seq<Value>): (r: Option<seq<Value>>)
    requires p <= |s|
    decreases |s| - p
  {
    if p == |s| then Some(acc)
    else
      match ReadScalar(s, p, k)
      case Fail => None
      case Ok(v, q) => if q == p then None else ReadPacked(s, q, k, acc + [v])
  }

  /** A field after one record: its slot, whether the record's wire type was the member's, where it ends. */
  datatype Fielded = Bad | Got(slot: Slot, matched: bool, next: nat)

  function Unmatched(r: Result<()>, slot: Slot): Fielded {
    if r.Fail? then Bad else Got(slot, false, r.next)
  }

  function ValueIn(slot: Slot, ty: Type): Value {
    if slot.One? then slot.v
    else if slot.Maybe? && slot.o.Some? then slot.o.value
    else Default(ty)
  }

  function ElemsIn(slot: Slot): seq<Value> {
    if slot.Many? then slot.vs else []
  }

  function Put(slot: Slot, f: Field, v: Value): Slot {
    match f.shape
    case Repeated => Many(ElemsIn(slot) + [v])
    case Opt => Maybe(Some(v))
    case _ => One(v)
  }

  /** read_field without the run shortcut (protobuf.hpp:293-403): one record of wire type wt at s[p..]. */
  function ReadField(s: seq<byte>, p: nat, wt: nat, depth: nat, f: Field, slot: Slot): (r: Fielded)
    requires p <= |s|
    ensures r.Got? ==> p <= r.next <= |s|
    decreases |s| - p, 1
  {
    if wt == WireOf(f.ty) then
      if f.ty.Num? then
        match ReadScalar(s, p, f.ty.k)
        case Fail => Bad
        case Ok(v, q) => Got(Put(slot, f, v), true, q)
      else
        match Chunk(s, p)
        case Fail => Bad
        case Ok(body, q) =>
          var cur := if f.shape.Repeated? then Default(f.ty) else ValueIn(slot, f.ty);
          match ReadLen(body, depth, f.ty, cur)
          case None => Bad
          case Some(v) => Got(Put(slot, f, v), true, q)
    else if f.shape.Repeated? && f.ty.Num? && wt == 2 then
      match Chunk(s, p)
      case Fail => Bad
      case Ok(body, q) =>
        if f.ty.k.Fixed? && f.ty.k.bytes > 0 && |body| % f.ty.k.bytes != 0 then Bad
        else
          match ReadPacked(body, 0, f.ty.k, ElemsIn(slot))
          case None => Bad
          case Some(vs) => Got(Many(vs), true, q)
    else Unmatched(SkipValue(s, p, wt), slot)
  }

  /** A message read so far: its members and the fields met. */
  datatype State = State(members: seq<Slot>, seen: set<nat>)

  datatype Records = Broken | Whole(st: State)

  /** read_message's loop from s[p] to the end of s (protobuf.hpp:413-441). */
  function ReadRecords(s: seq<byte>, p: nat, depth: nat, fields: seq<Field>, st: State): (r: Records)
    requires p <= |s| && |st.members| == |fields|
    ensures r.Whole? ==> |r.st.members| == |fields|
    decreases |s| - p, 0
  {
    if p == |s| then Whole(st)
    else
      match Varint(s, p)
      case Fail => Broken
      case Ok(key, q) =>
        var id, wt := key / 8, key % 8;
        if id == 0 || id > MAX_FIELD_NUMBER then Broken
        else
          var slot := if id > 32767 then None else SlotOf(fields, id);
          if slot.None? then
            match SkipValue(s, q, wt)
            case Fail => Broken
            case Ok(_, q') => ReadRecords(s, q', depth, fields, st)
          else
            var i := slot.value;
            match ReadField(s, q, wt, depth, fields[i], st.members[i])
            case Bad => Broken
            case Got(x, matched, q') =>
              ReadRecords(s, q', depth, fields,
                          State(st.members[i := x], if matched then st.seen + {i} else st.seen))
  }

  predicate AllSeen(fields: seq<Field>, seen: set<nat>) {
    forall i :: 0 <= i < |fields| && fields[i].shape.Required? ==> i in seen
  }

  /** read_message: all of s, over `members`. */
  function ReadMessage(s: seq<byte>, depth: nat, fields: seq<Field>, members: seq<Slot>): (r: Option<Value>)
    requires |members| == |fields|
    decreases |s|, 1
  {
    match ReadRecords(s, 0, depth, fields, State(members, {}))
    case Broken => None
    case Whole(st) => if AllSeen(fields, st.seen) then Some(VMsg(st.members)) else None
  }

  /** protobuf_decode into a message that holds `members`. */
  function Decode(s: seq<byte>, fields: seq<Field>, members: seq<Slot>): (r: Option<Value>)
    requires |members| == |fields|
  {
    ReadMessage(s, 0, fields, members)
  }
}
