/** What the protobuf encoder writes (include/nanom/protobuf_encode.hpp) and the round trip. */
module ProtobufEncode {
  import opened Bytes
  import opened Leb128
  import opened Tagged
  import opened Protobuf

  // ------------------------------------------------------------------
  // Messages a model admits
  // ------------------------------------------------------------------

  predicate ScalarOk(k: Scalar) {
    match k
    case Bool => true
    case Int(bits) => bits == 8 || bits == 16 || bits == 32 || bits == 64
    case Uint(bits) => bits == 8 || bits == 16 || bits == 32 || bits == 64
    case Sint(bits) => bits == 32 || bits == 64
    case Fixed(n) => n == 4 || n == 8
  }

  /** Ids are 1..32767 and strictly ascending, at every level. */
  ghost predicate SchemaOk(ty: Type) {
    match ty
    case Num(k) => ScalarOk(k)
    case Message(fields) =>
      && (forall i :: 0 <= i < |fields| ==> 1 <= fields[i].id <= 32767 && SchemaOk(fields[i].ty))
      && (forall i, j :: 0 <= i < j < |fields| ==> fields[i].id < fields[j].id)
    case _ => true
  }

  ghost predicate TypedNum(n: int, k: Scalar) {
    match k
    case Bool => n == 0 || n == 1
    case Int(bits) => InRange(n, bits)
    case Sint(bits) => InRange(n, bits)
    case Uint(bits) => 0 <= n < Pow2(bits)
    case Fixed(size) => 0 <= n < Pow2(8 * size)
  }

  ghost predicate Typed(v: Value, ty: Type)
    decreases ty, 0
  {
    match ty
    case Num(k) => v.VNum? && TypedNum(v.n, k)
    case Text => v.VText?
    case Empty => v.VEmpty?
    case Message(fields) =>
      v.VMsg? && |v.members| == |fields| && forall i :: 0 <= i < |fields| ==> TypedSlot(v.members[i], fields[i])
  }

  ghost predicate TypedSlot(slot: Slot, f: Field)
    decreases f, 0
  {
    match f.shape
    case Repeated => slot.Many? && forall k :: 0 <= k < |slot.vs| ==> Typed(slot.vs[k], f.ty)
    case Opt => slot.Maybe? && (slot.o.Some? ==> Typed(slot.o.value, f.ty))
    case _ => slot.One? && Typed(slot.v, f.ty)
  }

  // ------------------------------------------------------------------
  // What is written
  // ------------------------------------------------------------------

  /** varint_value: negative integers travel as 64-bit two's complement. */
  function VarintValue(n: int, k: Scalar): (u: nat)
    requires ScalarOk(k) && TypedNum(n, k) && !k.Fixed?
    ensures u < Pow2(64)
  {
    VarintValueFits(n, k);
    if k.Sint? then ZigzagNat(n) else if n >= 0 then n else n + Pow2(64)
  }

  lemma {:induction false} VarintValueFits(n: int, k: Scalar)
    requires ScalarOk(k) && TypedNum(n, k) && !k.Fixed?
    ensures k.Sint? ==> ZigzagNat(n) < Pow2(64)
    ensures !k.Sint? ==> 0 - Pow2(63) <= n < Pow2(64)
    ensures k.Int? ==> n < Pow2(63)
    ensures k.Uint? ==> n >= 0
    ensures Pow2(64) == 2 * Pow2(63)
  {
    Pow2Values();
    assert Pow2(64) == 2 * Pow2(63);
    if k.Int? || k.Sint? {
      Pow2Monotone(k.bits - 1, 63);
    } else if k.Uint? {
      Pow2Monotone(k.bits, 64);
    }
  }

  function EncNum(n: int, k: Scalar): (s: seq<byte>)
    requires ScalarOk(k) && TypedNum(n, k)
    ensures |s| >= 1
  {
    if k.Fixed? then LeBytes(n, k.bytes) else Uleb128(VarintValue(n, k))
  }

  /** proto3's default, left off the wire by a defaulted member. */
  predicate IsDefault(v: Value) {
    v == VNum(0) || v == VText([])
  }

  function Key(id: nat, wt: nat): (s: seq<byte>)
    ensures |s| >= 1
  {
    Uleb128(8 * id + wt)
  }

  function Prefixed(body: seq<byte>): (s: seq<byte>) {
    Uleb128(|body|) + body
  }

  /** One value after its key. */
  function EncVal(v: Value, ty: Type): (s: seq<byte>)
    requires SchemaOk(ty) && Typed(v, ty)
    decreases ty, 2, 0
  {
    match ty
    case Num(k) => EncNum(v.n, k)
    case Text => Prefixed(v.bytes)
    case Empty => Prefixed([])
    case Message(fields) => Prefixed(EncMsg(v.members, fields, 0))
  }

  function EncPacked(vs: seq<Value>, k: Scalar): (s: seq<byte>)
    requires ScalarOk(k) && forall i :: 0 <= i < |vs| ==> Typed(vs[i], Num(k))
    ensures |vs| > 0 ==> |s| > 0
  {
    if |vs| == 0 then []
    else
      assert Typed(vs[0], Num(k));
      EncNum(vs[0].n, k) + EncPacked(vs[1..], k)
  }

  /** One record. */
  function EncRecord(v: Value, f: Field): (s: seq<byte>)
    requires SchemaOk(f.ty) && Typed(v, f.ty)
    ensures |s| >= 1
    decreases f, 0, 0
  {
    Key(f.id, WireOf(f.ty)) + EncVal(v, f.ty)
  }

  /** A record an element. */
  function EncMany(vs: seq<Value>, f: Field): (s: seq<byte>)
    requires SchemaOk(f.ty) && forall i :: 0 <= i < |vs| ==> Typed(vs[i], f.ty)
    decreases f, 1, |vs|
  {
    if |vs| == 0 then [] else EncRecord(vs[0], f) + EncMany(vs[1..], f)
  }

  function EncSlot(slot: Slot, f: Field): (s: seq<byte>)
    requires SchemaOk(f.ty) && TypedSlot(slot, f)
    decreases f, 2, 0
  {
    match f.shape
    case Repeated =>
      if !f.ty.Num? then EncMany(slot.vs, f)
      else if |slot.vs| == 0 then []
      else Key(f.id, 2) + Prefixed(EncPacked(slot.vs, f.ty.k))
    case Opt => if slot.o.None? then [] else EncRecord(slot.o.value, f)
    case Defaulted => if IsDefault(slot.v) then [] else EncRecord(slot.v, f)
    case Required => EncRecord(slot.v, f)
  }

  /** The members from number i on. */
  function EncMsg(members: seq<Slot>, fields: seq<Field>, i: nat): (s: seq<byte>)
    requires SchemaOk(Message(fields)) && Typed(VMsg(members), Message(fields)) && i <= |fields|
    decreases Message(fields), 0, |fields| - i
  {
    if i == |fields| then [] else EncSlot(members[i], fields[i]) + EncMsg(members, fields, i + 1)
  }

  // ------------------------------------------------------------------
  // Nesting
  // ------------------------------------------------------------------

  /** v, read at this depth, nests within the limit. */
  ghost predicate DepthOk(v: Value, depth: nat)
    decreases v, 0
  {
    v.VMsg? ==> depth < MAX_DEPTH && forall i :: 0 <= i < |v.members| ==> DepthOkSlot(v.members[i], depth + 1)
  }

  ghost predicate DepthOkSlot(slot: Slot, depth: nat)
    decreases slot, 0
  {
    match slot
    case One(v) => DepthOk(v, depth)
    case Maybe(o) => o.Some? ==> DepthOk(o.value, depth)
    case Many(vs) => forall k :: 0 <= k < |vs| ==> DepthOk(vs[k], depth)
  }

  // ------------------------------------------------------------------
  // Reading back the parts
  // ------------------------------------------------------------------

  lemma {:induction false} VarintBack(s: seq<byte>, p: nat, u: nat)
    requires u < Pow2(64) && At(s, p, Uleb128(u))
    ensures Varint(s, p) == Ok(u, p + |Uleb128(u)|)
  {
    UlebRoundTrip(s, p, u, 64);
  }

  lemma {:induction false} KeyBack(s: seq<byte>, p: nat, id: nat, wt: nat)
    requires id <= MAX_FIELD_NUMBER && wt < 8 && At(s, p, Key(id, wt))
    ensures Varint(s, p) == Ok(8 * id + wt, p + |Key(id, wt)|) && (8 * id + wt) / 8 == id && (8 * id + wt) % 8 == wt
  {
    hide Uleb128, Varint;
    Pow2Values();
    VarintBack(s, p, 8 * id + wt);
  }

  lemma {:induction false} ChunkBack(s: seq<byte>, p: nat, body: seq<byte>)
    requires |s| <= SIZE_MAX && At(s, p, Prefixed(body))
    ensures Chunk(s, p) == Ok(body, p + |Prefixed(body)|)
  {
    hide Uleb128, Varint;
    AtConcat(s, p, Uleb128(|body|), body);
    Pow2Values();
    VarintBack(s, p, |body|);
  }

  /** A varint member reads back as itself. */
  lemma {:induction false} VarintValueBack(n: int, k: Scalar)
    requires ScalarOk(k) && TypedNum(n, k) && !k.Fixed?
    ensures OfVarint(k, VarintValue(n, k)) == Some(n)
  {
    hide Pow2;
    VarintValueFits(n, k);
    if k.Sint? {
      ZigzagDecodeValue(ZigzagNat(n), 64);
    }
  }

  lemma {:induction false} NumBack(s: seq<byte>, p: nat, n: int, k: Scalar)
    requires ScalarOk(k) && TypedNum(n, k) && At(s, p, EncNum(n, k))
    ensures ReadScalar(s, p, k) == Ok(VNum(n), p + |EncNum(n, k)|)
  {
    hide Uleb128, Varint, OfVarint, VarintValue, Pow2, LeNat, LeBytes, ScalarOk;
    AtSlice(s, p, EncNum(n, k));
    if k.Fixed? {
      LeNatLeBytes(n, k.bytes);
    } else {
      VarintBack(s, p, VarintValue(n, k));
      VarintValueBack(n, k);
    }
  }

  lemma {:induction false} PackedBack(s: seq<byte>, p: nat, vs: seq<Value>, k: Scalar, acc: seq<Value>)
    requires ScalarOk(k) && forall i :: 0 <= i < |vs| ==> Typed(vs[i], Num(k))
    requires At(s, p, EncPacked(vs, k)) && p + |EncPacked(vs, k)| == |s|
    ensures ReadPacked(s, p, k, acc) == Some(acc + vs)
    decreases |vs|
  {
    hide EncNum, ReadScalar, ScalarOk, TypedNum, At;
    if |vs| == 0 {
      assert acc + vs == acc;
    } else {
      assert Typed(vs[0], Num(k));
      var head := EncNum(vs[0].n, k);
      AtConcat(s, p, head, EncPacked(vs[1..], k));
      NumBack(s, p, vs[0].n, k);
      PackedBack(s, p + |head|, vs[1..], k, acc + [vs[0]]);
      assert acc + [vs[0]] + vs[1..] == acc + vs;
    }
  }

  lemma {:induction false} PackedSize(vs: seq<Value>, k: Scalar)
    requires ScalarOk(k) && k.Fixed? && forall i :: 0 <= i < |vs| ==> Typed(vs[i], Num(k))
    ensures |EncPacked(vs, k)| % k.bytes == 0
    decreases |vs|
  {
    hide LeBytes, Uleb128, Pow2;
    if |vs| > 0 {
      PackedSize(vs[1..], k);
      var rest := |EncPacked(vs[1..], k)|;
      assert |EncPacked(vs, k)| == k.bytes + rest;
      assert (k.bytes + rest) % k.bytes == rest % k.bytes;
    }
  }

  // ------------------------------------------------------------------
  // Record by record
  // ------------------------------------------------------------------

  /** One record of a declared field: the loop goes on from the field's new slot. */
  lemma {:induction false} RecordStep(s: seq<byte>, p: nat, depth: nat, fields: seq<Field>, i: nat, st: State, wt: nat)
    requires |st.members| == |fields| && i < |fields| && 1 <= fields[i].id <= 32767 && wt < 8
    requires SlotOf(fields, fields[i].id) == Some(i) && At(s, p, Key(fields[i].id, wt))
    ensures
      var q := p + |Key(fields[i].id, wt)|;
      && q <= |s|
      && var r := ReadField(s, q, wt, depth, fields[i], st.members[i]);
      && (r.Bad? ==> ReadRecords(s, p, depth, fields, st) == Broken)
      && (r.Got? && r.matched ==>
          ReadRecords(s, p, depth, fields, st) ==
          ReadRecords(s, r.next, depth, fields, State(st.members[i := r.slot], st.seen + {i})))
  {
    hide Varint, ReadField, SlotOf, Key, At, SkipValue;
    AtSlice(s, p, Key(fields[i].id, wt));
    KeyBack(s, p, fields[i].id, wt);
  }

  ghost function Back(ok: bool, v: Value): Option<Value> {
    if ok then Some(v) else None
  }

  /** A value's record, into a slot that holds nothing a message could merge with. */
  lemma {:induction false} ValueBack(s: seq<byte>, p: nat, depth: nat, v: Value, f: Field, slot: Slot)
    requires SchemaOk(f.ty) && Typed(v, f.ty) && |s| <= SIZE_MAX && At(s, p, EncVal(v, f.ty))
    requires f.shape.Repeated? || ValueIn(slot, f.ty) == Default(f.ty)
    ensures p <= |s|
    ensures ReadField(s, p, WireOf(f.ty), depth, f, slot) ==
            if DepthOk(v, depth) then Got(Put(slot, f, v), true, p + |EncVal(v, f.ty)|) else Bad
    decreases f.ty, 3, 0
  {
    hide ReadScalar, Chunk, ReadLen, ReadPacked, EncNum, EncMsg, Prefixed, Put, Default, ValueIn, WireOf, At, ScalarOk,
         TypedNum;
    AtSlice(s, p, EncVal(v, f.ty));
    match f.ty
    case Num(k) => NumBack(s, p, v.n, k);
    case Text =>
      ChunkBack(s, p, v.bytes);
      TextBack(v.bytes, depth, Default(f.ty));
      if !f.shape.Repeated? {
        TextBack(v.bytes, depth, ValueIn(slot, f.ty));
      }
    case Empty =>
      ChunkBack(s, p, []);
      EmptyBack(depth, Default(f.ty));
    case Message(fields) =>
      var body := EncMsg(v.members, fields, 0);
      ChunkBack(s, p, body);
      BodyBound(s, p, body);
      MessageBack(body, depth, v, fields);
  }

  lemma {:induction false} BodyBound(s: seq<byte>, p: nat, body: seq<byte>)
    requires At(s, p, Prefixed(body)) && |s| <= SIZE_MAX
    ensures |body| <= SIZE_MAX
  {
  }

  lemma {:induction false} TextBack(b: seq<byte>, depth: nat, cur: Value)
    ensures ReadLen(b, depth, Text, cur) == Some(VText(b))
  {
  }

  lemma {:induction false} EmptyBack(depth: nat, cur: Value)
    ensures ReadLen([], depth, Empty, cur) == Some(VEmpty)
  {
  }

  /** A nested message from its own bytes. */
  lemma {:induction false} MessageBack(body: seq<byte>, depth: nat, v: Value, fields: seq<Field>)
    requires SchemaOk(Message(fields)) && Typed(v, Message(fields)) && body == EncMsg(v.members, fields, 0)
    requires |body| <= SIZE_MAX
    ensures ReadLen(body, depth, Message(fields), Default(Message(fields))) == Back(DepthOk(v, depth), v)
    decreases Message(fields), 2, 0
  {
    hide ReadRecords, EncMsg, SchemaOk, TypedSlot, DepthOkSlot, AllSeen;
    if depth < MAX_DEPTH {
      assert At(body, 0, body) by { assert body[0..0 + |body|] == body; }
      assert v.members[..0] + DefaultSlots(fields)[0..] == DefaultSlots(fields);
      RecordsBack(body, 0, depth + 1, fields, v.members, 0);
      assert v == VMsg(v.members);
      RequiredSeen(fields, v.members);
    }
  }

  // ------------------------------------------------------------------
  // The round trip
  // ------------------------------------------------------------------

  /** Whether a member is on the wire at all. */
  predicate Present(slot: Slot, f: Field) {
    match f.shape
    case Repeated => ElemsIn(slot) != []
    case Opt => slot.Maybe? && slot.o.Some?
    case Defaulted => slot.One? && !IsDefault(slot.v)
    case Required => true
  }

  ghost function Seen(fields: seq<Field>, members: seq<Slot>, i: nat): (seen: set<nat>)
    requires |members| == |fields| && i <= |fields|
    ensures forall j :: j in seen <==> 0 <= j < i && Present(members[j], fields[j])
  {
    if i == 0 then {}
    else Seen(fields, members, i - 1) + (if Present(members[i - 1], fields[i - 1]) then {i - 1} else {})
  }

  /** A message read up to member i: the rest still holds its defaults. */
  ghost function UpTo(fields: seq<Field>, members: seq<Slot>, i: nat): (ms: seq<Slot>)
    requires |members| == |fields| && i <= |fields|
    ensures |ms| == |fields|
  {
    members[..i] + DefaultSlots(fields)[i..]
  }

  ghost function Reached(fields: seq<Field>, members: seq<Slot>, i: nat): (st: State)
    requires |members| == |fields| && i <= |fields|
    ensures |st.members| == |fields|
  {
    State(UpTo(fields, members, i), Seen(fields, members, i))
  }

  ghost predicate DepthOkFrom(members: seq<Slot>, i: nat, depth: nat) {
    forall j :: i <= j < |members| ==> DepthOkSlot(members[j], depth)
  }

  ghost predicate DepthOkAll(vs: seq<Value>, depth: nat) {
    forall k :: 0 <= k < |vs| ==> DepthOk(vs[k], depth)
  }

  lemma {:induction false} RequiredSeen(fields: seq<Field>, members: seq<Slot>)
    requires |members| == |fields|
    ensures AllSeen(fields, Seen(fields, members, |fields|))
  {
  }

  lemma {:induction false} MemberFacts(fields: seq<Field>, members: seq<Slot>, i: nat)
    requires |members| == |fields| && i < |fields|
    requires SchemaOk(Message(fields)) && Typed(VMsg(members), Message(fields))
    ensures 1 <= fields[i].id <= 32767 && SchemaOk(fields[i].ty) && TypedSlot(members[i], fields[i])
    ensures SlotOf(fields, fields[i].id) == Some(i)
  {
  }

  lemma {:induction false} SeenNext(fields: seq<Field>, members: seq<Slot>, i: nat)
    requires |members| == |fields| && i < |fields|
    ensures Seen(fields, members, i + 1) ==
            if Present(members[i], fields[i]) then Seen(fields, members, i) + {i} else Seen(fields, members, i)
  {
  }

  lemma {:induction false} UpToNext(fields: seq<Field>, members: seq<Slot>, i: nat)
    requires |members| == |fields| && i < |fields|
    ensures UpTo(fields, members, i)[i := members[i]] == UpTo(fields, members, i + 1)
    ensures UpTo(fields, members, i)[i] == DefaultSlot(fields[i])
  {
    hide DefaultSlot;
  }

  lemma {:induction false} RecordsBack(s: seq<byte>, p: nat, depth: nat, fields: seq<Field>, members: seq<Slot>, i: nat)
    requires |members| == |fields| && i <= |fields|
    requires SchemaOk(Message(fields)) && Typed(VMsg(members), Message(fields))
    requires At(s, p, EncMsg(members, fields, i)) && p + |EncMsg(members, fields, i)| == |s| <= SIZE_MAX
    ensures ReadRecords(s, p, depth, fields, Reached(fields, members, i)) ==
            if DepthOkFrom(members, i, depth) then Whole(State(members, Seen(fields, members, |fields|))) else Broken
    decreases Message(fields), 1, |fields| - i
  {
    hide SchemaOk, Typed, TypedSlot, EncSlot, ReadRecords, DepthOkSlot, At, Seen, UpTo;
    if i == |fields| {
      MessageEnds(s, p, depth, fields, Reached(fields, members, i));
      assert UpTo(fields, members, i) == members by { UpToEnd(fields, members); }
    } else {
      MemberFacts(fields, members, i);
      AtConcat(s, p, EncSlot(members[i], fields[i]), EncMsg(members, fields, i + 1));
      UpToNext(fields, members, i);
      SeenNext(fields, members, i);
      SlotBack(s, p, depth, fields, i, members[i], Reached(fields, members, i));
      if DepthOkSlot(members[i], depth) {
        RecordsBack(s, p + |EncSlot(members[i], fields[i])|, depth, fields, members, i + 1);
      }
    }
  }

  lemma {:induction false} MessageEnds(s: seq<byte>, p: nat, depth: nat, fields: seq<Field>, st: State)
    requires p == |s| && |st.members| == |fields|
    ensures ReadRecords(s, p, depth, fields, st) == Whole(st)
  {
  }

  lemma {:induction false} UpToEnd(fields: seq<Field>, members: seq<Slot>)
    requires |members| == |fields|
    ensures UpTo(fields, members, |fields|) == members
  {
  }

  /** All the records of one member, over its default. */
  lemma {:induction false} SlotBack(s: seq<byte>, p: nat, depth: nat, fields: seq<Field>, i: nat, slot: Slot, st: State)
    requires |st.members| == |fields| && i < |fields| && |s| <= SIZE_MAX
    requires SchemaOk(fields[i].ty) && TypedSlot(slot, fields[i]) && st.members[i] == DefaultSlot(fields[i])
    requires 1 <= fields[i].id <= 32767 && SlotOf(fields, fields[i].id) == Some(i)
    requires At(s, p, EncSlot(slot, fields[i]))
    ensures p + |EncSlot(slot, fields[i])| <= |s|
    ensures ReadRecords(s, p, depth, fields, st) ==
            if DepthOkSlot(slot, depth)
            then ReadRecords(s, p + |EncSlot(slot, fields[i])|, depth, fields,
                             State(st.members[i := slot], if Present(slot, fields[i]) then st.seen + {i} else st.seen))
            else Broken
    decreases fields[i], 5, 0
  {
    hide SchemaOk, ReadRecords, DepthOk, At, EncRecord, EncMany, EncPacked, ReadField, Default, Prefixed, Key, SlotOf;
    var f := fields[i];
    AtSlice(s, p, EncSlot(slot, f));
    if !Present(slot, f) {
      AbsentSlot(slot, f, depth);
      assert st.members[i := slot] == st.members;
    } else if f.shape.Repeated? {
      if f.ty.Num? {
        PackedRecord(s, p, depth, fields, i, slot.vs, st);
        NumsShallow(slot.vs, f.ty.k, depth);
      } else {
        ManyBack(s, p, depth, fields, i, slot.vs, [], st);
        assert [] + slot.vs == slot.vs;
      }
    } else {
      OneBack(s, p, depth, fields, i, ValueIn(slot, f.ty), st);
    }
  }

  lemma {:induction false} AbsentSlot(slot: Slot, f: Field, depth: nat)
    requires SchemaOk(f.ty) && TypedSlot(slot, f) && !Present(slot, f)
    ensures EncSlot(slot, f) == [] && slot == DefaultSlot(f) && DepthOkSlot(slot, depth)
  {
  }

  lemma {:induction false} NumsShallow(vs: seq<Value>, k: Scalar, depth: nat)
    requires forall i :: 0 <= i < |vs| ==> Typed(vs[i], Num(k))
    ensures forall i :: 0 <= i < |vs| ==> DepthOk(vs[i], depth)
  {
  }

  lemma {:induction false} PackedRecord(s: seq<byte>, p: nat, depth: nat, fields: seq<Field>, i: nat, vs: seq<Value>,
                                        st: State)
    requires |st.members| == |fields| && i < |fields| && |s| <= SIZE_MAX && |vs| > 0
    requires 1 <= fields[i].id <= 32767 && SlotOf(fields, fields[i].id) == Some(i)
    requires fields[i].shape.Repeated? && fields[i].ty.Num? && SchemaOk(fields[i].ty) && st.members[i] == Many([])
    requires forall j :: 0 <= j < |vs| ==> Typed(vs[j], fields[i].ty)
    requires At(s, p, Key(fields[i].id, 2) + Prefixed(EncPacked(vs, fields[i].ty.k)))
    ensures
      var q := p + |Key(fields[i].id, 2) + Prefixed(EncPacked(vs, fields[i].ty.k))|;
      q <= |s| &&
      ReadRecords(s, p, depth, fields, st) ==
      ReadRecords(s, q, depth, fields, State(st.members[i := Many(vs)], st.seen + {i}))
  {
    hide ReadRecords, At, Prefixed, Key, EncPacked, Chunk, ReadPacked, ReadScalar, SlotOf, ReadLen, SkipValue;
    var k := fields[i].ty.k;
    var body := EncPacked(vs, k);
    AtConcat(s, p, Key(fields[i].id, 2), Prefixed(body));
    var q := p + |Key(fields[i].id, 2)|;
    AtSlice(s, q, Prefixed(body));
    ChunkBack(s, q, body);
    assert At(body, 0, body) by { AtSelf(body); }
    PackedBack(body, 0, vs, k, []);
    assert [] + vs == vs;
    if k.Fixed? {
      PackedSize(vs, k);
    }
    assert WireOf(fields[i].ty) != 2;
    RecordStep(s, p, depth, fields, i, st, 2);
  }

  lemma {:induction false} AtSelf(s: seq<byte>)
    ensures At(s, 0, s)
  {
  }

  lemma {:induction false} OneBack(s: seq<byte>, p: nat, depth: nat, fields: seq<Field>, i: nat, v: Value, st: State)
    requires |st.members| == |fields| && i < |fields| && |s| <= SIZE_MAX
    requires 1 <= fields[i].id <= 32767 && SlotOf(fields, fields[i].id) == Some(i)
    requires SchemaOk(fields[i].ty) && Typed(v, fields[i].ty) && At(s, p, EncRecord(v, fields[i]))
    requires fields[i].shape.Repeated? || ValueIn(st.members[i], fields[i].ty) == Default(fields[i].ty)
    ensures p + |EncRecord(v, fields[i])| <= |s|
    ensures ReadRecords(s, p, depth, fields, st) ==
            if DepthOk(v, depth)
            then ReadRecords(s, p + |EncRecord(v, fields[i])|, depth, fields,
                             State(st.members[i := Put(st.members[i], fields[i], v)], st.seen + {i}))
            else Broken
    decreases fields[i], 3, 0
  {
    hide SchemaOk, Typed, ReadRecords, DepthOk, At, EncVal, ReadField, Default, Key, SlotOf, Put, ValueIn, WireOf;
    var f := fields[i];
    AtConcat(s, p, Key(f.id, WireOf(f.ty)), EncVal(v, f.ty));
    ValueBack(s, p + |Key(f.id, WireOf(f.ty))|, depth, v, f, st.members[i]);
    AtSlice(s, p, EncRecord(v, f));
    RecordStep(s, p, depth, fields, i, st, WireOf(f.ty));
  }

  lemma {:induction false} ManyBack(s: seq<byte>, p: nat, depth: nat, fields: seq<Field>, i: nat, vs: seq<Value>,
                                    done: seq<Value>, st: State)
    requires |st.members| == |fields| && i < |fields| && |s| <= SIZE_MAX && fields[i].shape.Repeated?
    requires 1 <= fields[i].id <= 32767 && SlotOf(fields, fields[i].id) == Some(i)
    requires SchemaOk(fields[i].ty) && forall k :: 0 <= k < |vs| ==> Typed(vs[k], fields[i].ty)
    requires st.members[i] == Many(done) && At(s, p, EncMany(vs, fields[i]))
    ensures p + |EncMany(vs, fields[i])| <= |s|
    ensures ReadRecords(s, p, depth, fields, st) ==
            if DepthOkAll(vs, depth)
            then ReadRecords(s, p + |EncMany(vs, fields[i])|, depth, fields,
                             State(st.members[i := Many(done + vs)], if |vs| == 0 then st.seen else st.seen + {i}))
            else Broken
    decreases fields[i], 4, |vs|
  {
    hide SchemaOk, Typed, ReadRecords, DepthOk, At, EncRecord, Default, SlotOf, DepthOkAll, ValueIn;
    var f := fields[i];
    AtSlice(s, p, EncMany(vs, f));
    AllHead(vs, depth);
    if |vs| == 0 {
      assert done + vs == done && st.members[i := Many(done)] == st.members;
    } else {
      AtConcat(s, p, EncRecord(vs[0], f), EncMany(vs[1..], f));
      OneBack(s, p, depth, fields, i, vs[0], st);
      if DepthOk(vs[0], depth) {
        var next := State(st.members[i := Many(done + [vs[0]])], st.seen + {i});
        ManyBack(s, p + |EncRecord(vs[0], f)|, depth, fields, i, vs[1..], done + [vs[0]], next);
        assert done + [vs[0]] + vs[1..] == done + vs;
        assert next.members[i := Many(done + vs)] == st.members[i := Many(done + vs)];
        assert next.seen + {i} == next.seen;
      }
    }
  }

  lemma {:induction false} AllHead(vs: seq<Value>, depth: nat)
    ensures |vs| == 0 ==> DepthOkAll(vs, depth)
    ensures |vs| > 0 ==> (DepthOkAll(vs, depth) <==> DepthOk(vs[0], depth) && DepthOkAll(vs[1..], depth))
  {
    if |vs| > 0 {
      assert forall k :: 0 < k < |vs| ==> vs[k] == vs[1..][k - 1];
    }
  }

  /** Every message of the model: reading its encoding gives it back exactly when it nests within the limit,
      and fails otherwise. */
  lemma {:induction false} RoundTrip(m: Value, fields: seq<Field>)
    requires SchemaOk(Message(fields)) && Typed(m, Message(fields)) && |EncMsg(m.members, fields, 0)| <= SIZE_MAX
    ensures Decode(EncMsg(m.members, fields, 0), fields, DefaultSlots(fields)) ==
            Back(DepthOkFrom(m.members, 0, 0), m)
  {
    hide ReadRecords, EncMsg, SchemaOk, TypedSlot, DepthOkSlot, AllSeen;
    var s := EncMsg(m.members, fields, 0);
    AtSelf(s);
    assert m.members[..0] + DefaultSlots(fields)[0..] == DefaultSlots(fields);
    RecordsBack(s, 0, 0, fields, m.members, 0);
    assert m == VMsg(m.members);
    RequiredSeen(fields, m.members);
  }
}
