/** The two passes of the protobuf encoder, include/nanom/protobuf_encode.hpp:115-357: measuring records the
    size of every nested message in the order they are written; writing takes them from that list. */
module ProtobufWriter {
  import opened Bytes
  import opened Leb128
  import opened Tagged
  import opened Protobuf
  import opened ProtobufEncode
  import opened StagedWriter

  const MAX_LEN := 0x7FFF_FFFF

  // ------------------------------------------------------------------
  // What the measuring pass should find
  // ------------------------------------------------------------------

  /** The sizes of the messages inside a value, outermost first, in write order. */
  ghost function Sizes(v: Value, ty: Type): (ns: seq<nat>)
    requires SchemaOk(ty) && Typed(v, ty)
    decreases ty, 2, 0
  {
    match ty
    case Message(fields) => [|EncMsg(v.members, fields, 0)|] + SizesFrom(v.members, fields, 0)
    case _ => []
  }

  ghost function SizesMany(vs: seq<Value>, f: Field): (ns: seq<nat>)
    requires SchemaOk(f.ty) && forall i :: 0 <= i < |vs| ==> Typed(vs[i], f.ty)
    decreases f, 1, |vs|
  {
    if |vs| == 0 then [] else Sizes(vs[0], f.ty) + SizesMany(vs[1..], f)
  }

  ghost function SizesSlot(slot: Slot, f: Field): (ns: seq<nat>)
    requires SchemaOk(f.ty) && TypedSlot(slot, f)
    decreases f, 2, 0
  {
    match f.shape
    case Repeated => if f.ty.Num? then [] else SizesMany(slot.vs, f)
    case Opt => if slot.o.None? then [] else Sizes(slot.o.value, f.ty)
    case Defaulted => if IsDefault(slot.v) then [] else Sizes(slot.v, f.ty)
    case Required => Sizes(slot.v, f.ty)
  }

  ghost function SizesFrom(members: seq<Slot>, fields: seq<Field>, i: nat): (ns: seq<nat>)
    requires SchemaOk(Message(fields)) && Typed(VMsg(members), Message(fields)) && i <= |fields|
    decreases Message(fields), 0, |fields| - i
  {
    if i == |fields| then [] else SizesSlot(members[i], fields[i]) + SizesFrom(members, fields, i + 1)
  }

  /** Within protobuf's 2 GiB limits and the nesting limit. */
  ghost predicate Fits(v: Value, ty: Type, depth: nat)
    requires SchemaOk(ty) && Typed(v, ty)
    decreases ty, 2, 0
  {
    match ty
    case Text => |v.bytes| <= MAX_LEN
    case Message(fields) => FitsMsg(v.members, fields, depth + 1)
    case _ => true
  }

  ghost predicate FitsMany(vs: seq<Value>, f: Field, depth: nat)
    requires SchemaOk(f.ty) && forall i :: 0 <= i < |vs| ==> Typed(vs[i], f.ty)
    decreases f, 1, |vs|
  {
    |vs| > 0 ==> Fits(vs[0], f.ty, depth) && FitsMany(vs[1..], f, depth)
  }

  ghost predicate FitsSlot(slot: Slot, f: Field, depth: nat)
    requires SchemaOk(f.ty) && TypedSlot(slot, f)
    decreases f, 2, 0
  {
    match f.shape
    case Repeated => if f.ty.Num? then |EncPacked(slot.vs, f.ty.k)| <= MAX_LEN else FitsMany(slot.vs, f, depth)
    case Opt => slot.o.Some? ==> Fits(slot.o.value, f.ty, depth)
    case Defaulted => IsDefault(slot.v) || Fits(slot.v, f.ty, depth)
    case Required => Fits(slot.v, f.ty, depth)
  }

  ghost predicate FitsFrom(members: seq<Slot>, fields: seq<Field>, i: nat, depth: nat)
    requires SchemaOk(Message(fields)) && Typed(VMsg(members), Message(fields)) && i <= |fields|
    decreases Message(fields), 0, |fields| - i
  {
    i < |fields| ==> FitsSlot(members[i], fields[i], depth) && FitsFrom(members, fields, i + 1, depth)
  }

  ghost predicate FitsMsg(members: seq<Slot>, fields: seq<Field>, depth: nat)
    requires SchemaOk(Message(fields)) && Typed(VMsg(members), Message(fields))
    decreases Message(fields), 1, 0
  {
    depth <= MAX_DEPTH && FitsFrom(members, fields, 0, depth) && |EncMsg(members, fields, 0)| <= MAX_LEN
  }

  // ------------------------------------------------------------------
  // Varint sizes
  // ------------------------------------------------------------------

  /** protobuf_encode.hpp:48: by bit width, no loop. */
  function VarintSize(v: nat): (n: nat) {
    (BitLen(v - v % 2 + 1) + 6) / 7
  }

  lemma {:induction false} VarintSizeIsLength(v: nat)
    ensures VarintSize(v) == |Uleb128(v)|
  {
    hide BitLen;
    BitLenOdd(v);
    if v < 128 {
      BitLenIsLeast(v - v % 2 + 1, 7);
      assert v - v % 2 + 1 < Pow2(7) by { Pow2Values(); }
    } else {
      VarintSizeIsLength(v / 128);
      BitLenOdd(v / 128);
      BitLenDrop(v);
      assert |Uleb128(v)| == 1 + |Uleb128(v / 128)|;
    }
  }

  lemma {:induction false} BitLenOdd(v: nat)
    ensures v > 0 ==> BitLen(v - v % 2 + 1) == BitLen(v)
    ensures BitLen(v - v % 2 + 1) >= 1
  {
    assert (v - v % 2 + 1) / 2 == v / 2;
  }

  lemma {:induction false} BitLenDrop(v: nat)
    requires v >= 128
    ensures BitLen(v) == 7 + BitLen(v / 128)
  {
    var a := v / 2;
    var b := a / 2;
    var c := b / 2;
    var d := c / 2;
    var e := d / 2;
    var f := e / 2;
    assert f > 0 && f / 2 == v / 128;
    assert BitLen(v) == 1 + BitLen(a);
    assert BitLen(a) == 1 + BitLen(b);
    assert BitLen(b) == 1 + BitLen(c);
    assert BitLen(c) == 1 + BitLen(d);
    assert BitLen(d) == 1 + BitLen(e);
    assert BitLen(e) == 1 + BitLen(f);
    assert BitLen(f) == 1 + BitLen(f / 2);
  }

  // ------------------------------------------------------------------
  // The measuring pass
  // ------------------------------------------------------------------

  /** The state both passes share. */
  class Tally {
    var sizes: seq<nat>
    var next: nat
    var failed: bool

    constructor ()
      ensures sizes == [] && next == 0 && !failed
    {
      sizes, next, failed := [], 0, false;
    }
  }

  /** What measuring does: an earlier failure stays; without one, the sizes are those of the spec and it fails
      exactly when the limits are exceeded. */
  ghost predicate Measured(st: Tally, before: seq<nat>, failedBefore: bool, ok: bool, n: nat, size: nat, ns: seq<nat>)
    reads st
  {
    && before <= st.sizes
    && (st.failed <==> failedBefore || !ok)
    && (!st.failed ==> n == size && st.sizes == before + ns)
  }

  /** value_size (protobuf_encode.hpp:116-136). */
  method ValueSize(st: Tally, v: Value, ty: Type, depth: nat) returns (n: nat)
    requires SchemaOk(ty) && Typed(v, ty)
    modifies st`sizes, st`failed
    ensures Measured(st, old(st.sizes), old(st.failed), Fits(v, ty, depth), n, |EncVal(v, ty)|, Sizes(v, ty))
    decreases ty, 3, 0
  {
    hide BitLen, Uleb128, EncNum, EncMsg, SizesFrom, FitsMsg, TypedSlot, TypedNum, VarintSize;
    match ty
    case Empty =>
      n := 1;
      VarintSizeIsLength(0);
      EmptyLength();
      assert st.sizes + [] == st.sizes;
    case Message(fields) =>
      ghost var before := st.sizes;
      var k := |st.sizes|;
      st.sizes := st.sizes + [0];
      ghost var held := st.sizes;
      var m := Measure(st, v.members, fields, depth + 1);
      st.sizes := st.sizes[k := m];
      assert before <= st.sizes;
      n := VarintSize(m) + m;
      VarintSizeIsLength(m);
      if !st.failed {
        assert (held + SizesFrom(v.members, fields, 0))[k := m] == before + ([m] + SizesFrom(v.members, fields, 0));
      }
    case Text =>
      var m := |v.bytes|;
      if m > MAX_LEN {
        st.failed := true;
      }
      n := VarintSize(m) + m;
      VarintSizeIsLength(m);
      assert st.sizes + [] == st.sizes;
    case Num(k) =>
      n := ScalarSize(v.n, k);
      assert st.sizes + [] == st.sizes;
  }

  lemma {:induction false} EmptyLength()
    ensures |Prefixed([])| == 1
  {
  }

  method ScalarSize(n: int, k: Scalar) returns (size: nat)
    requires ScalarOk(k) && TypedNum(n, k)
    ensures size == |EncNum(n, k)|
  {
    hide BitLen, Uleb128, VarintSize;
    if k.Fixed? {
      size := k.bytes;
    } else {
      VarintSizeIsLength(VarintValue(n, k));
      size := VarintSize(VarintValue(n, k));
    }
  }

  /** packed_size. */
  method PackedLength(vs: seq<Value>, k: Scalar) returns (n: nat)
    requires ScalarOk(k) && forall i :: 0 <= i < |vs| ==> Typed(vs[i], Num(k))
    ensures n == |EncPacked(vs, k)|
  {
    hide EncNum, ScalarOk, TypedNum;
    if k.Fixed? {
      FixedPacked(vs, k);
      return k.bytes * |vs|;
    }
    n := 0;
    assert vs[0..] == vs;
    for i := 0 to |vs|
      invariant n + |EncPacked(vs[i..], k)| == |EncPacked(vs, k)|
    {
      assert vs[i..][1..] == vs[i + 1..] && Typed(vs[i], Num(k));
      var m := ScalarSize(vs[i].n, k);
      n := n + m;
    }
  }

  lemma {:induction false} FixedPacked(vs: seq<Value>, k: Scalar)
    requires ScalarOk(k) && k.Fixed? && forall i :: 0 <= i < |vs| ==> Typed(vs[i], Num(k))
    ensures |EncPacked(vs, k)| == k.bytes * |vs|
  {
    if |vs| > 0 {
      FixedPacked(vs[1..], k);
    }
  }

  /** The bytes of one member, keys included. */
  method SlotSize(st: Tally, slot: Slot, f: Field, depth: nat) returns (n: nat)
    requires SchemaOk(f.ty) && TypedSlot(slot, f)
    modifies st`sizes, st`failed
    ensures Measured(st, old(st.sizes), old(st.failed), FitsSlot(slot, f, depth), n, |EncSlot(slot, f)|, SizesSlot(slot, f))
    decreases f, 5, 0
  {
    hide BitLen, Uleb128, EncVal, Sizes, Fits, SchemaOk, VarintSize, EncMany, SizesMany, FitsMany, EncPacked, Typed;
    match f.shape
    case Repeated =>
      if f.ty.Num? {
        assert st.sizes + [] == st.sizes;
        NumScalar(f.ty);
        if |slot.vs| == 0 {
          EmptyPacked(f.ty.k);
          return 0;
        }
        var m := PackedLength(slot.vs, f.ty.k);
        if m > MAX_LEN {
          st.failed := true;
        }
        VarintSizeIsLength(8 * f.id + 2);
        VarintSizeIsLength(m);
        n := VarintSize(8 * f.id + 2) + VarintSize(m) + m;
      } else {
        n := ManySize(st, slot.vs, f, depth);
      }
    case Opt =>
      assert st.sizes + [] == st.sizes;
      if slot.o.None? {
        return 0;
      }
      n := RecordSize(st, slot.o.value, f, depth);
    case Defaulted =>
      assert st.sizes + [] == st.sizes;
      if IsDefault(slot.v) {
        return 0;
      }
      n := RecordSize(st, slot.v, f, depth);
    case Required =>
      n := RecordSize(st, slot.v, f, depth);
  }

  lemma {:induction false} NumScalar(ty: Type)
    requires SchemaOk(ty) && ty.Num?
    ensures ScalarOk(ty.k)
  {
  }

  lemma {:induction false} EmptyPacked(k: Scalar)
    requires ScalarOk(k)
    ensures EncPacked([], k) == []
  {
  }

  method RecordSize(st: Tally, v: Value, f: Field, depth: nat) returns (n: nat)
    requires SchemaOk(f.ty) && Typed(v, f.ty)
    modifies st`sizes, st`failed
    ensures Measured(st, old(st.sizes), old(st.failed), Fits(v, f.ty, depth), n, |EncRecord(v, f)|, Sizes(v, f.ty))
    decreases f, 3, 0
  {
    hide BitLen, Uleb128, EncVal, Sizes, Fits, SchemaOk, Typed, VarintSize, WireOf;
    var m := ValueSize(st, v, f.ty, depth);
    VarintSizeIsLength(8 * f.id + WireOf(f.ty));
    n := VarintSize(8 * f.id + WireOf(f.ty)) + m;
  }

  method ManySize(st: Tally, vs: seq<Value>, f: Field, depth: nat) returns (n: nat)
    requires SchemaOk(f.ty) && forall i :: 0 <= i < |vs| ==> Typed(vs[i], f.ty)
    modifies st`sizes, st`failed
    ensures Measured(st, old(st.sizes), old(st.failed), FitsMany(vs, f, depth), n, |EncMany(vs, f)|, SizesMany(vs, f))
    decreases f, 4, 0
  {
    hide EncRecord, Sizes, Fits, SchemaOk, Typed, EncMany, SizesMany, FitsMany;
    n := 0;
    ghost var before, failed := st.sizes, st.failed;
    assert vs[0..] == vs;
    for i := 0 to |vs|
      invariant before <= st.sizes
      invariant st.failed || !FitsMany(vs[i..], f, depth) <==> failed || !FitsMany(vs, f, depth)
      invariant failed ==> st.failed
      invariant !st.failed ==> n + |EncMany(vs[i..], f)| == |EncMany(vs, f)|
      invariant !st.failed ==> st.sizes + SizesMany(vs[i..], f) == before + SizesMany(vs, f)
    {
      ManyStep(vs, f, depth, i);
      ghost var now := st.sizes;
      var m := RecordSize(st, vs[i], f, depth);
      n := n + m;
      assert now + (Sizes(vs[i], f.ty) + SizesMany(vs[i + 1..], f)) == now + Sizes(vs[i], f.ty) + SizesMany(vs[i + 1..], f);
    }
    ManyEnd(vs, f, depth);
    assert st.sizes + [] == st.sizes;
  }

  lemma {:induction false} ManyStep(vs: seq<Value>, f: Field, depth: nat, i: nat)
    requires SchemaOk(f.ty) && (forall k :: 0 <= k < |vs| ==> Typed(vs[k], f.ty)) && i < |vs|
    ensures EncMany(vs[i..], f) == EncRecord(vs[i], f) + EncMany(vs[i + 1..], f)
    ensures SizesMany(vs[i..], f) == Sizes(vs[i], f.ty) + SizesMany(vs[i + 1..], f)
    ensures FitsMany(vs[i..], f, depth) <==> Fits(vs[i], f.ty, depth) && FitsMany(vs[i + 1..], f, depth)
  {
    hide EncRecord, Sizes, Fits, SchemaOk, Typed;
    assert vs[i..][1..] == vs[i + 1..];
  }

  lemma {:induction false} ManyEnd(vs: seq<Value>, f: Field, depth: nat)
    requires SchemaOk(f.ty) && forall k :: 0 <= k < |vs| ==> Typed(vs[k], f.ty)
    ensures EncMany(vs[|vs|..], f) == [] && SizesMany(vs[|vs|..], f) == [] && FitsMany(vs[|vs|..], f, depth)
  {
  }

  /** protobuf_encode.hpp:151-188. */
  method Measure(st: Tally, members: seq<Slot>, fields: seq<Field>, depth: nat) returns (n: nat)
    requires SchemaOk(Message(fields)) && Typed(VMsg(members), Message(fields))
    modifies st`sizes, st`failed
    ensures Measured(st, old(st.sizes), old(st.failed), FitsMsg(members, fields, depth), n,
                     |EncMsg(members, fields, 0)|, SizesFrom(members, fields, 0))
    decreases Message(fields), 0, 0
  {
    hide EncSlot, SizesSlot, FitsSlot, SchemaOk, Typed, TypedSlot, EncMsg, SizesFrom, FitsFrom;
    if depth > MAX_DEPTH {
      st.failed := true;
      return 0;
    }
    n := 0;
    ghost var before, failed := st.sizes, st.failed;
    MessageShape(members, fields);
    for i := 0 to |fields|
      invariant before <= st.sizes && (failed ==> st.failed)
      invariant st.failed || !FitsFrom(members, fields, i, depth) <==> failed || !FitsFrom(members, fields, 0, depth)
      invariant !st.failed ==> n + |EncMsg(members, fields, i)| == |EncMsg(members, fields, 0)|
      invariant !st.failed ==> st.sizes + SizesFrom(members, fields, i) == before + SizesFrom(members, fields, 0)
    {
      MemberFacts(fields, members, i);
      MsgStep(members, fields, depth, i);
      ghost var now := st.sizes;
      var m := SlotSize(st, members[i], fields[i], depth);
      n := n + m;
      ghost var ns := SizesSlot(members[i], fields[i]);
      assert now + (ns + SizesFrom(members, fields, i + 1)) == now + ns + SizesFrom(members, fields, i + 1);
    }
    MsgEnd(members, fields, depth);
    assert st.sizes + [] == st.sizes;
    if n > MAX_LEN && !st.failed {
      st.failed := true;
    }
  }

  lemma {:induction false} MessageShape(members: seq<Slot>, fields: seq<Field>)
    requires Typed(VMsg(members), Message(fields))
    ensures |members| == |fields|
  {
  }

  lemma {:induction false} MsgStep(members: seq<Slot>, fields: seq<Field>, depth: nat, i: nat)
    requires |members| == |fields| && i < |fields|
    requires SchemaOk(Message(fields)) && Typed(VMsg(members), Message(fields))
    requires SchemaOk(fields[i].ty) && TypedSlot(members[i], fields[i])
    ensures EncMsg(members, fields, i) == EncSlot(members[i], fields[i]) + EncMsg(members, fields, i + 1)
    ensures SizesFrom(members, fields, i) == SizesSlot(members[i], fields[i]) + SizesFrom(members, fields, i + 1)
    ensures FitsFrom(members, fields, i, depth) <==>
            FitsSlot(members[i], fields[i], depth) && FitsFrom(members, fields, i + 1, depth)
  {
    hide EncSlot, SizesSlot, FitsSlot, SchemaOk, Typed, TypedSlot;
  }

  lemma {:induction false} MsgEnd(members: seq<Slot>, fields: seq<Field>, depth: nat)
    requires SchemaOk(Message(fields)) && Typed(VMsg(members), Message(fields))
    ensures EncMsg(members, fields, |fields|) == [] && SizesFrom(members, fields, |fields|) == []
    ensures FitsFrom(members, fields, |fields|, depth)
  {
    hide EncSlot, SizesSlot, FitsSlot, SchemaOk, Typed, TypedSlot;
  }

  // ------------------------------------------------------------------
  // The writing pass
  // ------------------------------------------------------------------

  /** The list still holds room for the sizes of what is to be written, and, while nothing has failed, exactly
      those sizes come next. */
  ghost predicate Supplied(w: Writer, st: Tally, ns: seq<nat>)
    reads w, st
  {
    && st.next + |ns| <= |st.sizes|
    && (w.err == None ==> st.sizes[st.next..st.next + |ns|] == ns)
  }

  /** What writing does: the bytes are asked for, and while nothing has failed the sizes are used up. */
  ghost predicate Wrote(w: Writer, st: Tally, asked: seq<byte>, err: Option<Error>, bytes: seq<byte>, sizes: seq<nat>,
                        next: nat, used: nat)
    reads w, st
  {
    && w.Wrote(asked, err, bytes) && st.sizes == sizes && next <= st.next <= next + used
    && (w.err == None ==> st.next == next + used)
  }

  method WriteNum(w: Writer, n: int, k: Scalar)
    requires w.Valid() && ScalarOk(k) && TypedNum(n, k)
    modifies w, w.buf
    ensures w.Valid() && w.Wrote(old(w.asked), old(w.err), EncNum(n, k))
  {
    hide Uleb128, LeBytes;
    if k.Fixed? {
      w.Fixed(n, k.bytes);
    } else {
      w.Varint(VarintValue(n, k));
    }
  }

  method WriteBytes(w: Writer, bytes: seq<byte>)
    requires w.Valid() && |bytes| <= SIZE_MAX
    modifies w, w.buf
    ensures w.Valid() && w.Wrote(old(w.asked), old(w.err), Prefixed(bytes))
  {
    hide Uleb128, Pow2, Writer.Valid;
    assert |bytes| < Pow2(64) by { Pow2Values(); }
    w.Varint(|bytes|);
    w.Raw(bytes);
    assert old(w.asked) + Uleb128(|bytes|) + bytes == old(w.asked) + (Uleb128(|bytes|) + bytes);
  }

  /** write_value (protobuf_encode.hpp:243-265). */
  method WriteVal(w: Writer, st: Tally, v: Value, ty: Type)
    requires w.Valid() && SchemaOk(ty) && Typed(v, ty) && |EncVal(v, ty)| <= SIZE_MAX
    requires Supplied(w, st, Sizes(v, ty))
    modifies w, w.buf, st
    ensures w.Valid()
    ensures Wrote(w, st, old(w.asked), old(w.err), EncVal(v, ty), old(st.sizes), old(st.next), |Sizes(v, ty)|)
    decreases ty, 3, 0
  {
    hide EncNum, EncMsg, SizesFrom, TypedSlot, TypedNum, Uleb128, ScalarOk, Pow2, Writer.Valid;
    match ty
    case Empty =>
      WriteBytes(w, []);
    case Message(fields) =>
      ghost var before, ns := w.asked, SizesFrom(v.members, fields, 0);
      var n := st.sizes[st.next];
      ghost var next := st.next;
      st.next := st.next + 1;
      ghost var body := EncMsg(v.members, fields, 0);
      if w.err != None {
        w.Ask(Prefixed(body));
        return;
      }
      assert st.sizes[next..next + 1 + |ns|] == [|body|] + ns;
      SizeHead(st.sizes, next, |body|, ns);
      assert n < Pow2(64) by { Pow2Values(); }
      w.Varint(n);
      WriteMsg(w, st, v.members, fields);
      assert before + Uleb128(n) + body == before + (Uleb128(n) + body);
    case Text =>
      WriteBytes(w, v.bytes);
    case Num(k) =>
      WriteNum(w, v.n, k);
  }

  lemma {:induction false} SizeHead(sizes: seq<nat>, next: nat, n: nat, ns: seq<nat>)
    requires next + 1 + |ns| <= |sizes| && sizes[next..next + 1 + |ns|] == [n] + ns
    ensures sizes[next] == n && sizes[next + 1..next + 1 + |ns|] == ns
  {
    assert sizes[next] == sizes[next..next + 1 + |ns|][0];
    assert sizes[next + 1..next + 1 + |ns|] == sizes[next..next + 1 + |ns|][1..];
  }

  lemma {:induction false} SizeSplit(sizes: seq<nat>, next: nat, a: seq<nat>, b: seq<nat>)
    requires next + |a| + |b| <= |sizes| && sizes[next..next + |a| + |b|] == a + b
    ensures sizes[next..next + |a|] == a && sizes[next + |a|..next + |a| + |b|] == b
  {
    SliceConcat(sizes, next, a, b);
  }

  method WriteRecord(w: Writer, st: Tally, v: Value, f: Field)
    requires w.Valid() && SchemaOk(f.ty) && Typed(v, f.ty) && f.id <= 32767 && |EncRecord(v, f)| <= SIZE_MAX
    requires Supplied(w, st, Sizes(v, f.ty))
    modifies w, w.buf, st
    ensures w.Valid()
    ensures Wrote(w, st, old(w.asked), old(w.err), EncRecord(v, f), old(st.sizes), old(st.next), |Sizes(v, f.ty)|)
    decreases f, 3, 0
  {
    hide EncVal, Sizes, SchemaOk, Typed, Uleb128, WireOf, Pow2, Writer.Valid;
    assert 8 * f.id + WireOf(f.ty) < Pow2(64) by { Pow2Values(); }
    w.Varint(8 * f.id + WireOf(f.ty));
    WriteVal(w, st, v, f.ty);
    assert old(w.asked) + Key(f.id, WireOf(f.ty)) + EncVal(v, f.ty) ==
           old(w.asked) + (Key(f.id, WireOf(f.ty)) + EncVal(v, f.ty));
  }

  method WriteMany(w: Writer, st: Tally, vs: seq<Value>, f: Field)
    requires w.Valid() && SchemaOk(f.ty) && f.id <= 32767 && (forall i :: 0 <= i < |vs| ==> Typed(vs[i], f.ty))
    requires |EncMany(vs, f)| <= SIZE_MAX && Supplied(w, st, SizesMany(vs, f))
    modifies w, w.buf, st
    ensures w.Valid()
    ensures Wrote(w, st, old(w.asked), old(w.err), EncMany(vs, f), old(st.sizes), old(st.next), |SizesMany(vs, f)|)
    decreases f, 4, 0
  {
    hide EncRecord, Sizes, SchemaOk, Typed, EncMany, SizesMany, FitsMany, Fits, Writer.Valid;
    assert vs[0..] == vs;
    ghost var start, asked, err := st.next, w.asked, w.err;
    for i := 0 to |vs|
      invariant w.Valid() && st.sizes == old(st.sizes) && start <= st.next
      invariant if err == None then w.err == None || w.err == Some(Refused) else w.err == err
      invariant Supplied(w, st, SizesMany(vs[i..], f)) && |EncMany(vs[i..], f)| <= SIZE_MAX
      invariant w.asked + EncMany(vs[i..], f) == asked + EncMany(vs, f)
      invariant st.next + |SizesMany(vs[i..], f)| <= start + |SizesMany(vs, f)|
      invariant w.err == None ==> st.next + |SizesMany(vs[i..], f)| == start + |SizesMany(vs, f)|
    {
      ManyStep(vs, f, 0, i);
      ghost var now, a, b := w.asked, Sizes(vs[i], f.ty), SizesMany(vs[i + 1..], f);
      if w.err == None {
        SizeSplit(st.sizes, st.next, a, b);
      }
      WriteRecord(w, st, vs[i], f);
      assert now + (EncRecord(vs[i], f) + EncMany(vs[i + 1..], f)) == now + EncRecord(vs[i], f) + EncMany(vs[i + 1..], f);
    }
    ManyEnd(vs, f, 0);
    assert w.asked + [] == w.asked;
  }

  method WritePacked(w: Writer, vs: seq<Value>, f: Field)
    requires w.Valid() && f.ty.Num? && ScalarOk(f.ty.k) && f.id <= 32767 && |vs| > 0
    requires (forall i :: 0 <= i < |vs| ==> Typed(vs[i], f.ty)) && |EncPacked(vs, f.ty.k)| <= SIZE_MAX
    modifies w, w.buf
    ensures w.Valid() && w.Wrote(old(w.asked), old(w.err), Key(f.id, 2) + Prefixed(EncPacked(vs, f.ty.k)))
  {
    hide EncNum, TypedNum, Uleb128, ScalarOk, EncPacked, Pow2, Writer.Valid;
    var k := f.ty.k;
    var n := PackedLength(vs, k);
    assert 8 * f.id + 2 < Pow2(64) && n < Pow2(64) by { Pow2Values(); }
    w.Varint(8 * f.id + 2);
    w.Varint(n);
    assert vs[0..] == vs;
    ghost var head := w.asked;
    for i := 0 to |vs|
      invariant w.Valid() && w.asked + EncPacked(vs[i..], k) == head + EncPacked(vs, k)
      invariant if old(w.err) == None then w.err == None || w.err == Some(Refused) else w.err == old(w.err)
    {
      PackedStep(vs, k, i);
      ghost var now := w.asked;
      WriteNum(w, vs[i].n, k);
      assert now + (EncNum(vs[i].n, k) + EncPacked(vs[i + 1..], k)) == now + EncNum(vs[i].n, k) + EncPacked(vs[i + 1..], k);
    }
    EmptyPacked(k);
    assert vs[|vs|..] == [] && w.asked + [] == w.asked;
    ghost var body := EncPacked(vs, k);
    assert old(w.asked) + Key(f.id, 2) + Uleb128(n) + body == old(w.asked) + (Key(f.id, 2) + (Uleb128(n) + body));
  }

  lemma {:induction false} PackedStep(vs: seq<Value>, k: Scalar, i: nat)
    requires ScalarOk(k) && (forall j :: 0 <= j < |vs| ==> Typed(vs[j], Num(k))) && i < |vs|
    ensures vs[i].VNum? && TypedNum(vs[i].n, k)
    ensures EncPacked(vs[i..], k) == EncNum(vs[i].n, k) + EncPacked(vs[i + 1..], k)
  {
    hide EncNum, ScalarOk, TypedNum;
    assert Typed(vs[i], Num(k)) && vs[i..][1..] == vs[i + 1..];
  }

  method WriteSlot(w: Writer, st: Tally, slot: Slot, f: Field)
    requires w.Valid() && SchemaOk(f.ty) && TypedSlot(slot, f) && f.id <= 32767 && |EncSlot(slot, f)| <= SIZE_MAX
    requires Supplied(w, st, SizesSlot(slot, f))
    modifies w, w.buf, st
    ensures w.Valid()
    ensures Wrote(w, st, old(w.asked), old(w.err), EncSlot(slot, f), old(st.sizes), old(st.next), |SizesSlot(slot, f)|)
    decreases f, 5, 0
  {
    hide EncRecord, Sizes, SchemaOk, Typed, EncMany, SizesMany, EncPacked, Uleb128, Writer.Valid;
    assert w.asked + [] == w.asked;
    match f.shape
    case Repeated =>
      if f.ty.Num? {
        NumScalar(f.ty);
        if |slot.vs| == 0 {
          return;
        }
        assert |EncPacked(slot.vs, f.ty.k)| <= SIZE_MAX;
        WritePacked(w, slot.vs, f);
      } else {
        WriteMany(w, st, slot.vs, f);
      }
    case Opt =>
      if slot.o.None? {
        return;
      }
      WriteRecord(w, st, slot.o.value, f);
    case Defaulted =>
      if IsDefault(slot.v) {
        return;
      }
      WriteRecord(w, st, slot.v, f);
    case Required =>
      WriteRecord(w, st, slot.v, f);
  }

  /** write_message (protobuf_encode.hpp:268-315): after an error the members that remain are not visited. */
  method WriteMsg(w: Writer, st: Tally, members: seq<Slot>, fields: seq<Field>)
    requires w.Valid() && SchemaOk(Message(fields)) && Typed(VMsg(members), Message(fields))
    requires |EncMsg(members, fields, 0)| <= SIZE_MAX && Supplied(w, st, SizesFrom(members, fields, 0))
    modifies w, w.buf, st
    ensures w.Valid()
    ensures Wrote(w, st, old(w.asked), old(w.err), EncMsg(members, fields, 0), old(st.sizes), old(st.next),
                  |SizesFrom(members, fields, 0)|)
    decreases Message(fields), 0, 0
  {
    hide EncSlot, SizesSlot, FitsSlot, SchemaOk, Typed, TypedSlot, EncMsg, SizesFrom, FitsFrom, Writer.Valid;
    MessageShape(members, fields);
    ghost var start, asked, err := st.next, w.asked, w.err;
    for i := 0 to |fields|
      invariant w.Valid() && st.sizes == old(st.sizes) && start <= st.next
      invariant if err == None then w.err == None || w.err == Some(Refused) else w.err == err
      invariant Supplied(w, st, SizesFrom(members, fields, i)) && |EncMsg(members, fields, i)| <= SIZE_MAX
      invariant w.asked + EncMsg(members, fields, i) == asked + EncMsg(members, fields, 0)
      invariant st.next + |SizesFrom(members, fields, i)| <= start + |SizesFrom(members, fields, 0)|
      invariant w.err == None ==> st.next + |SizesFrom(members, fields, i)| == start + |SizesFrom(members, fields, 0)|
    {
      MemberFacts(fields, members, i);
      MsgStep(members, fields, 0, i);
      ghost var now, bytes, rest := w.asked, EncSlot(members[i], fields[i]), EncMsg(members, fields, i + 1);
      ghost var a, b := SizesSlot(members[i], fields[i]), SizesFrom(members, fields, i + 1);
      if w.err != None {
        w.Ask(bytes);
      } else {
        SizeSplit(st.sizes, st.next, a, b);
        WriteSlot(w, st, members[i], fields[i]);
      }
      assert now + (bytes + rest) == now + bytes + rest;
    }
    MsgEnd(members, fields, 0);
    assert w.asked + [] == w.asked;
  }

  // ------------------------------------------------------------------
  // The encoder
  // ------------------------------------------------------------------

  /** Whether the measuring pass is needed. */
  predicate HasNested(fields: seq<Field>) {
    exists i :: 0 <= i < |fields| && fields[i].ty.Message?
  }

  lemma {:induction false} FlatMany(vs: seq<Value>, f: Field)
    requires SchemaOk(f.ty) && !f.ty.Message? && forall i :: 0 <= i < |vs| ==> Typed(vs[i], f.ty)
    ensures SizesMany(vs, f) == []
    decreases |vs|
  {
    if |vs| > 0 {
      FlatMany(vs[1..], f);
    }
  }

  lemma {:induction false} FlatSizes(members: seq<Slot>, fields: seq<Field>, i: nat)
    requires SchemaOk(Message(fields)) && Typed(VMsg(members), Message(fields)) && i <= |fields| && !HasNested(fields)
    ensures SizesFrom(members, fields, i) == []
    decreases |fields| - i
  {
    if i < |fields| {
      FlatSizes(members, fields, i + 1);
      assert !fields[i].ty.Message?;
      assert TypedSlot(members[i], fields[i]);
      if fields[i].shape.Repeated? && !fields[i].ty.Num? {
        FlatMany(members[i].vs, fields[i]);
      }
      assert SizesSlot(members[i], fields[i]) == [];
    }
  }

  /** What the encoder itself asks of a message: the limits are checked only where messages nest. */
  ghost predicate Accepted(m: Value, fields: seq<Field>)
    requires SchemaOk(Message(fields)) && Typed(m, Message(fields))
  {
    HasNested(fields) ==> FitsMsg(m.members, fields, 0)
  }

  /** protobuf_encode into a sink that holds `out` and has room for `capacity` bytes in all. */
  method Encode(m: Value, fields: seq<Field>, out: seq<byte>, capacity: nat) returns (r: Option<nat>, out': seq<byte>)
    requires SchemaOk(Message(fields)) && Typed(m, Message(fields)) && |out| <= capacity
    requires |EncMsg(m.members, fields, 0)| <= SIZE_MAX
    ensures r.Some? <==> Accepted(m, fields) && |out| + |EncMsg(m.members, fields, 0)| <= capacity
    ensures r.Some? ==> out' == out + EncMsg(m.members, fields, 0) && r.value == |EncMsg(m.members, fields, 0)|
    ensures |out'| <= capacity && out <= out'
  {
    hide SchemaOk, TypedSlot, EncMsg, SizesFrom, FitsMsg, HasNested;
    var ms := m.members;
    assert m == VMsg(ms);
    var st := new Tally();
    if HasNested(fields) {
      var n := Measure(st, ms, fields, 0);
      if st.failed {
        return None, out;
      }
      assert [] + SizesFrom(ms, fields, 0) == SizesFrom(ms, fields, 0);
    } else {
      FlatSizes(ms, fields, 0);
    }
    assert st.sizes[0..|st.sizes|] == st.sizes;
    var w := new Writer(out, capacity);
    WriteMsg(w, st, ms, fields);
    Finish(w);
    if w.err != None {
      return None, w.sink;
    }
    return Some(w.total), w.sink;
  }

  /** protobuf_size: the encoded length of a message within the limits, checked whether or not messages nest. */
  method Size(m: Value, fields: seq<Field>) returns (r: Option<nat>)
    requires SchemaOk(Message(fields)) && Typed(m, Message(fields))
    ensures r == if FitsMsg(m.members, fields, 0) then Some(|EncMsg(m.members, fields, 0)|) else None
  {
    hide SchemaOk, TypedSlot, EncMsg, SizesFrom, FitsMsg;
    assert m == VMsg(m.members);
    var st := new Tally();
    var n := Measure(st, m.members, fields, 0);
    return if st.failed then None else Some(n);
  }

  // ------------------------------------------------------------------
  // The encoder's limits and the decoder's
  // ------------------------------------------------------------------

  lemma {:induction false} FitsVal(v: Value, ty: Type, depth: nat)
    requires SchemaOk(ty) && Typed(v, ty) && |EncVal(v, ty)| <= MAX_LEN
    ensures Fits(v, ty, depth) <==> DepthOk(v, depth)
    decreases ty, 3, 0
  {
    hide EncMsg, FitsFrom, DepthOkSlot, TypedSlot;
    if ty.Message? {
      FitsMembers(v.members, ty.fields, 0, depth + 1);
    }
  }

  lemma {:induction false} FitsElems(vs: seq<Value>, f: Field, depth: nat)
    requires SchemaOk(f.ty) && (forall i :: 0 <= i < |vs| ==> Typed(vs[i], f.ty)) && |EncMany(vs, f)| <= MAX_LEN
    ensures FitsMany(vs, f, depth) <==> DepthOkAll(vs, depth)
    decreases f, 4, |vs|
  {
    hide EncVal, Fits, SchemaOk, Typed, DepthOk, DepthOkAll;
    AllHead(vs, depth);
    if |vs| > 0 {
      FitsVal(vs[0], f.ty, depth);
      FitsElems(vs[1..], f, depth);
    }
  }

  lemma {:induction false} FitsMember(slot: Slot, f: Field, depth: nat)
    requires SchemaOk(f.ty) && TypedSlot(slot, f) && |EncSlot(slot, f)| <= MAX_LEN
    ensures FitsSlot(slot, f, depth) <==> DepthOkSlot(slot, depth)
    decreases f, 5, 0
  {
    hide EncVal, Fits, SchemaOk, Typed, EncMany, FitsMany, EncPacked;
    match f.shape
    case Repeated =>
      if f.ty.Num? {
        NumScalar(f.ty);
        NumsShallow(slot.vs, f.ty.k, depth);
        if slot.vs == [] {
          EmptyPacked(f.ty.k);
        }
      } else {
        FitsElems(slot.vs, f, depth);
      }
    case Opt => if slot.o.Some? { FitsVal(slot.o.value, f.ty, depth); }
    case Defaulted => if !IsDefault(slot.v) { FitsVal(slot.v, f.ty, depth); }
    case Required => FitsVal(slot.v, f.ty, depth);
  }

  lemma {:induction false} FitsMembers(members: seq<Slot>, fields: seq<Field>, i: nat, depth: nat)
    requires SchemaOk(Message(fields)) && Typed(VMsg(members), Message(fields)) && i <= |fields|
    requires |EncMsg(members, fields, i)| <= MAX_LEN
    ensures FitsFrom(members, fields, i, depth) <==> DepthOkFrom(members, i, depth)
    decreases Message(fields), 0, |fields| - i
  {
    hide EncSlot, FitsSlot, SchemaOk, Typed, TypedSlot, DepthOkSlot;
    MessageShape(members, fields);
    if i < |fields| {
      MemberFacts(fields, members, i);
      FitsMember(members[i], fields[i], depth);
      FitsMembers(members, fields, i + 1, depth);
    }
  }

  /** Without nested messages there is no nesting to limit. */
  lemma {:induction false} FlatDepth(members: seq<Slot>, fields: seq<Field>, i: nat, depth: nat)
    requires SchemaOk(Message(fields)) && Typed(VMsg(members), Message(fields)) && i <= |fields| && !HasNested(fields)
    ensures |members| == |fields| && DepthOkFrom(members, i, depth)
    decreases |fields| - i
  {
    if i < |fields| {
      FlatDepth(members, fields, i + 1, depth);
      assert !fields[i].ty.Message? && TypedSlot(members[i], fields[i]);
    }
  }

  /** protobuf_size answers exactly for the messages of at most 2 GiB that the decoder reads back. */
  lemma {:induction false} SizesExactlyWhatDecodes(m: Value, fields: seq<Field>)
    requires SchemaOk(Message(fields)) && Typed(m, Message(fields))
    ensures FitsMsg(m.members, fields, 0) <==>
            && |EncMsg(m.members, fields, 0)| <= MAX_LEN
            && Decode(EncMsg(m.members, fields, 0), fields, DefaultSlots(fields)) == Some(m)
  {
    hide SchemaOk, TypedSlot, EncMsg, FitsFrom, DepthOkFrom;
    assert m == VMsg(m.members);
    if |EncMsg(m.members, fields, 0)| <= MAX_LEN {
      FitsMembers(m.members, fields, 0, 0);
      RoundTrip(m, fields);
    }
  }

  /** The encoder accepts exactly the messages the decoder reads back, and where messages nest, of these those of
      at most 2 GiB. */
  lemma {:induction false} EncodesExactlyWhatDecodes(m: Value, fields: seq<Field>)
    requires SchemaOk(Message(fields)) && Typed(m, Message(fields)) && |EncMsg(m.members, fields, 0)| <= SIZE_MAX
    ensures Accepted(m, fields) <==>
            && (HasNested(fields) ==> |EncMsg(m.members, fields, 0)| <= MAX_LEN)
            && Decode(EncMsg(m.members, fields, 0), fields, DefaultSlots(fields)) == Some(m)
  {
    hide SchemaOk, TypedSlot, EncMsg, FitsMsg, DepthOkFrom, HasNested;
    assert m == VMsg(m.members);
    SizesExactlyWhatDecodes(m, fields);
    RoundTrip(m, fields);
    if !HasNested(fields) {
      FlatDepth(m.members, fields, 0, 0);
    }
  }

  /** protobuf_size is documented as the number of bytes protobuf_encode writes. It answers exactly when the encoder
      accepts, unless no messages nest and the encoding is longer than 2 GiB. */
  lemma {:induction false} SizeAgreesWithEncode(m: Value, fields: seq<Field>)
    requires SchemaOk(Message(fields)) && Typed(m, Message(fields))
    ensures (FitsMsg(m.members, fields, 0) <==> Accepted(m, fields)) <==>
            HasNested(fields) || |EncMsg(m.members, fields, 0)| <= MAX_LEN
  {
    hide SchemaOk, TypedSlot, EncMsg, FitsFrom, DepthOkFrom, HasNested;
    assert m == VMsg(m.members);
    if !HasNested(fields) {
      FlatDepth(m.members, fields, 0, 0);
      if |EncMsg(m.members, fields, 0)| <= MAX_LEN {
        FitsMembers(m.members, fields, 0, 0);
      }
    }
  }

  /** One optional string of `n` bytes. */
  ghost function LongText(n: nat): (m: Value) {
    VMsg([Maybe(Some(VText(seq(n, i => 0))))])
  }

  /** There the two part: a string of 2^31 bytes in a flat message is written, and has no size. */
  lemma {:induction false} FlatMessageTooLong()
    ensures
      var m, fields := LongText(MAX_LEN + 1), [Field(1, Text, Opt)];
      && SchemaOk(Message(fields)) && Typed(m, Message(fields)) && |EncMsg(m.members, fields, 0)| <= SIZE_MAX
      && Accepted(m, fields) && !FitsMsg(m.members, fields, 0)
  {
    hide Uleb128;
    var f := Field(1, Text, Opt);
    var m := LongText(MAX_LEN + 1);
    assert Typed(m.members[0].o.value, Text) && TypedSlot(m.members[0], f);
    assert EncMsg(m.members, [f], 1) == [];
    assert EncMsg(m.members, [f], 0) == EncSlot(m.members[0], f) + [];
    Pow2Values();
    Pow2Monotone(32, 35);
    UlebLength(MAX_LEN + 1, 5);
    UlebLength(10, 5);
  }
}
