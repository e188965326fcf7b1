/** The protobuf wire format as a grammar of its own, and what the reader makes of every message in it: fields in any
    order, repeated, unknown or of another wire type, packed or one record an element
    (include/nanom/protobuf.hpp:156-450). */
module ProtobufWire {
  import opened Bytes
  import opened Leb128
  import opened Tagged
  import opened Protobuf
  import opened ProtobufEncode
  import opened ProtobufEvolution

  // ------------------------------------------------------------------
  // The format
  // ------------------------------------------------------------------

  /** A length-delimited body is plain bytes, the records of a message, or a run of scalars. */
  datatype Wire =
    | WVar(u: nat)
    | W64(bits: nat)
    | W32(bits: nat)
    | WBytes(bytes: seq<byte>)
    | WNest(recs: seq<Rec>)
    | WRun(elems: seq<Wire>)

  datatype Rec = Rec(id: nat, w: Wire)

  function Code(w: Wire): (wt: nat)
    ensures wt < 8
  {
    match w
    case WVar(_) => 0
    case W64(_) => 1
    case W32(_) => 5
    case _ => 2
  }

  ghost predicate Legal(w: Wire)
    decreases w, 1
  {
    match w
    case WVar(u) => u < Pow2(64)
    case W64(bits) => bits < Pow2(64)
    case W32(bits) => bits < Pow2(32)
    case WBytes(_) => true
    case WNest(recs) => LegalAll(recs)
    case WRun(elems) => forall i :: 0 <= i < |elems| ==> Code(elems[i]) != 2 && Legal(elems[i])
  }

  ghost predicate LegalAll(recs: seq<Rec>)
    decreases recs, 0
  {
    forall i :: 0 <= i < |recs| ==> LegalRec(recs[i])
  }

  ghost predicate LegalRec(r: Rec)
    decreases r, 0
  {
    1 <= r.id <= MAX_FIELD_NUMBER && Legal(r.w)
  }

  /** The bytes after a record's key. */
  ghost function Body(w: Wire): (s: seq<byte>)
    requires Legal(w)
    decreases w, 3
  {
    match w
    case WVar(u) => Uleb128(u)
    case W64(bits) => LeBytes(bits, 8)
    case W32(bits) => LeBytes(bits, 4)
    case _ => Prefixed(Payload(w))
  }

  ghost function Payload(w: Wire): (s: seq<byte>)
    requires Legal(w) && Code(w) == 2
    decreases w, 2
  {
    match w
    case WBytes(bytes) => bytes
    case WNest(recs) => RecsBytes(recs)
    case WRun(elems) => RunBytes(elems)
  }

  ghost function RunBytes(elems: seq<Wire>): (s: seq<byte>)
    requires forall i :: 0 <= i < |elems| ==> Code(elems[i]) != 2 && Legal(elems[i])
    decreases elems, 0
  {
    if |elems| == 0 then [] else Body(elems[0]) + RunBytes(elems[1..])
  }

  ghost function RecsBytes(recs: seq<Rec>): (s: seq<byte>)
    requires LegalAll(recs)
    decreases recs, 0
  {
    if |recs| == 0 then [] else RecBytes(recs[0]) + RecsBytes(recs[1..])
  }

  ghost function RecBytes(r: Rec): (s: seq<byte>)
    requires LegalRec(r)
    decreases r, 0
  {
    Key(r.id, Code(r.w)) + Body(r.w)
  }

  // ------------------------------------------------------------------
  // What a message on the wire means under a model
  // ------------------------------------------------------------------

  function TwosComplement(u: nat): int {
    if u < Pow2(63) then u else u - Pow2(64)
  }

  /** The number a member of kind k takes from a scalar. */
  ghost function NumOf(k: Scalar, w: Wire): Option<int> {
    match k
    case Bool => if w.WVar? && w.u <= 1 then Some(w.u) else None
    case Uint(bits) => if w.WVar? && w.u < Pow2(bits) then Some(w.u) else None
    case Int(bits) => if w.WVar? && InRange(TwosComplement(w.u), bits) then Some(TwosComplement(w.u)) else None
    case Sint(bits) => if w.WVar? && InRange(Unzigzag(w.u), bits) then Some(Unzigzag(w.u)) else None
    case Fixed(_) => if w.W32? || w.W64? then Some(w.bits) else None
  }

  /** A length-delimited body of a declared field has the field's own structure. */
  ghost predicate Suits(w: Wire, f: Field)
    decreases w, 1
  {
    Takes(f, Code(w)) && Code(w) == 2 ==>
      match f.ty
      case Num(k) => w.WRun? && forall i :: 0 <= i < |w.elems| ==> Code(w.elems[i]) == WireOf(f.ty)
      case Text => true
      case Empty => w.WNest?
      case Message(fields) => w.WNest? && SuitAll(w.recs, fields)
  }

  ghost predicate SuitAll(recs: seq<Rec>, fields: seq<Field>)
    decreases recs, 0
  {
    forall i :: 0 <= i < |recs| ==> SuitsRec(recs[i], fields)
  }

  ghost predicate SuitsRec(r: Rec, fields: seq<Field>)
    decreases r, 0
  {
    forall k :: 0 <= k < |fields| && fields[k].id == r.id ==> Suits(r.w, fields[k])
  }

  ghost function Base(cur: Value, fields: seq<Field>): (ms: seq<Slot>)
    ensures |ms| == |fields|
  {
    if cur.VMsg? && |cur.members| == |fields| then cur.members else DefaultSlots(fields)
  }

  /** One value of type `ty`, over what the member holds. */
  ghost function Meaning(w: Wire, ty: Type, depth: nat, cur: Value): Option<Value>
    requires Legal(w)
    decreases w, 4
  {
    match ty
    case Num(k) => if NumOf(k, w).None? then None else Some(VNum(NumOf(k, w).value))
    case Text => if Code(w) == 2 then Some(VText(Payload(w))) else None
    case Empty => if w.WNest? then Some(VEmpty) else None
    case Message(fields) =>
      if w.WNest? && depth < MAX_DEPTH then Fold(w.recs, fields, depth + 1, Base(cur, fields), {}) else None
  }

  ghost function Run(elems: seq<Wire>, k: Scalar, acc: seq<Value>): Option<seq<Value>> {
    if |elems| == 0 then Some(acc)
    else if NumOf(k, elems[0]).None? then None
    else Run(elems[1..], k, acc + [VNum(NumOf(k, elems[0]).value)])
  }

  /** What field f's slot becomes: a repeated one grows, another is set, a message merged. */
  ghost function Taken(w: Wire, f: Field, depth: nat, slot: Slot): Option<Slot>
    requires Legal(w)
    decreases w, 5
  {
    if f.shape.Repeated? then
      var had := if slot.Many? then slot.vs else [];
      if w.WRun? && f.ty.Num? then
        var vs := Run(w.elems, f.ty.k, had);
        if vs.None? then None else Some(Many(vs.value))
      else
        var v := Meaning(w, f.ty, depth, Default(f.ty));
        if v.None? then None else Some(Many(had + [v.value]))
    else
      var v := Meaning(w, f.ty, depth, ValueIn(slot, f.ty));
      if v.None? then None else Some(if f.shape.Opt? then Maybe(v) else One(v.value))
  }

  ghost predicate Known(r: Rec, fields: seq<Field>) {
    var k := SlotOf(fields, r.id);
    k.Some? && Takes(fields[k.value], Code(r.w))
  }

  /** The records in turn over `ms`; those the model does not know, or knows under another wire type, change nothing. */
  ghost function Fold(recs: seq<Rec>, fields: seq<Field>, depth: nat, ms: seq<Slot>, seen: set<nat>): Option<Value>
    requires LegalAll(recs) && |ms| == |fields|
    decreases recs, 0
  {
    if |recs| == 0 then if AllSeen(fields, seen) then Some(VMsg(ms)) else None
    else if !Known(recs[0], fields) then Fold(recs[1..], fields, depth, ms, seen)
    else
      var k := SlotOf(fields, recs[0].id).value;
      var x := RecTaken(recs[0], fields[k], depth, ms[k]);
      if x.None? then None else Fold(recs[1..], fields, depth, ms[k := x.value], seen + {k})
  }

  ghost function RecTaken(r: Rec, f: Field, depth: nat, slot: Slot): Option<Slot>
    requires LegalRec(r)
    decreases r, 0
  {
    Taken(r.w, f, depth, slot)
  }

  // ------------------------------------------------------------------
  // Reading
  // ------------------------------------------------------------------

  /** Every value of the format is skipped exactly. */
  lemma {:induction false} SkipWire(s: seq<byte>, p: nat, w: Wire)
    requires Legal(w) && |s| <= SIZE_MAX && At(s, p, Body(w))
    ensures p <= |s| && SkipValue(s, p, Code(w)) == Ok((), p + |Body(w)|)
  {
    hide Uleb128, Varint, Chunk, Payload, Prefixed, LeBytes, Pow2;
    AtSlice(s, p, Body(w));
    match w
    case WVar(u) => VarintBack(s, p, u);
    case W64(_) =>
    case W32(_) =>
    case _ => ChunkBack(s, p, Payload(w));
  }

  /** The body of an empty struct: any records at all. */
  lemma {:induction false} EmptyWire(s: seq<byte>, p: nat, recs: seq<Rec>)
    requires LegalAll(recs) && At(s, p, RecsBytes(recs)) && p + |RecsBytes(recs)| == |s| <= SIZE_MAX
    ensures EmptyOk(s, p)
    decreases |recs|
  {
    hide At, Legal, Body, Key, Varint, SkipValue;
    if |recs| > 0 {
      var r := recs[0];
      assert LegalRec(r);
      AtConcat(s, p, RecBytes(r), RecsBytes(recs[1..]));
      AtConcat(s, p, Key(r.id, Code(r.w)), Body(r.w));
      KeyBack(s, p, r.id, Code(r.w));
      SkipWire(s, p + |Key(r.id, Code(r.w))|, r.w);
      EmptyWire(s, p + |RecBytes(r)|, recs[1..]);
    }
  }

  lemma {:induction false} NumWire(s: seq<byte>, p: nat, w: Wire, k: Scalar)
    requires ScalarOk(k) && Legal(w) && Code(w) == WireOf(Num(k)) && At(s, p, Body(w))
    ensures ReadScalar(s, p, k) ==
            if NumOf(k, w).None? then Fail else Ok(VNum(NumOf(k, w).value), p + |Body(w)|)
  {
    hide Uleb128, Varint, LeBytes, LeNat, Pow2, TwosComplement, Unzigzag;
    AtSlice(s, p, Body(w));
    if k.Fixed? {
      FixedWire(w, k.bytes);
    } else {
      VarintBack(s, p, w.u);
      if k.Int? {
        SignedIs(w.u);
      } else if k.Sint? {
        ZigzagDecodeValue(w.u, 64);
      }
    }
  }

  lemma {:induction false} FixedWire(w: Wire, n: nat)
    requires Legal(w) && ((n == 4 && w.W32?) || (n == 8 && w.W64?))
    ensures |Body(w)| == n && LeNat(Body(w)) == w.bits
  {
    hide LeBytes, LeNat, Pow2;
    LeNatLeBytes(w.bits, n);
  }

  lemma {:induction false} SignedIs(u: nat)
    requires u < Pow2(64)
    ensures ToSigned(u, 64) == TwosComplement(u)
  {
  }

  lemma {:induction false} RunWire(s: seq<byte>, p: nat, elems: seq<Wire>, k: Scalar, acc: seq<Value>)
    requires ScalarOk(k)
    requires forall i :: 0 <= i < |elems| ==> Code(elems[i]) == WireOf(Num(k)) && Legal(elems[i]) && Code(elems[i]) != 2
    requires At(s, p, RunBytes(elems)) && p + |RunBytes(elems)| == |s|
    ensures ReadPacked(s, p, k, acc) == Run(elems, k, acc)
    ensures k.Fixed? ==> |RunBytes(elems)| % k.bytes == 0
    decreases |elems|
  {
    hide At, Legal, Body, ReadScalar, NumOf, Code, WireOf;
    if |elems| > 0 {
      var head := Body(elems[0]);
      AtConcat(s, p, head, RunBytes(elems[1..]));
      NumWire(s, p, elems[0], k);
      var n := NumOf(k, elems[0]);
      ScalarBody(elems[0], k);
      RunWire(s, p + |head|, elems[1..], k, if n.None? then acc else acc + [VNum(n.value)]);
      if k.Fixed? {
        Multiple(k.bytes, |RunBytes(elems[1..])|);
      }
    }
  }

  lemma {:induction false} Multiple(n: nat, rest: nat)
    requires (n == 4 || n == 8) && rest % n == 0
    ensures (n + rest) % n == 0
  {
  }

  lemma {:induction false} ScalarBody(w: Wire, k: Scalar)
    requires ScalarOk(k) && Legal(w) && Code(w) == WireOf(Num(k))
    ensures |Body(w)| > 0 && (k.Fixed? ==> |Body(w)| == k.bytes)
  {
    hide Pow2, LeBytes, Uleb128;
  }

  ghost function Closing(r: Records, fields: seq<Field>): Option<Value> {
    if r.Whole? && AllSeen(fields, r.st.seen) then Some(VMsg(r.st.members)) else None
  }

  /** A length-delimited value from its bytes. */
  lemma {:induction false} LenWire(body: seq<byte>, depth: nat, w: Wire, ty: Type, cur: Value)
    requires SchemaOk(ty) && Legal(w) && Code(w) == 2 && body == Payload(w) && |body| <= SIZE_MAX
    requires ty.Text? || w.WNest?
    requires ty.Message? ==> SuitAll(w.recs, ty.fields)
    ensures !ty.Num? ==> ReadLen(body, depth, ty, cur) == Meaning(w, ty, depth, cur)
    decreases w, 1
  {
    hide RecsBytes, RunBytes, LegalAll, SuitAll, SchemaOk, EmptyOk, ReadRecords, Fold, DefaultSlots, AllSeen;
    match ty
    case Num(_) =>
    case Text =>
    case Empty =>
      AtSelf(body);
      EmptyWire(body, 0, w.recs);
    case Message(fields) =>
      if depth < MAX_DEPTH {
        AtSelf(body);
        RecordsWire(body, 0, depth + 1, w.recs, fields, State(Base(cur, fields), {}));
      }
  }

  /** One record's body into the slot of a field that takes it. */
  lemma {:induction false} FieldWire(s: seq<byte>, p: nat, depth: nat, w: Wire, f: Field, slot: Slot)
    requires SchemaOk(f.ty) && Legal(w) && Takes(f, Code(w)) && Suits(w, f) && |s| <= SIZE_MAX && At(s, p, Body(w))
    ensures p <= |s|
    ensures ReadField(s, p, Code(w), depth, f, slot) ==
            match Taken(w, f, depth, slot)
            case None => Bad
            case Some(x) => Got(x, true, p + |Body(w)|)
    decreases w, 2
  {
    hide At, Legal, Body, Meaning, Run, ReadScalar, Chunk, ReadLen, ReadPacked, Default, Payload, SuitAll, NumOf,
         ScalarOk;
    AtSlice(s, p, Body(w));
    if Code(w) != 2 {
      NumField(s, p, depth, w, f, slot);
    } else {
      BodyIs(w);
      ChunkBack(s, p, Payload(w));
      BodyBound(s, p, Payload(w));
      if f.ty.Num? {
        RunField(w, f.ty.k, ElemsIn(slot));
      } else {
        LenWire(Payload(w), depth, w, f.ty, if f.shape.Repeated? then Default(f.ty) else ValueIn(slot, f.ty));
      }
    }
  }

  lemma {:induction false} BodyIs(w: Wire)
    requires Legal(w) && Code(w) == 2
    ensures Body(w) == Prefixed(Payload(w))
  {
  }

  lemma {:induction false} NumField(s: seq<byte>, p: nat, depth: nat, w: Wire, f: Field, slot: Slot)
    requires SchemaOk(f.ty) && Legal(w) && Takes(f, Code(w)) && Code(w) != 2 && At(s, p, Body(w)) && p <= |s|
    ensures ReadField(s, p, Code(w), depth, f, slot) ==
            match Taken(w, f, depth, slot)
            case None => Bad
            case Some(x) => Got(x, true, p + |Body(w)|)
  {
    hide At, Legal, Body, Run, ReadScalar, NumOf, ScalarOk, Default;
    NumWire(s, p, w, f.ty.k);
  }

  lemma {:induction false} RunField(w: Wire, k: Scalar, acc: seq<Value>)
    requires ScalarOk(k) && Legal(w) && w.WRun? && forall i :: 0 <= i < |w.elems| ==> Code(w.elems[i]) == WireOf(Num(k))
    ensures ReadPacked(Payload(w), 0, k, acc) == Run(w.elems, k, acc)
    ensures k.Fixed? ==> |Payload(w)| % k.bytes == 0
  {
    hide ReadPacked, Run, RunBytes;
    AtSelf(Payload(w));
    RunWire(Payload(w), 0, w.elems, k, acc);
  }

  lemma {:induction false} RecordsWire(s: seq<byte>, p: nat, depth: nat, recs: seq<Rec>, fields: seq<Field>, st: State)
    requires SchemaOk(Message(fields)) && LegalAll(recs) && SuitAll(recs, fields) && |st.members| == |fields|
    requires At(s, p, RecsBytes(recs)) && p + |RecsBytes(recs)| == |s| <= SIZE_MAX
    ensures Closing(ReadRecords(s, p, depth, fields, st), fields) == Fold(recs, fields, depth, st.members, st.seen)
    decreases recs, 0
  {
    hide SchemaOk, ReadRecords, RecBytes, RecTaken, Known, At, LegalRec, SuitsRec, SlotOf, AllSeen;
    if |recs| == 0 {
      MessageEnds(s, p, depth, fields, st);
    } else {
      var r := recs[0];
      AtConcat(s, p, RecBytes(r), RecsBytes(recs[1..]));
      RecordWire(s, p, depth, r, fields, st);
      if !Known(r, fields) {
        RecordsWire(s, p + |RecBytes(r)|, depth, recs[1..], fields, st);
      } else {
        KnownSlot(r, fields);
        var k := SlotOf(fields, r.id).value;
        var x := RecTaken(r, fields[k], depth, st.members[k]);
        if x.Some? {
          RecordsWire(s, p + |RecBytes(r)|, depth, recs[1..], fields,
                      State(st.members[k := x.value], st.seen + {k}));
        }
      }
    }
  }

  lemma {:induction false} KnownSlot(r: Rec, fields: seq<Field>)
    requires Known(r, fields)
    ensures SlotOf(fields, r.id).Some?
  {
  }

  /** One turn of the reader's record loop. */
  lemma {:induction false} RecordWire(s: seq<byte>, p: nat, depth: nat, r: Rec, fields: seq<Field>, st: State)
    requires SchemaOk(Message(fields)) && LegalRec(r) && SuitsRec(r, fields) && |st.members| == |fields|
    requires At(s, p, RecBytes(r)) && |s| <= SIZE_MAX
    ensures p < p + |RecBytes(r)| <= |s|
    ensures
      var q := p + |RecBytes(r)|;
      if !Known(r, fields) then ReadRecords(s, p, depth, fields, st) == ReadRecords(s, q, depth, fields, st)
      else
        var k := SlotOf(fields, r.id).value;
        var x := RecTaken(r, fields[k], depth, st.members[k]);
        ReadRecords(s, p, depth, fields, st) ==
        if x.None? then Broken
        else ReadRecords(s, q, depth, fields, State(st.members[k := x.value], st.seen + {k}))
    decreases r, 0
  {
    hide SchemaOk, Legal, Body, At, Key, Taken, Takes, Suits, ReadRecords, SlotOf, Varint, SkipValue, ReadField;
    var key := Key(r.id, Code(r.w));
    AtSlice(s, p, RecBytes(r));
    AtConcat(s, p, key, Body(r.w));
    KeyBack(s, p, r.id, Code(r.w));
    FieldsOk(fields);
    Turn(s, p, depth, fields, st, r.id, Code(r.w), p + |key|);
    var k := SlotOf(fields, r.id);
    if Known(r, fields) {
      FieldWire(s, p + |key|, depth, r.w, fields[k.value], st.members[k.value]);
    } else {
      SkipWire(s, p + |key|, r.w);
      if k.Some? {
        NotTaken(s, p + |key|, Code(r.w), depth, fields[k.value], st.members[k.value]);
        assert st.members[k.value := st.members[k.value]] == st.members;
      }
    }
  }

  lemma {:induction false} FieldsOk(fields: seq<Field>)
    requires SchemaOk(Message(fields))
    ensures forall k :: 0 <= k < |fields| ==> SchemaOk(fields[k].ty) && fields[k].id <= 32767
  {
  }

  lemma {:induction false} Turn(s: seq<byte>, p: nat, depth: nat, fields: seq<Field>, st: State, id: nat, wt: nat, q: nat)
    requires p < |s| && |st.members| == |fields| && 1 <= id <= MAX_FIELD_NUMBER && wt < 8
    requires Varint(s, p) == Ok(8 * id + wt, q)
    requires forall k :: 0 <= k < |fields| ==> fields[k].id <= 32767
    ensures q <= |s|
    ensures
      var slot := SlotOf(fields, id);
      ReadRecords(s, p, depth, fields, st) ==
      if slot.None? then
        var k := SkipValue(s, q, wt);
        if k.Fail? then Broken else ReadRecords(s, k.next, depth, fields, st)
      else
        var i := slot.value;
        var r := ReadField(s, q, wt, depth, fields[i], st.members[i]);
        if r.Bad? then Broken
        else
          ReadRecords(s, r.next, depth, fields, State(st.members[i := r.slot], if r.matched then st.seen + {i} else st.seen))
  {
    hide SlotOf, Varint, SkipValue, ReadField;
    assert (8 * id + wt) / 8 == id && (8 * id + wt) % 8 == wt;
  }

  /** Every message of the format under every model its bodies suit: what is decoded is its meaning, and it is refused
      exactly when it has none. */
  lemma {:induction false} DecodeWire(recs: seq<Rec>, fields: seq<Field>, members: seq<Slot>)
    requires SchemaOk(Message(fields)) && LegalAll(recs) && SuitAll(recs, fields) && |members| == |fields|
    requires |RecsBytes(recs)| <= SIZE_MAX
    ensures Decode(RecsBytes(recs), fields, members) == Fold(recs, fields, 0, members, {})
  {
    hide SchemaOk, LegalAll, SuitAll, RecsBytes, ReadRecords, Fold;
    AtSelf(RecsBytes(recs));
    RecordsWire(RecsBytes(recs), 0, 0, recs, fields, State(members, {}));
  }
}
