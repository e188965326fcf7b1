/** A message written under one model and read under another: fields the reader does not declare, or declares with
    another wire type, are stepped over (include/nanom/protobuf.hpp:177-197, 293-441). */
module ProtobufEvolution {
  import opened Bytes
  import opened Leb128
  import opened Tagged
  import opened Protobuf
  import opened ProtobufEncode

  /** The wire type of the records a field is written in: repeated scalars are packed. */
  function WrittenAs(f: Field): (wt: nat)
    ensures wt < 8
  {
    if f.shape.Repeated? && f.ty.Num? then 2 else WireOf(f.ty)
  }

  /** The field reads records of this wire type. */
  predicate Takes(f: Field, wt: nat) {
    wt == WireOf(f.ty) || (f.shape.Repeated? && f.ty.Num? && wt == 2)
  }

  /** Records of this field number and wire type mean nothing to the model. */
  ghost predicate Foreign(fields: seq<Field>, id: nat, wt: nat) {
    forall k :: 0 <= k < |fields| && fields[k].id == id ==> !Takes(fields[k], wt)
  }

  // ------------------------------------------------------------------
  // Skipping
  // ------------------------------------------------------------------

  /** Every value the encoder writes is skipped exactly, under its type's wire type. */
  lemma {:induction false} SkipWritten(s: seq<byte>, p: nat, v: Value, ty: Type)
    requires SchemaOk(ty) && Typed(v, ty) && |s| <= SIZE_MAX && At(s, p, EncVal(v, ty))
    ensures p <= |s| && SkipValue(s, p, WireOf(ty)) == Ok((), p + |EncVal(v, ty)|)
  {
    hide Chunk, EncMsg, Prefixed, Varint, Uleb128, VarintValue, LeBytes, TypedSlot, Pow2;
    AtSlice(s, p, EncVal(v, ty));
    match ty
    case Num(k) =>
      if !k.Fixed? {
        VarintBack(s, p, VarintValue(v.n, k));
      }
    case Text => ChunkBack(s, p, v.bytes);
    case Empty => ChunkBack(s, p, []);
    case Message(fields) => ChunkBack(s, p, EncMsg(v.members, fields, 0));
  }

  /** One foreign record: the loop goes on after it as if it were not there. */
  lemma {:induction false} ForeignStep(s: seq<byte>, p: nat, depth: nat, fields: seq<Field>, st: State, id: nat, wt: nat)
    requires |st.members| == |fields| && 1 <= id <= 32767 && wt < 8 && Foreign(fields, id, wt) && At(s, p, Key(id, wt))
    ensures
      var q := p + |Key(id, wt)|;
      && q <= |s|
      && (SkipValue(s, q, wt).Ok? ==>
          ReadRecords(s, p, depth, fields, st) == ReadRecords(s, SkipValue(s, q, wt).next, depth, fields, st))
  {
    hide Varint, ReadField, SlotOf, Key, At, SkipValue, Takes;
    AtSlice(s, p, Key(id, wt));
    KeyBack(s, p, id, wt);
    var slot, q := SlotOf(fields, id), p + |Key(id, wt)|;
    if slot.Some? {
      NotTaken(s, q, wt, depth, fields[slot.value], st.members[slot.value]);
      assert st.members[slot.value := st.members[slot.value]] == st.members;
    }
  }

  lemma {:induction false} NotTaken(s: seq<byte>, p: nat, wt: nat, depth: nat, f: Field, slot: Slot)
    requires p <= |s| && !Takes(f, wt)
    ensures ReadField(s, p, wt, depth, f, slot) == Unmatched(SkipValue(s, p, wt), slot)
  {
    hide SkipValue;
  }

  lemma {:induction false} RecordIgnored(s: seq<byte>, p: nat, depth: nat, fields: seq<Field>, st: State, v: Value,
                                         f: Field)
    requires |st.members| == |fields| && |s| <= SIZE_MAX && 1 <= f.id <= 32767 && Foreign(fields, f.id, WireOf(f.ty))
    requires SchemaOk(f.ty) && Typed(v, f.ty) && At(s, p, EncRecord(v, f))
    ensures p + |EncRecord(v, f)| <= |s|
    ensures ReadRecords(s, p, depth, fields, st) == ReadRecords(s, p + |EncRecord(v, f)|, depth, fields, st)
  {
    hide SchemaOk, Typed, ReadRecords, At, EncVal, Key, SkipValue, Foreign, WireOf;
    AtSlice(s, p, EncRecord(v, f));
    AtConcat(s, p, Key(f.id, WireOf(f.ty)), EncVal(v, f.ty));
    SkipWritten(s, p + |Key(f.id, WireOf(f.ty))|, v, f.ty);
    ForeignStep(s, p, depth, fields, st, f.id, WireOf(f.ty));
  }

  lemma {:induction false} ManyIgnored(s: seq<byte>, p: nat, depth: nat, fields: seq<Field>, st: State, vs: seq<Value>,
                                       f: Field)
    requires |st.members| == |fields| && |s| <= SIZE_MAX && 1 <= f.id <= 32767 && Foreign(fields, f.id, WireOf(f.ty))
    requires SchemaOk(f.ty) && (forall i :: 0 <= i < |vs| ==> Typed(vs[i], f.ty)) && At(s, p, EncMany(vs, f))
    ensures p + |EncMany(vs, f)| <= |s|
    ensures ReadRecords(s, p, depth, fields, st) == ReadRecords(s, p + |EncMany(vs, f)|, depth, fields, st)
    decreases |vs|
  {
    hide SchemaOk, Typed, ReadRecords, At, EncRecord, Foreign, WireOf;
    AtSlice(s, p, EncMany(vs, f));
    if |vs| > 0 {
      AtConcat(s, p, EncRecord(vs[0], f), EncMany(vs[1..], f));
      RecordIgnored(s, p, depth, fields, st, vs[0], f);
      ManyIgnored(s, p + |EncRecord(vs[0], f)|, depth, fields, st, vs[1..], f);
    }
  }

  lemma {:induction false} SlotIgnored(s: seq<byte>, p: nat, depth: nat, fields: seq<Field>, st: State, slot: Slot,
                                       f: Field)
    requires |st.members| == |fields| && |s| <= SIZE_MAX && 1 <= f.id <= 32767 && Foreign(fields, f.id, WrittenAs(f))
    requires SchemaOk(f.ty) && TypedSlot(slot, f) && At(s, p, EncSlot(slot, f))
    ensures p + |EncSlot(slot, f)| <= |s|
    ensures ReadRecords(s, p, depth, fields, st) == ReadRecords(s, p + |EncSlot(slot, f)|, depth, fields, st)
  {
    hide Typed, ReadRecords, At, EncRecord, EncMany, EncPacked, Prefixed, Key, Foreign, WireOf, SkipValue;
    AtSlice(s, p, EncSlot(slot, f));
    if !Present(slot, f) {
      AbsentSlot(slot, f, depth);
    } else if !f.shape.Repeated? {
      RecordIgnored(s, p, depth, fields, st, ValueIn(slot, f.ty), f);
    } else if !f.ty.Num? {
      ManyIgnored(s, p, depth, fields, st, slot.vs, f);
    } else {
      var body := EncPacked(slot.vs, f.ty.k);
      AtConcat(s, p, Key(f.id, 2), Prefixed(body));
      PrefixedSkips(s, p + |Key(f.id, 2)|, body);
      ForeignStep(s, p, depth, fields, st, f.id, 2);
    }
  }

  lemma {:induction false} PrefixedSkips(s: seq<byte>, p: nat, body: seq<byte>)
    requires |s| <= SIZE_MAX && At(s, p, Prefixed(body))
    ensures p <= |s| && SkipValue(s, p, 2) == Ok((), p + |Prefixed(body)|)
  {
    hide Chunk, Prefixed;
    AtSlice(s, p, Prefixed(body));
    ChunkBack(s, p, body);
  }

  // ------------------------------------------------------------------
  // The reader's view
  // ------------------------------------------------------------------

  /** Where the two models meet on a field number, they declare it alike, or the reader takes none of its records. */
  ghost predicate Agree(theirs: seq<Field>, mine: seq<Field>) {
    forall j, k :: 0 <= j < |theirs| && 0 <= k < |mine| && theirs[j].id == mine[k].id ==>
      theirs[j] == mine[k] || !Takes(mine[k], WrittenAs(theirs[j]))
  }

  /** The writer's field that is this one. */
  ghost function Source(theirs: seq<Field>, f: Field): (r: Option<nat>)
    ensures r.Some? ==> r.value < |theirs| && theirs[r.value] == f
  {
    var j := SlotOf(theirs, f.id);
    if j.Some? && theirs[j.value] == f then j else None
  }

  /** The reader's members once the writer's before number i are read. */
  ghost function Midway(ms: seq<Slot>, theirs: seq<Field>, mine: seq<Field>, i: nat): (r: seq<Slot>)
    requires |ms| == |theirs|
    ensures |r| == |mine|
  {
    seq(|mine|, k requires 0 <= k < |mine| =>
      var j := Source(theirs, mine[k]);
      if j.Some? && j.value < i then ms[j.value] else DefaultSlot(mine[k]))
  }

  ghost function Met(ms: seq<Slot>, theirs: seq<Field>, mine: seq<Field>, i: nat): set<nat>
    requires |ms| == |theirs|
  {
    set k: nat |
      && k < |mine| && Source(theirs, mine[k]).Some? && Source(theirs, mine[k]).value < i
      && Present(ms[Source(theirs, mine[k]).value], mine[k])
  }

  ghost function Reading(ms: seq<Slot>, theirs: seq<Field>, mine: seq<Field>, i: nat): (st: State)
    requires |ms| == |theirs|
    ensures |st.members| == |mine|
  {
    State(Midway(ms, theirs, mine, i), Met(ms, theirs, mine, i))
  }

  /** The members the reader keeps, from the writer's number i on, nest within the limit. */
  ghost predicate KeptShallow(ms: seq<Slot>, theirs: seq<Field>, mine: seq<Field>, i: nat, depth: nat)
    requires |ms| == |theirs|
  {
    forall k :: 0 <= k < |mine| && Source(theirs, mine[k]).Some? && Source(theirs, mine[k]).value >= i ==>
      DepthOkSlot(ms[Source(theirs, mine[k]).value], depth)
  }

  /** The writer's members from number i on, read under the reader's model. */
  lemma {:induction false} RecordsUnder(s: seq<byte>, p: nat, depth: nat, ms: seq<Slot>, theirs: seq<Field>,
                                        mine: seq<Field>, i: nat)
    requires |ms| == |theirs| && i <= |theirs| && SchemaOk(Message(theirs)) && Typed(VMsg(ms), Message(theirs))
    requires SchemaOk(Message(mine)) && Agree(theirs, mine)
    requires At(s, p, EncMsg(ms, theirs, i)) && p + |EncMsg(ms, theirs, i)| == |s| <= SIZE_MAX
    ensures ReadRecords(s, p, depth, mine, Reading(ms, theirs, mine, i)) ==
            if KeptShallow(ms, theirs, mine, i, depth) then Whole(Reading(ms, theirs, mine, |theirs|)) else Broken
    decreases |theirs| - i
  {
    hide SchemaOk, Typed, TypedSlot, EncSlot, ReadRecords, DepthOkSlot, At, Agree, KeptShallow, Midway, Met, Source,
         DefaultSlot, SlotOf, Present, Foreign;
    if i == |theirs| {
      MessageEnds(s, p, depth, mine, Reading(ms, theirs, mine, i));
      KeptEnd(ms, theirs, mine, depth);
    } else {
      MemberFacts(theirs, ms, i);
      var f := theirs[i];
      AtConcat(s, p, EncSlot(ms[i], f), EncMsg(ms, theirs, i + 1));
      var k := SlotOf(mine, f.id);
      if k.Some? && mine[k.value] == f {
        SourceStep(ms, theirs, mine, i, k.value, depth);
        SlotBack(s, p, depth, mine, k.value, ms[i], Reading(ms, theirs, mine, i));
        if DepthOkSlot(ms[i], depth) {
          RecordsUnder(s, p + |EncSlot(ms[i], f)|, depth, ms, theirs, mine, i + 1);
        }
      } else {
        ForeignHere(theirs, mine, i);
        NoSource(ms, theirs, mine, i, depth);
        SlotIgnored(s, p, depth, mine, Reading(ms, theirs, mine, i), ms[i], f);
        RecordsUnder(s, p + |EncSlot(ms[i], f)|, depth, ms, theirs, mine, i + 1);
      }
    }
  }

  lemma {:induction false} KeptEnd(ms: seq<Slot>, theirs: seq<Field>, mine: seq<Field>, depth: nat)
    requires |ms| == |theirs|
    ensures KeptShallow(ms, theirs, mine, |theirs|, depth)
  {
  }

  lemma {:induction false} OneId(fields: seq<Field>, a: nat, b: nat)
    requires a < |fields| && b < |fields| && SchemaOk(Message(fields)) && fields[a].id == fields[b].id
    ensures a == b
  {
  }

  lemma {:induction false} SourceStep(ms: seq<Slot>, theirs: seq<Field>, mine: seq<Field>, i: nat, k: nat, depth: nat)
    requires |ms| == |theirs| && i < |theirs| && k < |mine| && mine[k] == theirs[i]
    requires SchemaOk(Message(theirs)) && SchemaOk(Message(mine))
    ensures 1 <= mine[k].id <= 32767 && SlotOf(mine, mine[k].id) == Some(k)
    ensures Midway(ms, theirs, mine, i)[k] == DefaultSlot(mine[k])
    ensures Midway(ms, theirs, mine, i + 1) == Midway(ms, theirs, mine, i)[k := ms[i]]
    ensures Met(ms, theirs, mine, i + 1) ==
            if Present(ms[i], mine[k]) then Met(ms, theirs, mine, i) + {k} else Met(ms, theirs, mine, i)
    ensures KeptShallow(ms, theirs, mine, i, depth) <==>
            DepthOkSlot(ms[i], depth) && KeptShallow(ms, theirs, mine, i + 1, depth)
  {
    hide SchemaOk, DefaultSlot, Present, DepthOkSlot, Source;
    OwnSource(theirs, mine, i, k);
    forall n | 0 <= n < |mine| && Source(theirs, mine[n]) == Some(i) ensures n == k {
      OneId(mine, n, k);
    }
  }

  lemma {:induction false} OwnSource(theirs: seq<Field>, mine: seq<Field>, i: nat, k: nat)
    requires i < |theirs| && k < |mine| && mine[k] == theirs[i]
    requires SchemaOk(Message(theirs)) && SchemaOk(Message(mine))
    ensures 1 <= mine[k].id <= 32767 && SlotOf(mine, mine[k].id) == Some(k) && Source(theirs, mine[k]) == Some(i)
  {
    hide SlotOf;
    OneId(theirs, SlotOf(theirs, mine[k].id).value, i);
    OneId(mine, SlotOf(mine, mine[k].id).value, k);
  }

  lemma {:induction false} ForeignHere(theirs: seq<Field>, mine: seq<Field>, i: nat)
    requires i < |theirs| && Agree(theirs, mine) && SchemaOk(Message(mine))
    requires var k := SlotOf(mine, theirs[i].id); k.None? || mine[k.value] != theirs[i]
    ensures Foreign(mine, theirs[i].id, WrittenAs(theirs[i]))
  {
    hide SlotOf, Takes, SchemaOk;
    forall k | 0 <= k < |mine| && mine[k].id == theirs[i].id ensures !Takes(mine[k], WrittenAs(theirs[i])) {
      OneId(mine, SlotOf(mine, theirs[i].id).value, k);
    }
  }

  lemma {:induction false} NoSource(ms: seq<Slot>, theirs: seq<Field>, mine: seq<Field>, i: nat, depth: nat)
    requires |ms| == |theirs| && i < |theirs| && SchemaOk(Message(mine))
    requires var k := SlotOf(mine, theirs[i].id); k.None? || mine[k.value] != theirs[i]
    ensures Midway(ms, theirs, mine, i + 1) == Midway(ms, theirs, mine, i)
    ensures Met(ms, theirs, mine, i + 1) == Met(ms, theirs, mine, i)
    ensures KeptShallow(ms, theirs, mine, i, depth) <==> KeptShallow(ms, theirs, mine, i + 1, depth)
  {
    hide SchemaOk, DefaultSlot, Present, DepthOkSlot, Source, SlotOf;
    forall n | 0 <= n < |mine| ensures Source(theirs, mine[n]) != Some(i) {
      if Source(theirs, mine[n]) == Some(i) {
        OneId(mine, SlotOf(mine, theirs[i].id).value, n);
      }
    }
  }

  // ------------------------------------------------------------------
  // The theorems
  // ------------------------------------------------------------------

  /** Written under one model, read under another that agrees with it: the fields they share come back as written, the
      others keep their defaults. It fails exactly when a shared member nests too deep or a required field is not
      among them. */
  lemma {:induction false} ReadUnderAnother(ms: seq<Slot>, theirs: seq<Field>, mine: seq<Field>)
    requires |ms| == |theirs| && SchemaOk(Message(theirs)) && Typed(VMsg(ms), Message(theirs))
    requires SchemaOk(Message(mine)) && Agree(theirs, mine) && |EncMsg(ms, theirs, 0)| <= SIZE_MAX
    ensures Decode(EncMsg(ms, theirs, 0), mine, DefaultSlots(mine)) ==
            if KeptShallow(ms, theirs, mine, 0, 0) && RequiredKept(theirs, mine)
            then Some(VMsg(Midway(ms, theirs, mine, |theirs|)))
            else None
  {
    hide SchemaOk, Typed, EncMsg, ReadRecords, Agree, KeptShallow;
    var s := EncMsg(ms, theirs, 0);
    AtSelf(s);
    assert Midway(ms, theirs, mine, 0) == DefaultSlots(mine);
    assert Met(ms, theirs, mine, 0) == {};
    RecordsUnder(s, 0, 0, ms, theirs, mine, 0);
    RequiredMet(ms, theirs, mine);
  }

  ghost predicate RequiredKept(theirs: seq<Field>, mine: seq<Field>) {
    forall k :: 0 <= k < |mine| && mine[k].shape.Required? ==> mine[k] in theirs
  }

  lemma {:induction false} RequiredMet(ms: seq<Slot>, theirs: seq<Field>, mine: seq<Field>)
    requires |ms| == |theirs| && SchemaOk(Message(theirs)) && SchemaOk(Message(mine))
    ensures AllSeen(mine, Met(ms, theirs, mine, |theirs|)) <==> RequiredKept(theirs, mine)
  {
    hide SchemaOk, Source, SlotOf;
    forall k | 0 <= k < |mine| ensures Source(theirs, mine[k]).Some? <==> mine[k] in theirs {
      if mine[k] in theirs {
        var i :| 0 <= i < |theirs| && theirs[i] == mine[k];
        OwnSource(theirs, mine, i, k);
      }
    }
  }

  /** A reader that declares only some of the writer's fields gets those members exactly when they nest within the
      limit, whatever the others hold. */
  lemma {:induction false} FewerFields(ms: seq<Slot>, fields: seq<Field>, pick: seq<nat>)
    requires |ms| == |fields| && SchemaOk(Message(fields)) && Typed(VMsg(ms), Message(fields))
    requires Ascending(pick, |fields|) && |EncMsg(ms, fields, 0)| <= SIZE_MAX
    ensures Decode(EncMsg(ms, fields, 0), Picked(fields, pick), DefaultSlots(Picked(fields, pick))) ==
            Back(DepthOkFrom(Picked(ms, pick), 0, 0), VMsg(Picked(ms, pick)))
  {
    hide SchemaOk, Typed, EncMsg, Decode, Source, DefaultSlot, DepthOkSlot, Agree;
    var mine := Picked(fields, pick);
    PickedOk(fields, pick);
    forall k | 0 <= k < |mine| ensures Source(fields, mine[k]) == Some(pick[k]) {
      OwnSource(fields, mine, pick[k], k);
    }
    ReadUnderAnother(ms, fields, mine);
    assert Midway(ms, fields, mine, |fields|) == Picked(ms, pick);
    assert KeptShallow(ms, fields, mine, 0, 0) <==> DepthOkFrom(Picked(ms, pick), 0, 0);
  }

  lemma {:induction false} PickedOk(fields: seq<Field>, pick: seq<nat>)
    requires SchemaOk(Message(fields)) && Ascending(pick, |fields|)
    ensures SchemaOk(Message(Picked(fields, pick))) && Agree(fields, Picked(fields, pick))
    ensures RequiredKept(fields, Picked(fields, pick))
  {
    hide Takes, WrittenAs;
  }
}
