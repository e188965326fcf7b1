/** Decoding a concatenation, and the unpacked-run shortcut: include/nanom/protobuf.hpp:293-354, 413-450. */
module ProtobufMerge {
  import opened Bytes
  import opened Leb128
  import opened Protobuf

  // ------------------------------------------------------------------
  // Bytes after a successful read do not matter
  // ------------------------------------------------------------------

  lemma {:induction false} VarintMoved(s: seq<byte>, p: nat, t: seq<byte>, q: nat, n: nat)
    requires Varint(s, p).Ok? && Varint(s, p).next == p + n <= |s| && q + n <= |t| && s[p..p + n] == t[q..q + n]
    ensures Varint(t, q) == Ok(Varint(s, p).v, q + n)
  {
    hide Pow2, ReadFrom;
    ReadMoved(s, p, t, q, MaxBytes(64), 64, n);
  }

  lemma {:induction false} VarintGrows(a: seq<byte>, b: seq<byte>, p: nat)
    requires Varint(a, p).Ok?
    ensures Varint(a + b, p) == Varint(a, p)
  {
    hide Varint;
    var q := Varint(a, p).next;
    assert (a + b)[p..q] == a[p..q];
    VarintMoved(a, p, a + b, p, q - p);
  }

  lemma {:induction false} ScalarGrows(a: seq<byte>, b: seq<byte>, p: nat, k: Scalar)
    requires p <= |a| && ReadScalar(a, p, k).Ok?
    ensures ReadScalar(a + b, p, k) == ReadScalar(a, p, k)
  {
    hide Varint, LeNat, OfVarint;
    if k.Fixed? {
      assert (a + b)[p..p + k.bytes] == a[p..p + k.bytes];
    } else {
      VarintGrows(a, b, p);
    }
  }

  lemma {:induction false} ChunkGrows(a: seq<byte>, b: seq<byte>, p: nat)
    requires Chunk(a, p).Ok?
    ensures Chunk(a + b, p) == Chunk(a, p)
  {
    hide Varint;
    VarintGrows(a, b, p);
    var n := Varint(a, p);
    assert (a + b)[n.next..n.next + n.v] == a[n.next..n.next + n.v];
  }

  lemma {:induction false} SkipGrows(a: seq<byte>, b: seq<byte>, p: nat, wt: nat)
    requires p <= |a| && SkipValue(a, p, wt).Ok?
    ensures SkipValue(a + b, p, wt) == SkipValue(a, p, wt)
  {
    hide Varint, Chunk;
    if wt == 0 {
      VarintGrows(a, b, p);
    } else if wt == 2 {
      ChunkGrows(a, b, p);
    }
  }

  lemma {:induction false} FieldGrows(a: seq<byte>, b: seq<byte>, p: nat, wt: nat, depth: nat, f: Field, slot: Slot)
    requires p <= |a| && ReadField(a, p, wt, depth, f, slot).Got?
    ensures ReadField(a + b, p, wt, depth, f, slot) == ReadField(a, p, wt, depth, f, slot)
  {
    hide Varint, Chunk, ReadScalar, SkipValue, ReadLen, ReadPacked, Default, Put;
    if wt == WireOf(f.ty) {
      if f.ty.Num? {
        ScalarGrows(a, b, p, f.ty.k);
      } else {
        ChunkGrows(a, b, p);
      }
    } else if f.shape.Repeated? && f.ty.Num? && wt == 2 {
      ChunkGrows(a, b, p);
    } else {
      SkipGrows(a, b, p, wt);
    }
  }

  // ------------------------------------------------------------------
  // Bytes in front only shift what follows
  // ------------------------------------------------------------------

  function Shift<T>(r: Result<T>, n: nat): Result<T> {
    if r.Fail? then Fail else Ok(r.v, n + r.next)
  }

  lemma {:induction false} VarintShifts(a: seq<byte>, b: seq<byte>, p: nat)
    ensures Varint(a + b, |a| + p) == Shift(Varint(b, p), |a|)
  {
    hide ReadFrom, Pow2;
    ReadShifted(a, b, p, MaxBytes(64), 64);
  }

  lemma {:induction false} ScalarShifts(a: seq<byte>, b: seq<byte>, p: nat, k: Scalar)
    requires p <= |b|
    ensures ReadScalar(a + b, |a| + p, k) == Shift(ReadScalar(b, p, k), |a|)
  {
    hide Varint, LeNat, OfVarint;
    if k.Fixed? {
      if |b| - p >= k.bytes {
        assert (a + b)[|a| + p..|a| + p + k.bytes] == b[p..p + k.bytes];
      }
    } else {
      VarintShifts(a, b, p);
    }
  }

  lemma {:induction false} ChunkShifts(a: seq<byte>, b: seq<byte>, p: nat)
    ensures Chunk(a + b, |a| + p) == Shift(Chunk(b, p), |a|)
  {
    hide Varint;
    VarintShifts(a, b, p);
    var n := Varint(b, p);
    if n.Ok? && n.v <= |b| - n.next {
      assert (a + b)[|a| + n.next..|a| + n.next + n.v] == b[n.next..n.next + n.v];
    }
  }

  lemma {:induction false} SkipShifts(a: seq<byte>, b: seq<byte>, p: nat, wt: nat)
    requires p <= |b|
    ensures SkipValue(a + b, |a| + p, wt) == Shift(SkipValue(b, p, wt), |a|)
  {
    hide Varint, Chunk;
    if wt == 0 {
      VarintShifts(a, b, p);
    } else if wt == 2 {
      ChunkShifts(a, b, p);
    }
  }

  lemma {:induction false} FieldShifts(a: seq<byte>, b: seq<byte>, p: nat, wt: nat, depth: nat, f: Field, slot: Slot)
    requires p <= |b|
    ensures ReadField(a + b, |a| + p, wt, depth, f, slot) ==
            match ReadField(b, p, wt, depth, f, slot)
            case Bad => Bad
            case Got(x, matched, q) => Got(x, matched, |a| + q)
  {
    hide Varint, Chunk, ReadScalar, SkipValue, ReadLen, ReadPacked, Default, Put;
    if wt == WireOf(f.ty) {
      if f.ty.Num? {
        ScalarShifts(a, b, p, f.ty.k);
      } else {
        ChunkShifts(a, b, p);
      }
    } else if f.shape.Repeated? && f.ty.Num? && wt == 2 {
      ChunkShifts(a, b, p);
    } else {
      SkipShifts(a, b, p, wt);
    }
  }

  lemma {:induction false} RecordsShift(a: seq<byte>, b: seq<byte>, p: nat, depth: nat, fields: seq<Field>, st: State)
    requires p <= |b| && |st.members| == |fields|
    ensures ReadRecords(a + b, |a| + p, depth, fields, st) == ReadRecords(b, p, depth, fields, st)
    decreases |b| - p
  {
    hide Varint, SkipValue, ReadField, SlotOf;
    if p < |b| {
      VarintShifts(a, b, p);
      var k := Varint(b, p);
      if k.Ok? && 0 < k.v / 8 <= MAX_FIELD_NUMBER {
        var slot := if k.v / 8 > 32767 then None else SlotOf(fields, k.v / 8);
        if slot.None? {
          SkipShifts(a, b, k.next, k.v % 8);
          var q := SkipValue(b, k.next, k.v % 8);
          if q.Ok? {
            RecordsShift(a, b, q.next, depth, fields, st);
          }
        } else {
          var i := slot.value;
          FieldShifts(a, b, k.next, k.v % 8, depth, fields[i], st.members[i]);
          var r := ReadField(b, k.next, k.v % 8, depth, fields[i], st.members[i]);
          if r.Got? {
            RecordsShift(a, b, r.next, depth, fields,
                         State(st.members[i := r.slot], if r.matched then st.seen + {i} else st.seen));
          }
        }
      }
    }
  }

  /** Once the records of a are read, those of a + b go on from there. */
  lemma {:induction false} RecordsGrow(a: seq<byte>, b: seq<byte>, p: nat, depth: nat, fields: seq<Field>, st: State)
    requires p <= |a| && |st.members| == |fields| && ReadRecords(a, p, depth, fields, st).Whole?
    ensures ReadRecords(a + b, p, depth, fields, st) ==
            ReadRecords(a + b, |a|, depth, fields, ReadRecords(a, p, depth, fields, st).st)
    decreases |a| - p
  {
    hide Varint, SkipValue, ReadField, SlotOf;
    if p < |a| {
      VarintGrows(a, b, p);
      var k := Varint(a, p);
      var slot := if k.v / 8 > 32767 then None else SlotOf(fields, k.v / 8);
      if slot.None? {
        SkipGrows(a, b, k.next, k.v % 8);
        RecordsGrow(a, b, SkipValue(a, k.next, k.v % 8).next, depth, fields, st);
      } else {
        var i := slot.value;
        FieldGrows(a, b, k.next, k.v % 8, depth, fields[i], st.members[i]);
        var r := ReadField(a, k.next, k.v % 8, depth, fields[i], st.members[i]);
        RecordsGrow(a, b, r.next, depth, fields,
                    State(st.members[i := r.slot], if r.matched then st.seen + {i} else st.seen));
      }
    }
  }

  /** Protobuf's merge rule on records: those of a, then those of b over what a left. */
  lemma {:induction false} RecordsMerge(a: seq<byte>, b: seq<byte>, depth: nat, fields: seq<Field>, st: State)
    requires |st.members| == |fields| && ReadRecords(a, 0, depth, fields, st).Whole?
    ensures ReadRecords(a + b, 0, depth, fields, st) ==
            ReadRecords(b, 0, depth, fields, ReadRecords(a, 0, depth, fields, st).st)
  {
    hide ReadRecords;
    RecordsGrow(a, b, 0, depth, fields, st);
    RecordsShift(a, b, 0, depth, fields, ReadRecords(a, 0, depth, fields, st).st);
  }

  /** The fields met only ever feed the required check. */
  lemma {:induction false} SeenIsExtra(s: seq<byte>, p: nat, depth: nat, fields: seq<Field>, st: State, seen: set<nat>)
    requires p <= |s| && |st.members| == |fields|
    ensures
      var r, r' := ReadRecords(s, p, depth, fields, st), ReadRecords(s, p, depth, fields, st.(seen := seen));
      r.Whole? == r'.Whole? && (r.Whole? ==> r.st.members == r'.st.members)
    decreases |s| - p
  {
    hide Varint, SkipValue, ReadField, SlotOf;
    if p < |s| {
      var k := Varint(s, p);
      if k.Ok? && 0 < k.v / 8 <= MAX_FIELD_NUMBER {
        var slot := if k.v / 8 > 32767 then None else SlotOf(fields, k.v / 8);
        if slot.None? {
          var q := SkipValue(s, k.next, k.v % 8);
          if q.Ok? {
            SeenIsExtra(s, q.next, depth, fields, st, seen);
          }
        } else {
          var i := slot.value;
          var r := ReadField(s, k.next, k.v % 8, depth, fields[i], st.members[i]);
          if r.Got? {
            var next := State(st.members[i := r.slot], if r.matched then st.seen + {i} else st.seen);
            SeenIsExtra(s, r.next, depth, fields, next, if r.matched then seen + {i} else seen);
          }
        }
      }
    }
  }

  ghost predicate NothingRequired(fields: seq<Field>) {
    forall i :: 0 <= i < |fields| ==> !fields[i].shape.Required?
  }

  /** For a model with no required member: decoding a ++ b into a message is decoding a and then b into the
      result. */
  lemma {:induction false} DecodeMerge(a: seq<byte>, b: seq<byte>, fields: seq<Field>, members: seq<Slot>)
    requires |members| == |fields| && NothingRequired(fields) && Decode(a, fields, members).Some?
    ensures
      var mid := Decode(a, fields, members).value;
      mid.VMsg? && |mid.members| == |fields| && Decode(a + b, fields, members) == Decode(b, fields, mid.members)
  {
    hide ReadRecords;
    var st := State(members, {});
    var mid := ReadRecords(a, 0, 0, fields, st).st;
    RecordsMerge(a, b, 0, fields, st);
    SeenIsExtra(b, 0, 0, fields, mid, {});
    assert mid.(seen := {}) == State(mid.members, {});
  }
}
