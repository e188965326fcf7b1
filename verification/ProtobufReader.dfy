/** The record loop with its shortcut for runs of unpacked scalars: include/nanom/protobuf.hpp:293-331,
    413-450. */
module ProtobufReader {
  import opened Bytes
  import opened Tagged
  import opened Protobuf
  import opened ProtobufMerge

  /** The next record repeats the key bytes at s[tag..tag + n]: it is one more scalar of the same field. */
  lemma {:induction false} SameRecord(s: seq<byte>, tag: nat, n: nat, p: nat, depth: nat, fields: seq<Field>, i: nat,
                                      st: State)
    requires tag + n <= p && p + n <= |s| && |st.members| == |fields| && i < |fields|
    requires s[p..p + n] == s[tag..tag + n]
    requires Varint(s, tag).Ok? && Varint(s, tag).next == tag + n
    requires 0 < Varint(s, tag).v / 8 <= 32767 && SlotOf(fields, Varint(s, tag).v / 8) == Some(i)
    requires fields[i].ty.Num? && fields[i].shape.Repeated? && Varint(s, tag).v % 8 == WireOf(fields[i].ty)
    ensures
      var r := ReadScalar(s, p + n, fields[i].ty.k);
      ReadRecords(s, p, depth, fields, st) ==
      if r.Fail? then Broken
      else ReadRecords(s, r.next, depth, fields,
                       State(st.members[i := Many(ElemsIn(st.members[i]) + [r.v])], st.seen + {i}))
  {
    hide Varint, ReadScalar, SlotOf, SkipValue, ReadLen, Chunk, ReadPacked;
    VarintMoved(s, tag, s, p, n);
  }

  /** The run after a first element: records that repeat its key, read without going back to the dispatch. */
  method ReadRun(s: seq<byte>, tag: nat, n: nat, p: nat, k: Scalar, first: seq<Value>, ghost depth: nat,
                 ghost fields: seq<Field>, ghost i: nat, ghost st: State)
    returns (ok: bool, vs: seq<Value>, next: nat)
    requires tag + n <= p <= |s| && |st.members| == |fields| && i < |fields| && n >= 1
    requires Varint(s, tag).Ok? && Varint(s, tag).next == tag + n
    requires 0 < Varint(s, tag).v / 8 <= 32767 && SlotOf(fields, Varint(s, tag).v / 8) == Some(i)
    requires fields[i].ty == Num(k) && fields[i].shape.Repeated? && Varint(s, tag).v % 8 == WireOf(fields[i].ty)
    requires st.members[i] == Many(first) && i in st.seen
    ensures ok ==> p <= next <= |s|
    ensures
      var goal := ReadRecords(s, p, depth, fields, st);
      if ok then goal == ReadRecords(s, next, depth, fields, st.(members := st.members[i := Many(vs)])) else goal == Broken
  {
    hide Varint, ReadScalar, SlotOf, ReadRecords, WireOf;
    vs, next := first, p;
    assert st.members[i := Many(vs)] == st.members;
    ghost var goal := ReadRecords(s, p, depth, fields, st);
    while |s| - next > n && s[next..next + n] == s[tag..tag + n]
      invariant p <= next <= |s|
      invariant goal == ReadRecords(s, next, depth, fields, st.(members := st.members[i := Many(vs)]))
      decreases |s| - next
    {
      ghost var now := st.(members := st.members[i := Many(vs)]);
      SameRecord(s, tag, n, next, depth, fields, i, now);
      var x := ReadScalar(s, next + n, k);
      if x.Fail? {
        return false, vs, next;
      }
      vs := vs + [x.v];
      next := x.next;
      assert now.members[i := Many(vs)] == st.members[i := Many(vs)] && now.seen + {i} == st.seen;
    }
    ok := true;
  }

  /** The elements of a packed field, to the end of its bytes (protobuf.hpp:332-354). */
  method ReadPackedRun(body: seq<byte>, k: Scalar, first: seq<Value>) returns (r: Option<seq<Value>>)
    ensures r == ReadPacked(body, 0, k, first)
  {
    hide ReadScalar;
    var p: nat, vs := 0, first;
    while p < |body|
      invariant p <= |body| && ReadPacked(body, p, k, vs) == ReadPacked(body, 0, k, first)
      decreases |body| - p
    {
      var x := ReadScalar(body, p, k);
      if x.Fail? || x.next == p {
        return None;
      }
      p, vs := x.next, vs + [x.v];
    }
    return Some(vs);
  }

  /** read_len: nested messages go through the loop below, shortcut included. */
  method ReadBody(body: seq<byte>, depth: nat, ty: Type, cur: Value) returns (r: Option<Value>)
    ensures r == ReadLen(body, depth, ty, cur)
    decreases |body|, 2
  {
    hide ReadMessage, EmptyOk;
    match ty
    case Text => return Some(VText(body));
    case Empty => return if EmptyOk(body, 0) then Some(VEmpty) else None;
    case Message(fields) =>
      if depth >= MAX_DEPTH {
        return None;
      }
      var base := if cur.VMsg? && |cur.members| == |fields| then cur.members else DefaultSlots(fields);
      r := ReadMessageFast(body, depth + 1, fields, base);
    case Num(_) => return None;
  }

  /** read_field for one record. */
  method ReadOne(s: seq<byte>, p: nat, wt: nat, depth: nat, f: Field, slot: Slot) returns (r: Fielded)
    requires p <= |s|
    ensures r == ReadField(s, p, wt, depth, f, slot)
    decreases |s|, 0
  {
    hide ReadScalar, ReadLen, ReadPacked, SkipValue, WireOf, Chunk;
    if wt == WireOf(f.ty) {
      if f.ty.Num? {
        var x := ReadScalar(s, p, f.ty.k);
        return if x.Fail? then Bad else Got(Put(slot, f, x.v), true, x.next);
      }
      var c := Chunk(s, p);
      if c.Fail? {
        return Bad;
      }
      var v := ReadBody(c.v, depth, f.ty, if f.shape.Repeated? then Default(f.ty) else ValueIn(slot, f.ty));
      return if v.None? then Bad else Got(Put(slot, f, v.value), true, c.next);
    }
    if f.shape.Repeated? && f.ty.Num? && wt == 2 {
      var c := Chunk(s, p);
      if c.Fail? || (f.ty.k.Fixed? && f.ty.k.bytes > 0 && |c.v| % f.ty.k.bytes != 0) {
        return Bad;
      }
      var vs := ReadPackedRun(c.v, f.ty.k, ElemsIn(slot));
      return if vs.None? then Bad else Got(Many(vs.value), true, c.next);
    }
    return Unmatched(SkipValue(s, p, wt), slot);
  }

  /** read_message: the shortcut, at every level of nesting, gives exactly what dispatching every record gives. */
  method ReadMessageFast(s: seq<byte>, depth: nat, fields: seq<Field>, members: seq<Slot>) returns (r: Option<Value>)
    requires |members| == |fields|
    ensures r == ReadMessage(s, depth, fields, members)
    decreases |s|, 1
  {
    hide Varint, ReadScalar, SlotOf, SkipValue, AllSeen, ReadField, WireOf;
    var p, st := 0, State(members, {});
    ghost var goal := ReadRecords(s, 0, depth, fields, st);
    while p < |s|
      invariant 0 <= p <= |s| && |st.members| == |fields|
      invariant goal == ReadRecords(s, p, depth, fields, st)
      decreases |s| - p
    {
      var key := Varint(s, p);
      if key.Fail? {
        return None;
      }
      var id, wt := key.v / 8, key.v % 8;
      if id == 0 || id > MAX_FIELD_NUMBER {
        return None;
      }
      var slot := if id > 32767 then None else SlotOf(fields, id);
      if slot.None? {
        var q := SkipValue(s, key.next, wt);
        if q.Fail? {
          return None;
        }
        p := q.next;
      } else {
        var i := slot.value;
        var f := fields[i];
        if f.shape.Repeated? && f.ty.Num? && wt == WireOf(f.ty) {
          ScalarField(s, key.next, wt, depth, f, st.members[i]);
          var x := ReadScalar(s, key.next, f.ty.k);
          if x.Fail? {
            return None;
          }
          var first := ElemsIn(st.members[i]) + [x.v];
          st := State(st.members[i := Many(first)], st.seen + {i});
          var ok, vs, next := ReadRun(s, p, key.next - p, x.next, f.ty.k, first, depth, fields, i, st);
          if !ok {
            return None;
          }
          st := st.(members := st.members[i := Many(vs)]);
          p := next;
        } else {
          var x := ReadOne(s, key.next, wt, depth, f, st.members[i]);
          if x.Bad? {
            return None;
          }
          st := State(st.members[i := x.slot], if x.matched then st.seen + {i} else st.seen);
          p := x.next;
        }
      }
    }
    return if AllSeen(fields, st.seen) then Some(VMsg(st.members)) else None;
  }

  lemma {:induction false} ScalarField(s: seq<byte>, p: nat, wt: nat, depth: nat, f: Field, slot: Slot)
    requires p <= |s| && f.shape.Repeated? && f.ty.Num? && wt == WireOf(f.ty)
    ensures
      var x := ReadScalar(s, p, f.ty.k);
      ReadField(s, p, wt, depth, f, slot) ==
      if x.Fail? then Bad else Got(Many(ElemsIn(slot) + [x.v]), true, x.next)
  {
    hide ReadScalar;
  }
}
