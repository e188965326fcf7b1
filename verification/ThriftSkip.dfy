/** Skipping and lazy views agree with eager decoding: include/nanom/tagged.hpp:504-884. */
module ThriftSkip {
  import opened Bytes
  import opened Leb128
  import opened Tagged
  import opened Thrift

  // ------------------------------------------------------------------
  // A structural skip ends where decoding ends
  // ------------------------------------------------------------------

  lemma {:induction false} SkipAnywhere(s: seq<byte>, p: nat, t: nat, depth: nat)
    requires p <= |s| && !BoolType(t)
    ensures Skip(s, p, t, false, depth) == Skip(s, p, t, true, depth)
  {
  }

  lemma {:induction false} SkipsValue(s: seq<byte>, p: nat, depth: nat, ty: Type, cur: Value, t: nat)
    requires p <= |s| && WireOk(TypeOf(ty), t) && ReadValue(s, p, depth, ty, cur).Ok?
    ensures Skip(s, p, t, true, depth) == Ok((), ReadValue(s, p, depth, ty, cur).next)
    decreases |s| - p, 1, 0
  {
    hide SkipElems, SkipStruct, ReadElems, ReadFields, ListHeader, DefaultMembers, LeNat, Zigzag, SkipVarint, Blob,
         SkipPairs, Varint32;
    match ty
    case Bool =>
    case I8 =>
    case I16 => ZigzagSkips(s, p, 16);
    case I32 => ZigzagSkips(s, p, 32);
    case I64 => ZigzagSkips(s, p, 64);
    case Dbl =>
    case Binary =>
    case Empty => assert SkipStruct(s, p, depth + 1).v == ();
    case List(elem) =>
      var h := ListHeader(s, p);
      SkipsElems(s, h.next, depth, elem, h.v.count, [], h.v.elem);
    case Struct(fields) =>
      var base := if cur.VStruct? && |cur.members| == |fields| then cur.members else DefaultMembers(fields);
      SkipsFields(s, p, depth + 1, fields, base, 0, {});
  }

  lemma {:induction false} ZigzagSkips(s: seq<byte>, p: nat, w: nat)
    requires w >= 1 && Zigzag(s, p, w).Ok?
    ensures SkipVarint(s, p) == Ok((), Zigzag(s, p, w).next)
  {
    hide Pow2, ZigzagDecode, Varint;
  }

  lemma {:induction false} SkipsElems(s: seq<byte>, p: nat, depth: nat, elem: Type, count: nat, acc: seq<Value>, t: nat)
    requires p <= |s| && (count > 0 ==> WireOk(TypeOf(elem), t))
    requires ReadElems(s, p, depth + 1, elem, count, acc).Ok?
    ensures SkipElems(s, p, t, count, depth) == Ok((), ReadElems(s, p, depth + 1, elem, count, acc).next)
    decreases |s| - p, 2, count
  {
    hide Skip, ReadValue, Default, WireOk, TypeOf;
    if count > 0 {
      var r := ReadValue(s, p, depth + 1, elem, Default(elem));
      SkipsValue(s, p, depth + 1, elem, Default(elem), t);
      SkipsElems(s, r.next, depth, elem, count - 1, acc + [r.v], t);
    }
  }

  lemma {:induction false} SkipsFields(s: seq<byte>, p: nat, depth: nat, fields: seq<Field>,
                                       members: seq<Option<Value>>, last: int, seen: set<nat>)
    requires p <= |s| && |members| == |fields| && depth <= MAX_DEPTH
    requires ReadFields(s, p, depth, fields, members, last, seen).Ok?
    ensures SkipStruct(s, p, depth) == Ok((), ReadFields(s, p, depth, fields, members, last, seen).next)
    decreases |s| - p, 0, 0
  {
    hide Skip, ReadValue, Default, Varint, ZigzagDecode, Pow2, AllSeen;
    if s[p] != 0 {
      var t, id := s[p] % 16, FieldId(s, p + 1, s[p] / 16, last);
      var q := id.next;
      var slot := SlotOf(fields, id.v);
      if slot.None? || !WireOk(TypeOf(fields[slot.value].ty), t) {
        SkipsFields(s, Skip(s, q, t, false, depth).next, depth, fields, members, id.v, seen);
      } else {
        var i := slot.value;
        if fields[i].ty.Bool? {
          SkipNothing(s, q, t, depth);
          SkipsFields(s, q, depth, fields, members[i := Some(VBool(t == 1))], id.v, seen + {i});
        } else {
          var cur := if members[i].Some? then members[i].value else Default(fields[i].ty);
          var r := ReadValue(s, q, depth, fields[i].ty, cur);
          SkipsValue(s, q, depth, fields[i].ty, cur, t);
          SkipAnywhere(s, q, t, depth);
          SkipsFields(s, r.next, depth, fields, members[i := Some(r.v)], id.v, seen + {i});
        }
      }
    }
  }

  lemma {:induction false} SkipNothing(s: seq<byte>, p: nat, t: nat, depth: nat)
    requires p <= |s| && BoolType(t)
    ensures Skip(s, p, t, false, depth) == Ok((), p)
  {
  }

  /** thrift_compact_skip ends at the byte where thrift_compact<M> does, whatever M. */
  lemma {:induction false} SkipEndsWithDecode(s: seq<byte>, fields: seq<Field>)
    requires Decode(s, fields).Ok?
    ensures SkipStruct(s, 0, 0) == Ok((), Decode(s, fields).next)
  {
    SkipsFields(s, 0, 0, fields, DefaultMembers(fields), 0, {});
  }
}
