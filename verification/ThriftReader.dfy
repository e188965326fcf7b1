/** The loops of the Thrift compact reader and skipper (include/nanom/tagged.hpp:477-804), proved against the
    readings of module Thrift. */
module ThriftReader {
  import opened Bytes
  import opened Leb128
  import opened Tagged
  import opened Thrift

  // ------------------------------------------------------------------
  // Varints
  // ------------------------------------------------------------------

  /** With ten bytes left no end check is needed inside the loop (tagged.hpp:477-508). */
  method ReadVarint(s: seq<byte>, p: nat) returns (r: Result<nat>)
    requires p <= |s|
    ensures r == Varint(s, p)
  {
    hide ReadFrom;
    if |s| - p >= 10 {
      r := VarintUnchecked(s, p);
    } else {
      r := VarintChecked(s, p);
    }
  }

  ghost function AsVarint(u: Uleb): Result<nat> {
    match u
    case Value(v, next) => Ok(v, next)
    case TooWide => Fail(BadVarint)
    case Incomplete => Fail(Truncated)
  }

  method VarintUnchecked(s: seq<byte>, p: nat) returns (r: Result<nat>)
    requires p + 10 <= |s|
    ensures r == AsVarint(ReadFrom(s, p, 10, 64))
  {
    hide Pow2, Cap, Shl, Resume, ReadFrom;
    if s[p] < 128 {
      FirstByte(s, p);
      return Ok(s[p], p + 1);
    }
    ShlNothing();
    ResumeStep(s, p, 10, 64, 0, 0);
    var v: nat, i: nat := Shl(s[p] - 128, 0), 1;
    ResumeStart(s, p);
    while i < 9 && s[p + i] >= 128
      invariant 1 <= i <= 9
      invariant Resume(s, p + i, 10 - i, 64, v, 7 * i) == ReadFrom(s, p, 10, 64)
    {
      ResumeStep(s, p + i, 10 - i, 64, v, 7 * i);
      v := v + Shl(s[p + i] - 128, 7 * i);
      i := i + 1;
    }
    ResumeEnd(s, p + i, 10 - i, v, 7 * i);
    if i == 9 && s[p + 9] > 1 {
      return Fail(BadVarint);
    }
    return Ok(v + Shl(s[p + i], 7 * i), p + i + 1);
  }

  method VarintChecked(s: seq<byte>, p: nat) returns (r: Result<nat>)
    requires p <= |s| < p + 10
    ensures r == AsVarint(ReadFrom(s, p, 10, 64))
  {
    hide Pow2, Cap, Shl, Resume, ReadFrom;
    ShlNothing();
    ResumeStart(s, p);
    var v: nat, i: nat := 0, 0;
    while p + i < |s|
      invariant p + i <= |s|
      invariant Resume(s, p + i, 10 - i, 64, v, 7 * i) == ReadFrom(s, p, 10, 64)
    {
      var b := s[p + i];
      if b < 128 {
        ResumeEnd(s, p + i, 10 - i, v, 7 * i);
        return Ok(v + Shl(b, 7 * i), p + i + 1);
      }
      ResumeStep(s, p + i, 10 - i, 64, v, 7 * i);
      v := v + Shl(b - 128, 7 * i);
      i := i + 1;
    }
    ResumeNone(s, p + i, 10 - i, v, 7 * i);
    return Fail(Truncated);
  }

  lemma {:induction false} ResumeNone(s: seq<byte>, q: nat, left: nat, v: nat, k: nat)
    requires q >= |s| && left >= 1
    ensures Resume(s, q, left, 64, v, k) == Incomplete
  {
    hide Shl;
  }

  lemma {:induction false} FirstByte(s: seq<byte>, p: nat)
    requires p < |s| && s[p] < 128
    ensures ReadFrom(s, p, 10, 64) == Value(s[p], p + 1)
  {
  }

  lemma {:induction false} ResumeEnd(s: seq<byte>, q: nat, left: nat, v: nat, k: nat)
    requires q < |s| && left >= 1 && (left > 1 ==> s[q] < 128)
    ensures Resume(s, q, left, 64, v, k) == if left == 1 && s[q] > 1 then TooWide else Value(v + Shl(s[q], k), q + 1)
  {
    hide Shl;
  }

  lemma {:induction false} ShlNothing()
    ensures Shl(0, 0) == 0
  {
  }

  lemma {:induction false} ResumeStart(s: seq<byte>, p: nat)
    ensures Resume(s, p, 10, 64, 0, 0) == ReadFrom(s, p, 10, 64)
  {
    hide ReadFrom;
  }

  /** tagged.hpp:511-522: the same bytes, nothing assembled. */
  method StepVarint(s: seq<byte>, p: nat) returns (r: Result<()>)
    requires p <= |s|
    ensures r == SkipVarint(s, p)
  {
    hide Pow2, Cap;
    var lim := if |s| - p >= 10 then p + 10 else |s|;
    var q := p;
    while q < lim
      invariant p <= q <= lim
      invariant q < p + 10 ==> EndOf(s, q, 10 - (q - p)) == EndOf(s, p, 10)
      invariant q == p + 10 ==> EndOf(s, p, 10) == Fail(BadVarint)
    {
      if s[q] < 128 {
        if q - p == 9 && s[q] > 1 {
          return Fail(BadVarint);
        }
        return Ok((), q + 1);
      }
      q := q + 1;
    }
    return if lim == |s| && |s| - p < 10 then Fail(Truncated) else Fail(BadVarint);
  }

  ghost function EndOf(s: seq<byte>, p: nat, left: nat): Result<()>
    requires left >= 1
  {
    match ReadFrom(s, p, left, 64)
    case Value(_, next) => Ok((), next)
    case TooWide => Fail(BadVarint)
    case Incomplete => Fail(Truncated)
  }

  // ------------------------------------------------------------------
  // The skipper
  // ------------------------------------------------------------------

  /** Fixed-size elements in one stride. */
  lemma {:induction false} StrideElems(s: seq<byte>, p: nat, t: nat, count: nat, depth: nat)
    requires BoolType(t) || t == 3 || t == 7
    requires p + count * MinElemBytes(t) <= |s|
    ensures SkipElems(s, p, t, count, depth) == Ok((), p + count * MinElemBytes(t))
    decreases count
  {
    if count > 0 {
      assert Skip(s, p, t, true, depth + 1) == Ok((), p + MinElemBytes(t));
      StrideElems(s, p + MinElemBytes(t), t, count - 1, depth);
    }
  }

  /** tagged.hpp:561-578: after a header whose count was checked against the bytes left. */
  method SkipElements(s: seq<byte>, p: nat, t: nat, count: nat, depth: nat) returns (r: Result<()>)
    requires p <= |s| && count * MinElemBytes(t) <= |s| - p
    ensures r == SkipElems(s, p, t, count, depth)
    decreases |s| - p, 2, 0
  {
    hide Skip, SkipStruct, SkipPairs, Varint;
    if BoolType(t) || t == 3 {
      StrideElems(s, p, t, count, depth);
      return Ok((), p + count);
    }
    if t == 7 {
      StrideElems(s, p, t, count, depth);
      return Ok((), p + count * 8);
    }
    var at := p;
    for i := 0 to count
      invariant p <= at <= |s| && at >= p + i
      invariant SkipElems(s, at, t, count - i, depth) == SkipElems(s, p, t, count, depth)
    {
      var q;
      if 4 <= t <= 6 {
        q := StepVarint(s, at);
        IntSkip(s, at, t, depth + 1);
      } else {
        q := SkipOne(s, at, t, true, depth + 1);
      }
      if q.Fail? {
        return Fail(q.f);
      }
      at := q.next;
    }
    return Ok((), at);
  }

  lemma {:induction false} IntSkip(s: seq<byte>, p: nat, t: nat, depth: nat)
    requires p <= |s| && 4 <= t <= 6
    ensures Skip(s, p, t, true, depth) == Skip(s, p, t, false, depth) == SkipVarint(s, p)
  {
  }

  method SkipEntries(s: seq<byte>, p: nat, kt: nat, vt: nat, count: nat, depth: nat) returns (r: Result<()>)
    requires p <= |s|
    ensures r == SkipPairs(s, p, kt, vt, count, depth)
    decreases |s| - p, 2, 0
  {
    hide Skip;
    var at := p;
    for i := 0 to count
      invariant p <= at <= |s|
      invariant SkipPairs(s, at, kt, vt, count - i, depth) == SkipPairs(s, p, kt, vt, count, depth)
    {
      var k := SkipOne(s, at, kt, true, depth + 1);
      if k.Fail? {
        return Fail(k.f);
      }
      var v := SkipOne(s, k.next, vt, true, depth + 1);
      if v.Fail? {
        return Fail(v.f);
      }
      at := v.next;
    }
    return Ok((), at);
  }

  /** tagged.hpp:613-662. */
  method SkipOne(s: seq<byte>, p: nat, t: nat, inContainer: bool, depth: nat) returns (r: Result<()>)
    requires p <= |s|
    ensures r == Skip(s, p, t, inContainer, depth)
    decreases |s| - p, 1, 0
  {
    hide SkipElems, SkipPairs, SkipStruct, Varint, MinElemBytes;
    if BoolType(t) && !inContainer {
      return Ok((), p);
    }
    if BoolType(t) || t == 3 {
      return if p >= |s| then Fail(Truncated) else Ok((), p + 1);
    }
    if 4 <= t <= 6 {
      r := StepVarint(s, p);
      return;
    }
    if t == 7 {
      return if |s| - p < 8 then Fail(Truncated) else Ok((), p + 8);
    }
    if t == 8 {
      var b := Blob(s, p);
      return if b.Fail? then Fail(b.f) else Ok((), b.next);
    }
    if t == 9 || t == 10 {
      if depth > MAX_DEPTH {
        return Fail(TooDeep);
      }
      var h := ListHeader(s, p);
      if h.Fail? {
        return Fail(h.f);
      }
      r := SkipElements(s, h.next, h.v.elem, h.v.count, depth);
      return;
    }
    if t == 11 {
      if depth > MAX_DEPTH {
        return Fail(TooDeep);
      }
      var n := Varint32(s, p);
      if n.Fail? {
        return Fail(n.f);
      }
      if n.v == 0 {
        return Ok((), n.next);
      }
      if n.next >= |s| {
        return Fail(Truncated);
      }
      var kt, vt := s[n.next] / 16, s[n.next] % 16;
      if n.v > (|s| - (n.next + 1)) / (MinElemBytes(kt) + MinElemBytes(vt)) {
        return Fail(BadCount);
      }
      r := SkipEntries(s, n.next + 1, kt, vt, n.v, depth);
      return;
    }
    if t == 12 {
      r := SkipMessage(s, p, depth + 1);
      return;
    }
    return Fail(BadType);
  }

  /** tagged.hpp:580-609: scalars inline, the rest by SkipOne. */
  method SkipMessage(s: seq<byte>, p: nat, depth: nat) returns (r: Result<()>)
    requires p <= |s|
    ensures r == SkipStruct(s, p, depth)
    decreases |s| - p, 0, 0
  {
    hide Skip, Varint;
    if depth > MAX_DEPTH {
      return Fail(TooDeep);
    }
    var at := p;
    while true
      invariant p <= at <= |s| && SkipStruct(s, at, depth) == SkipStruct(s, p, depth)
      decreases |s| - at
    {
      if at >= |s| {
        return Fail(Truncated);
      }
      var h, q := s[at], at + 1;
      if h == 0 {
        return Ok((), q);
      }
      if h / 16 == 0 {
        var id := StepVarint(s, q);
        if id.Fail? {
          return Fail(id.f);
        }
        q := id.next;
      }
      var t, b := h % 16, Ok((), q);
      InlineSkip(s, q, t, depth);
      if BoolType(t) {
      } else if t == 3 {
        b := if q >= |s| then Fail(Truncated) else Ok((), q + 1);
      } else if 4 <= t <= 6 {
        b := StepVarint(s, q);
      } else {
        b := SkipOne(s, q, t, false, depth);
      }
      if b.Fail? {
        return Fail(b.f);
      }
      at := b.next;
    }
  }

  lemma {:induction false} InlineSkip(s: seq<byte>, p: nat, t: nat, depth: nat)
    requires p <= |s|
    ensures BoolType(t) ==> Skip(s, p, t, false, depth) == Ok((), p)
    ensures t == 3 ==> Skip(s, p, t, false, depth) == if p >= |s| then Fail(Truncated) else Ok((), p + 1)
    ensures 4 <= t <= 6 ==> Skip(s, p, t, false, depth) == SkipVarint(s, p)
  {
  }

  // ------------------------------------------------------------------
  // The reader
  // ------------------------------------------------------------------

  /** The element loop of read_value for a vector (tagged.hpp:706-720). */
  method ReadVector(s: seq<byte>, p: nat, depth: nat, elem: Type, count: nat) returns (r: Result<Value>)
    requires p <= |s|
    ensures r == ReadElems(s, p, depth, elem, count, [])
    decreases |s| - p, 2, 0
  {
    hide ReadValue, Default;
    var at, out: seq<Value> := p, [];
    for i := 0 to count
      invariant p <= at <= |s|
      invariant ReadElems(s, at, depth, elem, count - i, out) == ReadElems(s, p, depth, elem, count, [])
    {
      var v := ReadMember(s, at, depth, elem, Default(elem));
      if v.Fail? {
        return Fail(v.f);
      }
      out := out + [v.v];
      at := v.next;
    }
    return Ok(VList(out), at);
  }

  /** tagged.hpp:669-746. */
  method ReadMember(s: seq<byte>, p: nat, depth: nat, ty: Type, cur: Value) returns (r: Result<Value>)
    requires p <= |s|
    ensures r == ReadValue(s, p, depth, ty, cur)
    decreases |s| - p, 1, 0
  {
    hide ReadElems, ReadFields, SkipStruct, Zigzag, Blob, ListHeader, Default;
    match ty
    case List(elem) =>
      var h := ListHeader(s, p);
      if h.Fail? {
        return Fail(h.f);
      }
      if h.v.count > 0 && !WireOk(TypeOf(elem), h.v.elem) {
        return Fail(TypeMismatch);
      }
      if depth > MAX_DEPTH {
        return Fail(TooDeep);
      }
      r := ReadVector(s, h.next, depth + 1, elem, h.v.count);
    case Empty =>
      var e := SkipMessage(s, p, depth + 1);
      r := if e.Fail? then Fail(e.f) else Ok(VEmpty, e.next);
    case Struct(fields) =>
      if depth + 1 > MAX_DEPTH {
        return Fail(TooDeep);
      }
      var base := if cur.VStruct? && |cur.members| == |fields| then cur.members else DefaultMembers(fields);
      r := ReadMessage(s, p, depth + 1, fields, base);
    case _ =>
      r := ReadValue(s, p, depth, ty, cur);
  }

  /** tagged.hpp:749-804: the field loop. */
  method ReadMessage(s: seq<byte>, p: nat, depth: nat, fields: seq<Field>, init: seq<Option<Value>>)
    returns (r: Result<Value>)
    requires p <= |s| && |init| == |fields|
    ensures r == ReadFields(s, p, depth, fields, init, 0, {})
    decreases |s| - p, 0, 0
  {
    hide ReadValue, Skip, Default, FieldId, WireOk, TypeOf, SlotOf, AllSeen;
    var at, members, last: int, seen: set<nat> := p, init, 0, {};
    while true
      invariant p <= at <= |s| && |members| == |fields|
      invariant ReadFields(s, at, depth, fields, members, last, seen) == ReadFields(s, p, depth, fields, init, 0, {})
      decreases |s| - at
    {
      if at >= |s| {
        return Fail(Truncated);
      }
      if s[at] == 0 {
        return if AllSeen(fields, seen) then Ok(VStruct(members), at + 1) else Fail(MissingRequired);
      }
      var t := s[at] % 16;
      var id := FieldId(s, at + 1, s[at] / 16, last);
      if id.Fail? {
        return Fail(id.f);
      }
      var slot := SlotOf(fields, id.v);
      if slot.None? || !WireOk(TypeOf(fields[slot.value].ty), t) {
        var q := SkipOne(s, id.next, t, false, depth);
        if q.Fail? {
          return Fail(q.f);
        }
        at := q.next;
      } else {
        var i := slot.value;
        if fields[i].ty.Bool? {
          members := members[i := Some(VBool(t == 1))];
          at := id.next;
        } else {
          var cur := if members[i].Some? then members[i].value else Default(fields[i].ty);
          var v := ReadMember(s, id.next, depth, fields[i].ty, cur);
          if v.Fail? {
            return Fail(v.f);
          }
          members := members[i := Some(v.v)];
          at := v.next;
        }
        seen := seen + {i};
      }
      last := id.v;
    }
  }
}
