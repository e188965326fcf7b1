/** Lazy lists and lazy messages of include/nanom/tagged.hpp: the region kept for later decodes to what an
    eager read gives. */
module ThriftLazy {
  import opened Bytes
  import opened Leb128
  import opened Tagged
  import opened Thrift
  import opened ThriftSkip

  // ------------------------------------------------------------------
  // A successful read does not depend on the bytes after it
  // ------------------------------------------------------------------

  lemma {:induction false} VarintCut(s: seq<byte>, e: nat, p: nat)
    requires Varint(s, p).Ok? && Varint(s, p).next <= e <= |s|
    ensures Varint(s[..e], p) == Varint(s, p)
  {
    hide Pow2;
    ReadLocal(s, s[..e], p, MaxBytes(64), 64);
  }

  lemma {:induction false} BlobCut(s: seq<byte>, e: nat, p: nat)
    requires Blob(s, p).Ok? && Blob(s, p).next <= e <= |s|
    ensures Blob(s[..e], p) == Blob(s, p)
  {
    hide Varint;
    VarintCut(s, e, p);
    var n := Varint32(s, p);
    assert s[..e][n.next..n.next + n.v] == s[n.next..n.next + n.v];
  }

  lemma {:induction false} ZigzagCut(s: seq<byte>, e: nat, p: nat, w: nat)
    requires w >= 1 && Zigzag(s, p, w).Ok? && Zigzag(s, p, w).next <= e <= |s|
    ensures Zigzag(s[..e], p, w) == Zigzag(s, p, w)
  {
    hide Pow2, ZigzagDecode, Varint;
    VarintCut(s, e, p);
  }

  lemma {:induction false} FieldIdCut(s: seq<byte>, e: nat, p: nat, delta: nat, last: int)
    requires p <= e <= |s| && FieldId(s, p, delta, last).Ok? && FieldId(s, p, delta, last).next <= e
    ensures FieldId(s[..e], p, delta, last) == FieldId(s, p, delta, last)
  {
    hide Zigzag;
    if delta == 0 {
      ZigzagCut(s, e, p, 16);
    }
  }

  /** The count stays plausible as long as the elements themselves stay. */
  lemma {:induction false} ListHeaderCut(s: seq<byte>, e: nat, p: nat)
    requires ListHeader(s, p).Ok?
    requires ListHeader(s, p).next + ListHeader(s, p).v.count * MinElemBytes(ListHeader(s, p).v.elem) <= e <= |s|
    ensures ListHeader(s[..e], p) == ListHeader(s, p)
  {
    hide Varint;
    if s[p] / 16 == 15 {
      VarintCut(s, e, p + 1);
    }
  }

  /** A value in a container occupies at least the bytes the count check assumes. */
  lemma {:induction false} SkipSize(s: seq<byte>, p: nat, t: nat, depth: nat)
    requires p <= |s| && Skip(s, p, t, true, depth).Ok?
    ensures Skip(s, p, t, true, depth).next >= p + MinElemBytes(t)
  {
  }

  lemma {:induction false} SkipElemsSize(s: seq<byte>, p: nat, t: nat, count: nat, depth: nat)
    requires p <= |s| && SkipElems(s, p, t, count, depth).Ok?
    ensures SkipElems(s, p, t, count, depth).next >= p + count * MinElemBytes(t)
    decreases count
  {
    hide Skip;
    if count > 0 {
      SkipSize(s, p, t, depth + 1);
      SkipElemsSize(s, Skip(s, p, t, true, depth + 1).next, t, count - 1, depth);
    }
  }

  lemma {:induction false} SkipPairsSize(s: seq<byte>, p: nat, kt: nat, vt: nat, count: nat, depth: nat)
    requires p <= |s| && SkipPairs(s, p, kt, vt, count, depth).Ok?
    ensures SkipPairs(s, p, kt, vt, count, depth).next >= p + count * (MinElemBytes(kt) + MinElemBytes(vt))
    decreases count
  {
    hide Skip;
    if count > 0 {
      SkipSize(s, p, kt, depth + 1);
      var q := Skip(s, p, kt, true, depth + 1).next;
      SkipSize(s, q, vt, depth + 1);
      SkipPairsSize(s, Skip(s, q, vt, true, depth + 1).next, kt, vt, count - 1, depth);
    }
  }

  lemma {:induction false} SkipCut(s: seq<byte>, e: nat, p: nat, t: nat, inContainer: bool, depth: nat)
    requires p <= e <= |s| && Skip(s, p, t, inContainer, depth).Ok? && Skip(s, p, t, inContainer, depth).next <= e
    ensures Skip(s[..e], p, t, inContainer, depth) == Skip(s, p, t, inContainer, depth)
    decreases |s| - p, 1, 0
  {
    hide Varint, Blob, ListHeader, SkipElems, SkipPairs, SkipStruct, MinElemBytes;
    if 4 <= t <= 6 {
      VarintCut(s, e, p);
    } else if t == 8 {
      BlobCut(s, e, p);
    } else if t == 9 || t == 10 {
      var h := ListHeader(s, p);
      SkipElemsSize(s, h.next, h.v.elem, h.v.count, depth);
      ListHeaderCut(s, e, p);
      SkipElemsCut(s, e, h.next, h.v.elem, h.v.count, depth);
    } else if t == 11 {
      SkipMapCut(s, e, p, depth);
    } else if t == 12 {
      SkipStructCut(s, e, p, depth + 1);
    }
  }

  lemma {:induction false} SkipMapCut(s: seq<byte>, e: nat, p: nat, depth: nat)
    requires p <= e <= |s| && Skip(s, p, 11, true, depth).Ok? && Skip(s, p, 11, true, depth).next <= e
    ensures Skip(s[..e], p, 11, true, depth) == Skip(s, p, 11, true, depth)
    ensures Skip(s[..e], p, 11, false, depth) == Skip(s, p, 11, false, depth)
    decreases |s| - p, 0, 1
  {
    hide Varint, SkipPairs, MinElemBytes;
    VarintCut(s, e, p);
    var n := Varint32(s, p);
    if n.v > 0 {
      var kt, vt := s[n.next] / 16, s[n.next] % 16;
      SkipPairsSize(s, n.next + 1, kt, vt, n.v, depth);
      SkipPairsCut(s, e, n.next + 1, kt, vt, n.v, depth);
      assert n.v <= (e - (n.next + 1)) / (MinElemBytes(kt) + MinElemBytes(vt)) by {
        DivAtLeast(n.v, e - (n.next + 1), MinElemBytes(kt) + MinElemBytes(vt));
      }
    }
  }

  lemma {:induction false} DivAtLeast(n: nat, total: nat, d: nat)
    requires d > 0 && n * d <= total
    ensures n <= total / d
  {
    var q := total / d;
    assert total < q * d + d == (q + 1) * d;
    if q < n {
      MulMono(q + 1, n, d);
    }
  }

  lemma {:induction false} SkipElemsCut(s: seq<byte>, e: nat, p: nat, t: nat, count: nat, depth: nat)
    requires p <= e <= |s| && SkipElems(s, p, t, count, depth).Ok? && SkipElems(s, p, t, count, depth).next <= e
    ensures SkipElems(s[..e], p, t, count, depth) == SkipElems(s, p, t, count, depth)
    decreases |s| - p, 2, count
  {
    hide Skip;
    if count > 0 {
      SkipCut(s, e, p, t, true, depth + 1);
      SkipElemsCut(s, e, Skip(s, p, t, true, depth + 1).next, t, count - 1, depth);
    }
  }

  lemma {:induction false} SkipPairsCut(s: seq<byte>, e: nat, p: nat, kt: nat, vt: nat, count: nat, depth: nat)
    requires p <= e <= |s| && SkipPairs(s, p, kt, vt, count, depth).Ok?
    requires SkipPairs(s, p, kt, vt, count, depth).next <= e
    ensures SkipPairs(s[..e], p, kt, vt, count, depth) == SkipPairs(s, p, kt, vt, count, depth)
    decreases |s| - p, 2, count
  {
    hide Skip;
    if count > 0 {
      SkipCut(s, e, p, kt, true, depth + 1);
      var q := Skip(s, p, kt, true, depth + 1).next;
      SkipCut(s, e, q, vt, true, depth + 1);
      SkipPairsCut(s, e, Skip(s, q, vt, true, depth + 1).next, kt, vt, count - 1, depth);
    }
  }

  lemma {:induction false} SkipStructCut(s: seq<byte>, e: nat, p: nat, depth: nat)
    requires p <= e <= |s| && SkipStruct(s, p, depth).Ok? && SkipStruct(s, p, depth).next <= e
    ensures SkipStruct(s[..e], p, depth) == SkipStruct(s, p, depth)
    decreases |s| - p, 0, 0
  {
    hide Skip, Varint;
    if s[p] != 0 {
      var q := if s[p] / 16 == 0 then SkipVarint(s, p + 1) else Ok((), p + 1);
      if s[p] / 16 == 0 {
        VarintCut(s, e, p + 1);
      }
      SkipCut(s, e, q.next, s[p] % 16, false, depth);
      SkipStructCut(s, e, Skip(s, q.next, s[p] % 16, false, depth).next, depth);
    }
  }

  lemma {:induction false} ReadValueCut(s: seq<byte>, e: nat, p: nat, depth: nat, ty: Type, cur: Value)
    requires p <= e <= |s| && ReadValue(s, p, depth, ty, cur).Ok? && ReadValue(s, p, depth, ty, cur).next <= e
    ensures ReadValue(s[..e], p, depth, ty, cur) == ReadValue(s, p, depth, ty, cur)
    decreases |s| - p, 1, 0
  {
    hide Zigzag, Blob, ListHeader, SkipStruct, ReadElems, ReadFields, DefaultMembers, LeNat, MinElemBytes;
    match ty
    case Bool =>
    case I8 =>
    case I16 => ZigzagCut(s, e, p, 16);
    case I32 => ZigzagCut(s, e, p, 32);
    case I64 => ZigzagCut(s, e, p, 64);
    case Dbl => assert s[..e][p..p + 8] == s[p..p + 8];
    case Binary => BlobCut(s, e, p);
    case List(elem) =>
      var h := ListHeader(s, p);
      SkipsElems(s, h.next, depth, elem, h.v.count, [], h.v.elem);
      SkipElemsSize(s, h.next, h.v.elem, h.v.count, depth);
      ListHeaderCut(s, e, p);
      ReadElemsCut(s, e, h.next, depth + 1, elem, h.v.count, []);
    case Empty => SkipStructCut(s, e, p, depth + 1);
    case Struct(fields) =>
      var base := if cur.VStruct? && |cur.members| == |fields| then cur.members else DefaultMembers(fields);
      ReadFieldsCut(s, e, p, depth + 1, fields, base, 0, {});
  }

  lemma {:induction false} ReadElemsCut(s: seq<byte>, e: nat, p: nat, depth: nat, elem: Type, count: nat,
                                        acc: seq<Value>)
    requires p <= e <= |s| && ReadElems(s, p, depth, elem, count, acc).Ok?
    requires ReadElems(s, p, depth, elem, count, acc).next <= e
    ensures ReadElems(s[..e], p, depth, elem, count, acc) == ReadElems(s, p, depth, elem, count, acc)
    decreases |s| - p, 2, count
  {
    hide ReadValue, Default;
    if count > 0 {
      var r := ReadValue(s, p, depth, elem, Default(elem));
      ReadValueCut(s, e, p, depth, elem, Default(elem));
      ReadElemsCut(s, e, r.next, depth, elem, count - 1, acc + [r.v]);
    }
  }

  lemma {:induction false} ReadFieldsCut(s: seq<byte>, e: nat, p: nat, depth: nat, fields: seq<Field>,
                                         members: seq<Option<Value>>, last: int, seen: set<nat>)
    requires p <= e <= |s| && |members| == |fields|
    requires ReadFields(s, p, depth, fields, members, last, seen).Ok?
    requires ReadFields(s, p, depth, fields, members, last, seen).next <= e
    ensures ReadFields(s[..e], p, depth, fields, members, last, seen) ==
            ReadFields(s, p, depth, fields, members, last, seen)
    decreases |s| - p, 0, 0
  {
    hide Skip, ReadValue, Default, FieldId, AllSeen, WireOk, TypeOf;
    if s[p] != 0 {
      var t, id := s[p] % 16, FieldId(s, p + 1, s[p] / 16, last);
      FieldIdCut(s, e, p + 1, s[p] / 16, last);
      var q := id.next;
      var slot := SlotOf(fields, id.v);
      if slot.None? || !WireOk(TypeOf(fields[slot.value].ty), t) {
        SkipCut(s, e, q, t, false, depth);
        ReadFieldsCut(s, e, Skip(s, q, t, false, depth).next, depth, fields, members, id.v, seen);
      } else {
        var i := slot.value;
        if fields[i].ty.Bool? {
          ReadFieldsCut(s, e, q, depth, fields, members[i := Some(VBool(t == 1))], id.v, seen + {i});
        } else {
          var cur := if members[i].Some? then members[i].value else Default(fields[i].ty);
          var r := ReadValue(s, q, depth, fields[i].ty, cur);
          ReadValueCut(s, e, q, depth, fields[i].ty, cur);
          ReadFieldsCut(s, e, r.next, depth, fields, members[i := Some(r.v)], id.v, seen + {i});
        }
      }
    }
  }

  // ------------------------------------------------------------------
  // nm::list<E>
  // ------------------------------------------------------------------

  /** The validated element bytes buf[at..], the element count and wire type, and the depth to decode at. */
  datatype LazyList = LazyList(buf: seq<byte>, at: nat, count: nat, elem: nat, depth: nat)

  /** Reading a list member lazily: only its end is found (tagged.hpp:721-733). */
  function ReadLazy(s: seq<byte>, p: nat, depth: nat, elem: Type): (r: Result<LazyList>)
    requires p <= |s|
    ensures r.Ok? ==> r.v.at <= |r.v.buf| == r.next <= |s|
  {
    match ListHeader(s, p)
    case Fail(f) => Fail(f)
    case Ok(h, q) =>
      if h.count > 0 && !WireOk(TypeOf(elem), h.elem) then Fail(TypeMismatch)
      else if depth > MAX_DEPTH then Fail(TooDeep)
      else
        match SkipElems(s, q, h.elem, h.count, depth)
        case Fail(f) => Fail(f)
        case Ok(_, q') => Ok(LazyList(s[..q'], q, h.count, h.elem, depth + 1), q')
  }

  /** for_each with a callback that stops after `limit` elements (tagged.hpp:832-855); to_vector is the
      case limit == count. */
  method ForEach(l: LazyList, elem: Type, limit: nat) returns (r: Result<Value>)
    requires l.at <= |l.buf|
    ensures r == ReadElems(l.buf, l.at, l.depth, elem, Min(limit, l.count), [])
  {
    hide ReadValue, Default;
    var p, visited: seq<Value>, k := l.at, [], Min(limit, l.count);
    for i := 0 to k
      invariant l.at <= p <= |l.buf|
      invariant ReadElems(l.buf, p, l.depth, elem, k - i, visited) == ReadElems(l.buf, l.at, l.depth, elem, k, [])
    {
      var v := ReadValue(l.buf, p, l.depth, elem, Default(elem));
      if v.Fail? {
        return Fail(v.f);
      }
      visited := visited + [v.v];
      p := v.next;
    }
    return Ok(VList(visited), p);
  }

  datatype Element = NoSuch | Faulty(f: Fault) | Elem(v: Value)

  /** Element i: the ones before it are skipped, not decoded. */
  function ElementAt(l: LazyList, elem: Type, i: nat): (r: Element)
    requires l.at <= |l.buf| && l.depth > 0
  {
    if i >= l.count then NoSuch
    else
      match SkipElems(l.buf, l.at, l.elem, i, l.depth - 1)
      case Fail(f) => Faulty(f)
      case Ok(_, q) =>
        match ReadValue(l.buf, q, l.depth, elem, Default(elem))
        case Fail(f) => Faulty(f)
        case Ok(v, _) => Elem(v)
  }

  /** tagged.hpp:858-874. */
  method At(l: LazyList, elem: Type, i: nat) returns (r: Element)
    requires l.at <= |l.buf| && l.depth > 0
    ensures r == ElementAt(l, elem, i)
  {
    hide ReadValue, Default, Skip;
    if i >= l.count {
      return NoSuch;
    }
    var p := l.at;
    for k := 0 to i
      invariant l.at <= p <= |l.buf|
      invariant SkipElems(l.buf, p, l.elem, i - k, l.depth - 1) == SkipElems(l.buf, l.at, l.elem, i, l.depth - 1)
    {
      var q := Skip(l.buf, p, l.elem, true, l.depth);
      if q.Fail? {
        return Faulty(q.f);
      }
      p := q.next;
    }
    var v := ReadValue(l.buf, p, l.depth, elem, Default(elem));
    return if v.Fail? then Faulty(v.f) else Elem(v.v);
  }

  /** The reader's elements are its first k and the rest. */
  lemma {:induction false} ElemsSplit(s: seq<byte>, p: nat, depth: nat, elem: Type, count: nat, acc: seq<Value>, k: nat)
    requires p <= |s| && k <= count && ReadElems(s, p, depth, elem, count, acc).Ok?
    ensures
      var vs := ReadElems(s, p, depth, elem, count, acc).v.elems;
      var r := ReadElems(s, p, depth, elem, k, acc);
      && |vs| == |acc| + count && vs[..|acc|] == acc
      && r.Ok? && r.v == VList(vs[..|acc| + k])
      && ReadElems(s, r.next, depth, elem, count - k, vs[..|acc| + k]) == ReadElems(s, p, depth, elem, count, acc)
    decreases count
  {
    hide ReadValue, Default;
    if count == 0 {
      assert acc[..|acc|] == acc;
    } else {
      var v := ReadValue(s, p, depth, elem, Default(elem));
      var vs := ReadElems(s, p, depth, elem, count, acc).v.elems;
      ElemsSplit(s, v.next, depth, elem, count - 1, acc + [v.v], if k == 0 then 0 else k - 1);
      assert vs[..|acc|] == vs[..|acc| + 1][..|acc|] == acc;
    }
  }

  /** Whenever the eager read of a list succeeds, so does the lazy one, ending at the same byte, and its views
      give the eager vector: for_each its first elements, at(i) element i, to_vector all of it. */
  lemma {:induction false} LazyListAgrees(s: seq<byte>, p: nat, depth: nat, elem: Type, cur: Value, i: nat)
    requires p <= |s| && ReadValue(s, p, depth, List(elem), cur).Ok?
    ensures
      var eager := ReadValue(s, p, depth, List(elem), cur);
      var lazy := ReadLazy(s, p, depth, elem);
      && eager.v.VList? && lazy.Ok? && lazy.next == eager.next
      && lazy.v.count == |eager.v.elems| && lazy.v.depth == depth + 1
      && (var visited := ReadElems(lazy.v.buf, lazy.v.at, lazy.v.depth, elem, Min(i, lazy.v.count), []);
          visited.Ok? && visited.v == VList(eager.v.elems[..Min(i, lazy.v.count)]))
      && ElementAt(lazy.v, elem, i) == if i < |eager.v.elems| then Elem(eager.v.elems[i]) else NoSuch
  {
    hide ReadElems, SkipElems, ListHeader, Default;
    var h := ListHeader(s, p);
    var eager := ReadValue(s, p, depth, List(elem), cur);
    SkipsElems(s, h.next, depth, elem, h.v.count, [], h.v.elem);
    var buf := s[..eager.next];
    ReadElemsCut(s, eager.next, h.next, depth + 1, elem, h.v.count, []);
    ElemsSplit(buf, h.next, depth + 1, elem, h.v.count, [], Min(i, h.v.count));
    if i < h.v.count {
      var r := ReadElems(buf, h.next, depth + 1, elem, i, []);
      SkipsElems(buf, h.next, depth, elem, i, [], h.v.elem);
      NextElem(buf, r.next, depth + 1, elem, h.v.count - i, eager.v.elems[..i]);
    }
  }

  /** The element read next. */
  lemma {:induction false} NextElem(s: seq<byte>, p: nat, depth: nat, elem: Type, count: nat, acc: seq<Value>)
    requires p <= |s| && count > 0 && ReadElems(s, p, depth, elem, count, acc).Ok?
    ensures
      var v := ReadValue(s, p, depth, elem, Default(elem));
      v.Ok? && v.v == ReadElems(s, p, depth, elem, count, acc).v.elems[|acc|]
  {
    hide ReadValue, Default;
    var v := ReadValue(s, p, depth, elem, Default(elem));
    ElemsSplit(s, v.next, depth, elem, count - 1, acc + [v.v], 0);
    var vs := ReadElems(s, p, depth, elem, count, acc).v.elems;
    assert vs[|acc|] == vs[..|acc| + 1][|acc|];
  }

  // ------------------------------------------------------------------
  // nm::lazy<M>
  // ------------------------------------------------------------------

  /** The struct's bytes buf[at..] and the depth to decode at. */
  datatype LazyStruct = LazyStruct(buf: seq<byte>, at: nat, depth: nat)

  function ReadLazyStruct(s: seq<byte>, p: nat, depth: nat): (r: Result<LazyStruct>)
    requires p <= |s|
    ensures r.Ok? ==> r.v.at <= |r.v.buf|
  {
    match SkipStruct(s, p, depth + 1)
    case Fail(f) => Fail(f)
    case Ok(_, q) => Ok(LazyStruct(s[..q], p, depth + 1), q)
  }

  /** decode(): the kept bytes give what reading the struct in place gives. */
  lemma {:induction false} LazyStructAgrees(s: seq<byte>, p: nat, depth: nat, fields: seq<Field>)
    requires p <= |s| && ReadValue(s, p, depth, Struct(fields), Default(Struct(fields))).Ok?
    ensures
      var eager := ReadValue(s, p, depth, Struct(fields), Default(Struct(fields)));
      var lazy := ReadLazyStruct(s, p, depth);
      && lazy.Ok? && lazy.next == eager.next
      && ReadFields(lazy.v.buf, lazy.v.at, lazy.v.depth, fields, DefaultMembers(fields), 0, {}) == eager
  {
    hide ReadFields, SkipStruct;
    var eager := ReadValue(s, p, depth, Struct(fields), Default(Struct(fields)));
    SkipsFields(s, p, depth + 1, fields, DefaultMembers(fields), 0, {});
    ReadFieldsCut(s, eager.next, p, depth + 1, fields, DefaultMembers(fields), 0, {});
  }
}
