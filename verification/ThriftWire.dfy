/** The Thrift compact wire format as a grammar of its own, and what the reader makes of every struct in it: fields in
    any order, repeated, unknown to the model or of another wire type, sets and maps included
    (include/nanom/tagged.hpp:534-826). */
module ThriftWire {
  import opened Bytes
  import opened Leb128
  import opened Tagged
  import opened Thrift
  import opened ThriftEncode
  import opened ThriftSkip

  // ------------------------------------------------------------------
  // The format
  // ------------------------------------------------------------------

  /** Integers carry their wire code and raw varint; a list or set its element code; a map its two,
      and its keys and values in turn. */
  datatype Wire =
    | WBool(b: bool)
    | WByte(n: byte)
    | WInt(code: nat, u: nat)
    | WDbl(bits: nat)
    | WBin(bytes: seq<byte>)
    | WList(isSet: bool, elem: nat, elems: seq<Wire>)
    | WMap(key: nat, val: nat, items: seq<Wire>)
    | WStruct(fields: seq<Tag>)

  /** A field: its id, whether the id is written out in full, its value. */
  datatype Tag = Tag(id: int, full: bool, v: Wire)

  /** The code a field header or a list header has for the value. */
  function Code(w: Wire): (t: nat)
    ensures w.WInt? || 1 <= t <= 12
  {
    match w
    case WBool(b) => if b then 1 else 2
    case WByte(_) => 3
    case WInt(code, _) => code
    case WDbl(_) => 7
    case WBin(_) => 8
    case WList(isSet, _, _) => if isSet then 10 else 9
    case WMap(_, _, _) => 11
    case WStruct(_) => 12
  }

  /** The value may stand in a container of this element code: a bool under either of its codes. */
  predicate Under(w: Wire, t: nat) {
    if w.WBool? then BoolType(t) else t == Code(w)
  }

  lemma {:induction false} UnderSize(w: Wire, t: nat)
    requires Under(w, t)
    ensures MinElemBytes(Code(w)) == MinElemBytes(t)
  {
  }

  ghost predicate Legal(w: Wire)
    decreases w
  {
    match w
    case WInt(code, u) => 4 <= code <= 6 && u < Pow2(64)
    case WDbl(bits) => bits < Pow2(64)
    case WBin(bytes) => |bytes| <= INT32_MAX
    case WList(_, elem, elems) =>
      elem < 16 && |elems| <= INT32_MAX && forall i :: 0 <= i < |elems| ==> Legal(elems[i]) && Under(elems[i], elem)
    case WMap(key, val, items) =>
      && key < 16 && val < 16 && |items| % 2 == 0 && |items| / 2 <= INT32_MAX
      && forall i :: 0 <= i < |items| ==> Legal(items[i]) && Under(items[i], if i % 2 == 0 then key else val)
    case WStruct(fields) => LegalFrom(fields, 0)
    case _ => true
  }

  /** The fields after one with id `last`. */
  ghost predicate LegalFrom(fields: seq<Tag>, last: int)
    decreases fields
  {
    |fields| > 0 ==> LegalTag(fields[0], last) && LegalFrom(fields[1..], fields[0].id)
  }

  /** A short header reaches 15 ids on. */
  ghost predicate LegalTag(f: Tag, last: int)
    decreases f
  {
    Legal(f.v) && -32768 <= f.id <= 32767 && (!f.full ==> 1 <= f.id - last <= 15)
  }

  lemma {:induction false} CodeRange(w: Wire)
    requires Legal(w)
    ensures 1 <= Code(w) <= 12 && (w.WBool? <==> BoolType(Code(w)))
  {
  }

  function Head(id: int, full: bool, last: int, t: nat): (s: seq<byte>)
    requires 1 <= t <= 12 && (!full ==> 1 <= id - last <= 15)
    ensures |s| >= 1
  {
    if full then [t] + Uleb128(ZigzagNat(id)) else [16 * (id - last) + t]
  }

  /** The bytes of a value in a container, or as the body of a field other than a bool. */
  ghost function Wired(w: Wire): (s: seq<byte>)
    requires Legal(w)
    ensures |s| >= MinElemBytes(Code(w))
    decreases w, 1
  {
    match w
    case WBool(b) => [if b then 1 else 2]
    case WByte(b) => [b]
    case WInt(_, u) => Uleb128(u)
    case WDbl(bits) => LeBytes(bits, 8)
    case WBin(bytes) => Uleb128(|bytes|) + bytes
    case WList(_, elem, elems) => ListHead(|elems|, elem) + ElemBytes(elems, elem)
    case WMap(key, val, items) =>
      if |items| == 0 then [0] else Uleb128(|items| / 2) + ([16 * key + val] + PairBytes(items, key, val))
    case WStruct(fields) => FieldBytes(fields, 0)
  }

  ghost function ElemBytes(ws: seq<Wire>, t: nat): (s: seq<byte>)
    requires forall i :: 0 <= i < |ws| ==> Legal(ws[i]) && Under(ws[i], t)
    ensures |s| >= |ws| * MinElemBytes(t)
    decreases ws, 0
  {
    if |ws| == 0 then []
    else
      var rest := ElemBytes(ws[1..], t);
      UnderSize(ws[0], t);
      Room(|ws|, |ws[1..]|, MinElemBytes(t), |Wired(ws[0])|, |rest|);
      Wired(ws[0]) + rest
  }

  lemma {:induction false} Room(n: nat, k: nat, m: nat, first: nat, rest: nat)
    requires n == k + 1 && first >= m && rest >= k * m
    ensures first + rest >= n * m
  {
    assert n * m == k * m + m;
  }

  ghost function PairBytes(ws: seq<Wire>, key: nat, val: nat): (s: seq<byte>)
    requires |ws| % 2 == 0
    requires forall i :: 0 <= i < |ws| ==> Legal(ws[i]) && Under(ws[i], if i % 2 == 0 then key else val)
    ensures |s| >= |ws| / 2 * (MinElemBytes(key) + MinElemBytes(val))
    decreases ws, 0
  {
    if |ws| == 0 then []
    else
      var k, v, rest := Wired(ws[0]), Wired(ws[1]), PairBytes(ws[2..], key, val);
      UnderSize(ws[0], key);
      UnderSize(ws[1], val);
      Room(|ws| / 2, |ws[2..]| / 2, MinElemBytes(key) + MinElemBytes(val), |k| + |v|, |rest|);
      k + (v + rest)
  }

  /** The fields in turn and the STOP byte. */
  ghost function FieldBytes(fields: seq<Tag>, last: int): (s: seq<byte>)
    requires LegalFrom(fields, last)
    ensures |s| >= 1
    decreases fields, 0
  {
    if |fields| == 0 then [0] else TagBytes(fields[0], last) + FieldBytes(fields[1..], fields[0].id)
  }

  /** A bool's value is its header's code. */
  ghost function TagBytes(f: Tag, last: int): (s: seq<byte>)
    requires LegalTag(f, last)
    decreases f, 0
  {
    CodeRange(f.v);
    Head(f.id, f.full, last, Code(f.v)) + (if f.v.WBool? then [] else Wired(f.v))
  }

  /** The value, met at this depth, stays within the nesting limit. */
  ghost predicate Shallow(w: Wire, depth: nat)
    decreases w
  {
    match w
    case WList(_, _, elems) => depth <= MAX_DEPTH && forall i :: 0 <= i < |elems| ==> Shallow(elems[i], depth + 1)
    case WMap(_, _, items) => depth <= MAX_DEPTH && forall i :: 0 <= i < |items| ==> Shallow(items[i], depth + 1)
    case WStruct(fields) => depth + 1 <= MAX_DEPTH && ShallowFrom(fields, depth + 1)
    case _ => true
  }

  ghost predicate ShallowFrom(fields: seq<Tag>, depth: nat)
    decreases fields
  {
    |fields| > 0 ==> ShallowTag(fields[0], depth) && ShallowFrom(fields[1..], depth)
  }

  ghost predicate ShallowTag(f: Tag, depth: nat)
    decreases f
  {
    Shallow(f.v, depth)
  }

  ghost predicate ShallowAll(ws: seq<Wire>, depth: nat) {
    forall i :: 0 <= i < |ws| ==> Shallow(ws[i], depth)
  }

  // ------------------------------------------------------------------
  // Skipping
  // ------------------------------------------------------------------

  ghost function Ended(ok: bool, next: nat): Result<()> {
    if ok then Ok((), next) else Fail(TooDeep)
  }

  lemma {:induction false} HeadBack(s: seq<byte>, p: nat, id: int, full: bool, last: int, t: nat)
    requires -32768 <= id <= 32767 && 1 <= t <= 12 && (!full ==> 1 <= id - last <= 15)
    requires At(s, p, Head(id, full, last, t))
    ensures p < |s| && s[p] != 0 && s[p] % 16 == t
    ensures FieldId(s, p + 1, s[p] / 16, last) == Ok(id, p + |Head(id, full, last, t)|)
    ensures (if s[p] / 16 == 0 then SkipVarint(s, p + 1) else Ok((), p + 1)) == Ok((), p + |Head(id, full, last, t)|)
  {
    hide Uleb128, Zigzag, SkipVarint;
    assert s[p] == Head(id, full, last, t)[0];
    if full {
      AtConcat(s, p, [t], Uleb128(ZigzagNat(id)));
      assert IsSigned(id, 16) by { Pow2Values(); Pow2Twice(16); }
      ZigzagBack(s, p + 1, id, 16);
      VarintSkips(s, p + 1, ZigzagNat(id));
    }
  }

  lemma {:induction false} VarintSkips(s: seq<byte>, p: nat, u: nat)
    requires At(s, p, Uleb128(u)) && u < 0x1_0000_0000_0000_0000
    ensures SkipVarint(s, p) == Ok((), p + |Uleb128(u)|)
  {
    Pow2Values();
    VarintBack(s, p, u);
  }

  /** A value of the format is skipped exactly to its end, or nests too deep. */
  lemma {:induction false} SkipWire(s: seq<byte>, p: nat, depth: nat, w: Wire, t: nat)
    requires Legal(w) && Under(w, t) && At(s, p, Wired(w))
    ensures Skip(s, p, t, true, depth) == Ended(Shallow(w, depth), p + |Wired(w)|)
    decreases w, 1
  {
    hide At, Skip, Wired, Shallow;
    match w
    case WList(_, _, _) => SkipListWire(s, p, depth, w);
    case WMap(_, _, _) => SkipMapWire(s, p, depth, w);
    case WStruct(fields) => SkipStructWire(s, p, depth, w);
    case _ => SkipScalarWire(s, p, depth, w, t);
  }

  lemma {:induction false} SkipScalarWire(s: seq<byte>, p: nat, depth: nat, w: Wire, t: nat)
    requires !w.WList? && !w.WMap? && !w.WStruct?
    requires Legal(w) && Under(w, t) && At(s, p, Wired(w))
    ensures Skip(s, p, t, true, depth) == Ended(Shallow(w, depth), p + |Wired(w)|)
  {
    hide Uleb128, SkipVarint, Blob, LeBytes, Pow2, Varint32, ListHeader, SkipElems, SkipPairs, SkipStruct;
    AtSlice(s, p, Wired(w));
    match w
    case WInt(_, u) =>
      assert Pow2(64) == 0x1_0000_0000_0000_0000 by { Pow2Values(); }
      VarintSkips(s, p, u);
    case WBin(bytes) => BlobBack(s, p, bytes);
    case _ =>
  }

  lemma {:induction false} SkipListWire(s: seq<byte>, p: nat, depth: nat, w: Wire)
    requires w.WList? && Legal(w) && At(s, p, Wired(w))
    ensures Skip(s, p, Code(w), true, depth) == Ended(Shallow(w, depth), p + |Wired(w)|)
    decreases w, 0
  {
    hide At, SkipElems, ElemBytes, ListHead, ListHeader, MinElemBytes, Under;
    var head, body := ListHead(|w.elems|, w.elem), ElemBytes(w.elems, w.elem);
    AtConcat(s, p, head, body);
    AtSlice(s, p, head);
    AtSlice(s, p + |head|, body);
    ListHeadBack(s, p, |w.elems|, w.elem);
    if depth <= MAX_DEPTH {
      SkipElemsWire(s, p + |head|, depth, w.elems, w.elem);
    }
  }

  lemma {:induction false} SkipElemsWire(s: seq<byte>, p: nat, depth: nat, ws: seq<Wire>, t: nat)
    requires forall i :: 0 <= i < |ws| ==> Legal(ws[i]) && Under(ws[i], t)
    requires At(s, p, ElemBytes(ws, t))
    ensures p <= |s| && SkipElems(s, p, t, |ws|, depth) == Ended(ShallowAll(ws, depth + 1), p + |ElemBytes(ws, t)|)
    decreases ws, 0
  {
    hide At, Skip, Wired, Shallow, Legal, Under;
    AtSlice(s, p, ElemBytes(ws, t));
    if |ws| > 0 {
      AtConcat(s, p, Wired(ws[0]), ElemBytes(ws[1..], t));
      SkipWire(s, p, depth + 1, ws[0], t);
      SkipElemsWire(s, p + |Wired(ws[0])|, depth, ws[1..], t);
      AllTail(ws, depth + 1);
    }
  }

  lemma {:induction false} AllTail(ws: seq<Wire>, depth: nat)
    requires |ws| > 0
    ensures ShallowAll(ws, depth) <==> Shallow(ws[0], depth) && ShallowAll(ws[1..], depth)
  {
    assert forall j :: 0 < j < |ws| ==> ws[j] == ws[1..][j - 1];
  }

  lemma {:induction false} SkipMapWire(s: seq<byte>, p: nat, depth: nat, w: Wire)
    requires w.WMap? && Legal(w) && At(s, p, Wired(w))
    ensures Skip(s, p, 11, true, depth) == Ended(Shallow(w, depth), p + |Wired(w)|)
    decreases w, 0
  {
    hide At, SkipPairs, PairBytes, MinElemBytes, Under, Uleb128, Varint, Varint32;
    if |w.items| == 0 {
      UlebZero();
      CountBack(s, p, 0);
    } else {
      var n, codes := |w.items| / 2, [16 * w.key + w.val];
      var head, body := Uleb128(n), PairBytes(w.items, w.key, w.val);
      AtConcat(s, p, head, codes + body);
      AtConcat(s, p + |head|, codes, body);
      CountBack(s, p, n);
      AtSlice(s, p + |head|, codes);
      AtSlice(s, p + |head| + 1, body);
      CountFits(n, MinElemBytes(w.key) + MinElemBytes(w.val), |body|, |s| - (p + |head| + 1));
      MapHead(s, p, depth, n, p + |head|, w.key, w.val);
      if depth <= MAX_DEPTH {
        SkipPairsWire(s, p + |head| + 1, depth, w.items, w.key, w.val);
      }
    }
  }

  lemma {:induction false} MapHead(s: seq<byte>, p: nat, depth: nat, n: nat, q: nat, key: nat, val: nat)
    requires Varint32(s, p) == Ok(n, q) && 0 < n && p <= q < |s| && s[q] == 16 * key + val && key < 16 && val < 16
    requires n <= (|s| - (q + 1)) / (MinElemBytes(key) + MinElemBytes(val))
    ensures Skip(s, p, 11, true, depth) ==
            if depth > MAX_DEPTH then Fail(TooDeep) else SkipPairs(s, q + 1, key, val, n, depth)
  {
    hide SkipPairs, MinElemBytes, Varint32;
    assert s[q] / 16 == key && s[q] % 16 == val;
  }

  lemma {:induction false} CountBack(s: seq<byte>, p: nat, n: nat)
    requires At(s, p, Uleb128(n)) && n <= INT32_MAX
    ensures p <= |s| && Varint32(s, p) == Ok(n, p + |Uleb128(n)|)
  {
    hide Uleb128, Varint;
    Pow2Values();
    VarintBack(s, p, n);
  }

  lemma {:induction false} UlebZero()
    ensures Uleb128(0) == [0]
  {
  }

  lemma {:induction false} CountFits(n: nat, m: nat, body: nat, room: nat)
    requires m > 0 && n * m <= body <= room
    ensures n <= room / m
  {
    if n > room / m {
      MulMono(room / m + 1, n, m);
    }
  }

  lemma {:induction false} SkipPairsWire(s: seq<byte>, p: nat, depth: nat, ws: seq<Wire>, key: nat, val: nat)
    requires |ws| % 2 == 0
    requires forall i :: 0 <= i < |ws| ==> Legal(ws[i]) && Under(ws[i], if i % 2 == 0 then key else val)
    requires At(s, p, PairBytes(ws, key, val))
    ensures p <= |s|
    ensures SkipPairs(s, p, key, val, |ws| / 2, depth) ==
            Ended(ShallowAll(ws, depth + 1), p + |PairBytes(ws, key, val)|)
    decreases ws, 0
  {
    hide At, Skip, Wired, Shallow, Legal, Under;
    AtSlice(s, p, PairBytes(ws, key, val));
    if |ws| > 0 {
      var k, v := Wired(ws[0]), Wired(ws[1]);
      AtConcat(s, p, k, v + PairBytes(ws[2..], key, val));
      AtConcat(s, p + |k|, v, PairBytes(ws[2..], key, val));
      SkipWire(s, p, depth + 1, ws[0], key);
      SkipWire(s, p + |k|, depth + 1, ws[1], val);
      SkipPairsWire(s, p + |k| + |v|, depth, ws[2..], key, val);
      AllTail(ws, depth + 1);
      AllTail(ws[1..], depth + 1);
      assert ws[1..][1..] == ws[2..];
    }
  }

  lemma {:induction false} SkipStructWire(s: seq<byte>, p: nat, depth: nat, w: Wire)
    requires w.WStruct? && Legal(w) && At(s, p, Wired(w))
    ensures Skip(s, p, 12, true, depth) == Ended(Shallow(w, depth), p + |Wired(w)|)
    decreases w, 0
  {
    hide At, SkipStruct, FieldBytes, LegalFrom, ShallowFrom;
    AtSlice(s, p, Wired(w));
    if depth + 1 <= MAX_DEPTH {
      SkipFieldsWire(s, p, depth + 1, w.fields, 0);
    } else {
      TooDeepStruct(s, p, depth + 1);
    }
  }

  lemma {:induction false} TooDeepStruct(s: seq<byte>, p: nat, depth: nat)
    requires p <= |s| && depth > MAX_DEPTH
    ensures SkipStruct(s, p, depth) == Fail(TooDeep)
  {
  }

  lemma {:induction false} SkipFieldsWire(s: seq<byte>, p: nat, depth: nat, fields: seq<Tag>, last: int)
    requires LegalFrom(fields, last) && At(s, p, FieldBytes(fields, last)) && depth <= MAX_DEPTH
    ensures p <= |s| && SkipStruct(s, p, depth) == Ended(ShallowFrom(fields, depth), p + |FieldBytes(fields, last)|)
    decreases fields, 0
  {
    hide At, Skip, TagBytes, LegalTag, ShallowTag, SkipVarint, SkipStruct, FieldId, Wired, Code;
    AtSlice(s, p, FieldBytes(fields, last));
    if |fields| == 0 {
      assert SkipStruct(s, p, depth) == Ok((), p + 1) by { SkipStop(s, p, depth); }
    } else {
      var f := fields[0];
      AtConcat(s, p, TagBytes(f, last), FieldBytes(fields[1..], f.id));
      TagParts(s, p, f, last);
      var q := FieldId(s, p + 1, s[p] / 16, last).next;
      SkipTagWire(s, q, depth, f, last);
      SkipTurn(s, p, depth, q);
      SkipFieldsWire(s, p + |TagBytes(f, last)|, depth, fields[1..], f.id);
    }
  }

  lemma {:induction false} SkipStop(s: seq<byte>, p: nat, depth: nat)
    requires p < |s| && s[p] == 0 && depth <= MAX_DEPTH
    ensures SkipStruct(s, p, depth) == Ok((), p + 1)
  {
  }

  lemma {:induction false} SkipTurn(s: seq<byte>, p: nat, depth: nat, q: nat)
    requires p < |s| && s[p] != 0 && depth <= MAX_DEPTH
    requires (if s[p] / 16 == 0 then SkipVarint(s, p + 1) else Ok((), p + 1)) == Ok((), q)
    ensures q <= |s|
    ensures
      var k := Skip(s, q, s[p] % 16, false, depth);
      SkipStruct(s, p, depth) == if k.Fail? then Fail(k.f) else SkipStruct(s, k.next, depth)
  {
    hide Skip, SkipVarint;
  }

  /** The header and the body of one field. */
  lemma {:induction false} TagParts(s: seq<byte>, p: nat, f: Tag, last: int)
    requires LegalTag(f, last) && At(s, p, TagBytes(f, last))
    ensures p < |s| && s[p] != 0 && s[p] % 16 == Code(f.v)
    ensures
      var id := FieldId(s, p + 1, s[p] / 16, last);
      && id.Ok? && id.v == f.id && id.next <= p + |TagBytes(f, last)| <= |s|
      && (if s[p] / 16 == 0 then SkipVarint(s, p + 1) else Ok((), p + 1)) == Ok((), id.next)
      && At(s, id.next, if f.v.WBool? then [] else Wired(f.v))
      && p + |TagBytes(f, last)| == id.next + if f.v.WBool? then 0 else |Wired(f.v)|
  {
    hide At, Wired, Legal, Head, FieldId, SkipVarint;
    CodeRange(f.v);
    var head, body := Head(f.id, f.full, last, Code(f.v)), if f.v.WBool? then [] else Wired(f.v);
    AtConcat(s, p, head, body);
    HeadBack(s, p, f.id, f.full, last, Code(f.v));
    AtSlice(s, p, TagBytes(f, last));
  }

  lemma {:induction false} SkipTagWire(s: seq<byte>, q: nat, depth: nat, f: Tag, last: int)
    requires LegalTag(f, last) && q <= |s| && At(s, q, if f.v.WBool? then [] else Wired(f.v))
    ensures Skip(s, q, Code(f.v), false, depth) ==
            Ended(ShallowTag(f, depth), q + if f.v.WBool? then 0 else |Wired(f.v)|)
    decreases f, 0
  {
    hide At, Wired, Skip, Legal, Shallow;
    if f.v.WBool? {
      BoolField(s, q, f.v, depth);
    } else {
      CodeRange(f.v);
      SkipWire(s, q, depth, f.v, Code(f.v));
      SkipAnywhere(s, q, Code(f.v), depth);
    }
  }

  lemma {:induction false} BoolField(s: seq<byte>, p: nat, w: Wire, depth: nat)
    requires w.WBool? && p <= |s|
    ensures Skip(s, p, Code(w), false, depth) == Ok((), p) && Shallow(w, depth)
  {
  }

  // ------------------------------------------------------------------
  // What a struct on the wire means under a schema
  // ------------------------------------------------------------------

  ghost function IntMeaning(w: Wire, bits: nat): Option<Value>
    requires bits >= 1
  {
    if w.WInt? && IsSigned(Unzigzag(w.u), bits) then Some(VInt(Unzigzag(w.u))) else None
  }

  /** The value a member of type `ty` that holds `cur` takes. */
  ghost function Meaning(w: Wire, ty: Type, cur: Value): Option<Value>
    decreases w
  {
    match ty
    case Bool => if w.WBool? then Some(VBool(w.b)) else None
    case I8 => if w.WByte? then Some(VInt(if w.n < 128 then w.n else w.n as int - 256)) else None
    case I16 => IntMeaning(w, 16)
    case I32 => IntMeaning(w, 32)
    case I64 => IntMeaning(w, 64)
    case Dbl => if w.WDbl? then Some(VDbl(w.bits)) else None
    case Binary => if w.WBin? then Some(VBin(w.bytes)) else None
    case List(elem) =>
      if w.WList? && (|w.elems| == 0 || WireOk(TypeOf(elem), w.elem)) then ElemMeanings(w.elems, elem, []) else None
    case Empty => if w.WStruct? then Some(VEmpty) else None
    case Struct(fields) => if w.WStruct? then Fold(w.fields, fields, Base(cur, fields), {}) else None
  }

  /** A nested struct is read over what its member holds. */
  ghost function Base(cur: Value, fields: seq<Field>): (ms: seq<Option<Value>>)
    ensures |ms| == |fields|
  {
    if cur.VStruct? && |cur.members| == |fields| then cur.members else DefaultMembers(fields)
  }

  ghost function ElemMeanings(ws: seq<Wire>, elem: Type, acc: seq<Value>): Option<Value>
    decreases ws
  {
    if |ws| == 0 then Some(VList(acc))
    else
      var v := Meaning(ws[0], elem, Default(elem));
      if v.None? then None else ElemMeanings(ws[1..], elem, acc + [v.value])
  }

  ghost predicate Known(f: Tag, fields: seq<Field>) {
    var slot := SlotOf(fields, f.id);
    slot.Some? && WireOk(TypeOf(fields[slot.value].ty), Code(f.v))
  }

  ghost function Held(m: Option<Value>, ty: Type): Value {
    if m.Some? then m.value else Default(ty)
  }

  /** The fields, by their ids, over `ms`: those the schema does not know, or knows under another wire type, change
      nothing; of the others the last one counts. */
  ghost function Fold(tags: seq<Tag>, fields: seq<Field>, ms: seq<Option<Value>>, seen: set<nat>): Option<Value>
    requires |ms| == |fields|
    decreases tags
  {
    if |tags| == 0 then if AllSeen(fields, seen) then Some(VStruct(ms)) else None
    else if !Known(tags[0], fields) then Fold(tags[1..], fields, ms, seen)
    else
      var i := SlotOf(fields, tags[0].id).value;
      var v := TagMeaning(tags[0], fields[i].ty, Held(ms[i], fields[i].ty));
      if v.None? then None else Fold(tags[1..], fields, ms[i := v], seen + {i})
  }

  ghost function TagMeaning(f: Tag, ty: Type, cur: Value): Option<Value>
    decreases f
  {
    Meaning(f.v, ty, cur)
  }

  // ------------------------------------------------------------------
  // Reading
  // ------------------------------------------------------------------

  /** The meaning, exactly when there is one and it nests within the limit. */
  ghost predicate Reads(r: Result<Value>, m: Option<Value>, ok: bool, next: nat) {
    && (r.Ok? <==> m.Some? && ok)
    && (r.Ok? ==> r == Ok(m.value, next))
    && (m.Some? && !ok ==> r == Fail(TooDeep))
  }

  lemma {:induction false} ReadWire(s: seq<byte>, p: nat, depth: nat, w: Wire, ty: Type, cur: Value)
    requires Legal(w) && WireOk(TypeOf(ty), Code(w)) && At(s, p, Wired(w))
    ensures p <= |s| && Reads(ReadValue(s, p, depth, ty, cur), Meaning(w, ty, cur), Shallow(w, depth), p + |Wired(w)|)
    decreases w, 1
  {
    hide ReadValue, Meaning, Wired, Shallow, Legal, At;
    CodeIs(w, ty);
    AtSlice(s, p, Wired(w));
    match ty
    case List(elem) => ReadListWire(s, p, depth, w, elem, cur);
    case Empty => ReadEmptyWire(s, p, depth, w, cur);
    case Struct(fields) => ReadStructWire(s, p, depth, w, fields, cur);
    case _ => ReadScalarWire(s, p, depth, w, ty, cur);
  }

  lemma {:induction false} CodeIs(w: Wire, ty: Type)
    requires Legal(w) && WireOk(TypeOf(ty), Code(w))
    ensures ty.Bool? <==> w.WBool?
    ensures ty.I8? <==> w.WByte?
    ensures ty.I16? || ty.I32? || ty.I64? <==> w.WInt?
    ensures ty.Dbl? <==> w.WDbl?
    ensures ty.Binary? <==> w.WBin?
    ensures ty.List? <==> w.WList?
    ensures ty.Empty? || ty.Struct? <==> w.WStruct?
  {
  }

  lemma {:induction false} ReadScalarWire(s: seq<byte>, p: nat, depth: nat, w: Wire, ty: Type, cur: Value)
    requires !ty.List? && !ty.Empty? && !ty.Struct?
    requires Legal(w) && WireOk(TypeOf(ty), Code(w)) && At(s, p, Wired(w))
    ensures p <= |s| && Reads(ReadValue(s, p, depth, ty, cur), Meaning(w, ty, cur), Shallow(w, depth), p + |Wired(w)|)
  {
    hide Uleb128, Zigzag, LeBytes, LeNat, Blob, Pow2, IsSigned, Unzigzag;
    CodeIs(w, ty);
    AtSlice(s, p, Wired(w));
    match ty
    case I16 => IntBack(s, p, w.u, 16);
    case I32 => IntBack(s, p, w.u, 32);
    case I64 => IntBack(s, p, w.u, 64);
    case Dbl => LeNatLeBytes(w.bits, 8);
    case Binary => BlobBack(s, p, w.bytes);
    case _ =>
  }

  lemma {:induction false} IntBack(s: seq<byte>, p: nat, u: nat, bits: nat)
    requires u < Pow2(64) && At(s, p, Uleb128(u)) && 1 <= bits <= 64
    ensures Zigzag(s, p, bits) ==
            if IsSigned(Unzigzag(u), bits) then Ok(Unzigzag(u), p + |Uleb128(u)|) else Fail(OutOfRange)
  {
    hide Uleb128, Pow2, Varint;
    VarintBack(s, p, u);
    ZigzagDecodeValue(u, 64);
  }

  lemma {:induction false} ReadListWire(s: seq<byte>, p: nat, depth: nat, w: Wire, elem: Type, cur: Value)
    requires w.WList? && Legal(w) && At(s, p, Wired(w)) && p <= |s|
    ensures Reads(ReadValue(s, p, depth, List(elem), cur), Meaning(w, List(elem), cur), Shallow(w, depth),
                  p + |Wired(w)|)
    decreases w, 0
  {
    hide At, ReadElems, ElemBytes, ListHead, ListHeader, MinElemBytes, Under, ElemMeanings;
    var head, body := ListHead(|w.elems|, w.elem), ElemBytes(w.elems, w.elem);
    AtConcat(s, p, head, body);
    AtSlice(s, p, head);
    AtSlice(s, p + |head|, body);
    ListHeadBack(s, p, |w.elems|, w.elem);
    if |w.elems| == 0 || WireOk(TypeOf(elem), w.elem) {
      if depth <= MAX_DEPTH {
        ReadElemsWire(s, p + |head|, depth + 1, w.elems, w.elem, elem, []);
      } else {
        assert !Shallow(w, depth);
      }
    }
  }

  lemma {:induction false} ReadElemsWire(s: seq<byte>, p: nat, depth: nat, ws: seq<Wire>, t: nat, elem: Type,
                                         acc: seq<Value>)
    requires forall i :: 0 <= i < |ws| ==> Legal(ws[i]) && Under(ws[i], t)
    requires |ws| == 0 || WireOk(TypeOf(elem), t)
    requires At(s, p, ElemBytes(ws, t)) && p <= |s|
    ensures Reads(ReadElems(s, p, depth, elem, |ws|, acc), ElemMeanings(ws, elem, acc), ShallowAll(ws, depth),
                  p + |ElemBytes(ws, t)|)
    decreases ws, 0
  {
    hide At, ReadValue, Wired, Shallow, Legal, Under, Meaning, Default;
    AtSlice(s, p, ElemBytes(ws, t));
    if |ws| > 0 {
      AtConcat(s, p, Wired(ws[0]), ElemBytes(ws[1..], t));
      AllTail(ws, depth);
      UnderOk(ws[0], t, elem);
      ReadWire(s, p, depth, ws[0], elem, Default(elem));
      var v := Meaning(ws[0], elem, Default(elem));
      if v.Some? && Shallow(ws[0], depth) {
        ReadElemsWire(s, p + |Wired(ws[0])|, depth, ws[1..], t, elem, acc + [v.value]);
      }
    }
  }

  lemma {:induction false} UnderOk(w: Wire, t: nat, elem: Type)
    requires Under(w, t) && WireOk(TypeOf(elem), t)
    ensures WireOk(TypeOf(elem), Code(w))
  {
  }

  lemma {:induction false} ReadEmptyWire(s: seq<byte>, p: nat, depth: nat, w: Wire, cur: Value)
    requires w.WStruct? && Legal(w) && At(s, p, Wired(w)) && p <= |s|
    ensures Reads(ReadValue(s, p, depth, Empty, cur), Meaning(w, Empty, cur), Shallow(w, depth), p + |Wired(w)|)
  {
    hide At, SkipStruct, Wired, Legal, Shallow;
    SkipStructWire(s, p, depth, w);
  }

  lemma {:induction false} ReadStructWire(s: seq<byte>, p: nat, depth: nat, w: Wire, fields: seq<Field>, cur: Value)
    requires w.WStruct? && Legal(w) && At(s, p, Wired(w)) && p <= |s|
    ensures Reads(ReadValue(s, p, depth, Struct(fields), cur), Meaning(w, Struct(fields), cur), Shallow(w, depth),
                  p + |Wired(w)|)
    decreases w, 0
  {
    hide At, ReadFields, FieldBytes, LegalFrom, ShallowFrom, Fold, DefaultMembers;
    if depth + 1 <= MAX_DEPTH {
      ReadFieldsWire(s, p, depth + 1, w.fields, 0, fields, Base(cur, fields), {});
    }
  }

  lemma {:induction false} ReadFieldsWire(s: seq<byte>, p: nat, depth: nat, tags: seq<Tag>, last: int,
                                          fields: seq<Field>, ms: seq<Option<Value>>, seen: set<nat>)
    requires LegalFrom(tags, last) && At(s, p, FieldBytes(tags, last)) && p <= |s| && |ms| == |fields|
    ensures Reads(ReadFields(s, p, depth, fields, ms, last, seen), Fold(tags, fields, ms, seen),
                  ShallowFrom(tags, depth), p + |FieldBytes(tags, last)|)
    decreases tags, 0
  {
    hide At, ReadFields, TagBytes, LegalTag, ShallowTag, TagMeaning, Known, SlotOf, Held, AllSeen;
    AtSlice(s, p, FieldBytes(tags, last));
    if |tags| == 0 {
      StopByte(s, p, depth, fields, ms, last, seen);
    } else {
      var f := tags[0];
      var q := p + |TagBytes(f, last)|;
      AtConcat(s, p, TagBytes(f, last), FieldBytes(tags[1..], f.id));
      AtSlice(s, q, FieldBytes(tags[1..], f.id));
      ReadTagWire(s, p, depth, f, last, fields, ms, seen);
      if !Known(f, fields) {
        ReadFieldsWire(s, q, depth, tags[1..], f.id, fields, ms, seen);
      } else {
        KnownSlot(f, fields);
        var i := SlotOf(fields, f.id).value;
        var v := TagMeaning(f, fields[i].ty, Held(ms[i], fields[i].ty));
        if v.Some? {
          ReadFieldsWire(s, q, depth, tags[1..], f.id, fields, ms[i := v], seen + {i});
        }
      }
    }
  }

  lemma {:induction false} KnownSlot(f: Tag, fields: seq<Field>)
    requires Known(f, fields)
    ensures SlotOf(fields, f.id).Some?
  {
  }

  lemma {:induction false} StopByte(s: seq<byte>, p: nat, depth: nat, fields: seq<Field>, ms: seq<Option<Value>>,
                                    last: int, seen: set<nat>)
    requires p < |s| && s[p] == 0 && |ms| == |fields|
    ensures ReadFields(s, p, depth, fields, ms, last, seen) ==
            if AllSeen(fields, seen) then Ok(VStruct(ms), p + 1) else Fail(MissingRequired)
  {
  }

  /** One turn of the reader's field loop. */
  lemma {:induction false} ReadTagWire(s: seq<byte>, p: nat, depth: nat, f: Tag, last: int, fields: seq<Field>,
                                       ms: seq<Option<Value>>, seen: set<nat>)
    requires LegalTag(f, last) && At(s, p, TagBytes(f, last)) && |ms| == |fields|
    ensures
      var r, q := ReadFields(s, p, depth, fields, ms, last, seen), p + |TagBytes(f, last)|;
      && p < q <= |s|
      && (Known(f, fields) ==>
          var i := SlotOf(fields, f.id).value;
          var v := TagMeaning(f, fields[i].ty, Held(ms[i], fields[i].ty));
          if v.None? then r.Fail?
          else if !ShallowTag(f, depth) then r == Fail(TooDeep)
          else r == ReadFields(s, q, depth, fields, ms[i := v], f.id, seen + {i}))
      && (!Known(f, fields) ==>
          if !ShallowTag(f, depth) then r == Fail(TooDeep)
          else r == ReadFields(s, q, depth, fields, ms, f.id, seen))
    decreases f, 0
  {
    hide At, Wired, Skip, Legal, Shallow, Head, FieldId, SkipVarint, ReadValue, Meaning, SlotOf, TagBytes, ReadFields,
         WireOk, TypeOf;
    TagParts(s, p, f, last);
    var q := FieldId(s, p + 1, s[p] / 16, last).next;
    Turn(s, p, depth, fields, ms, last, seen, f.id, q);
    if !Known(f, fields) {
      SkipTagWire(s, q, depth, f, last);
    } else {
      var i := SlotOf(fields, f.id).value;
      CodeIs(f.v, fields[i].ty);
      if f.v.WBool? {
        BoolField(s, q, f.v, depth);
        BoolMeaning(f.v, Held(ms[i], Bool));
      } else {
        ReadWire(s, q, depth, f.v, fields[i].ty, Held(ms[i], fields[i].ty));
      }
    }
  }

  lemma {:induction false} BoolMeaning(w: Wire, cur: Value)
    requires w.WBool?
    ensures Meaning(w, Bool, cur) == Some(VBool(Code(w) == 1))
  {
  }

  lemma {:induction false} Turn(s: seq<byte>, p: nat, depth: nat, fields: seq<Field>, ms: seq<Option<Value>>,
                                last: int, seen: set<nat>, id: int, q: nat)
    requires p < |s| && s[p] != 0 && FieldId(s, p + 1, s[p] / 16, last) == Ok(id, q) && |ms| == |fields|
    ensures q <= |s|
    ensures
      var t, slot := s[p] % 16, SlotOf(fields, id);
      ReadFields(s, p, depth, fields, ms, last, seen) ==
      if slot.None? || !WireOk(TypeOf(fields[slot.value].ty), t) then
        var k := Skip(s, q, t, false, depth);
        if k.Fail? then Fail(k.f) else ReadFields(s, k.next, depth, fields, ms, id, seen)
      else
        var i := slot.value;
        if fields[i].ty.Bool? then
          ReadFields(s, q, depth, fields, ms[i := Some(VBool(t == 1))], id, seen + {i})
        else
          var v := ReadValue(s, q, depth, fields[i].ty, Held(ms[i], fields[i].ty));
          if v.Fail? then Fail(v.f) else ReadFields(s, v.next, depth, fields, ms[i := Some(v.v)], id, seen + {i})
  {
    hide Skip, ReadValue, FieldId, SlotOf, WireOk, TypeOf, Default;
  }

  /** Every struct of the format under every schema: what is decoded is its meaning, exactly when it has one and nests
      within the limit, and the reader stops after its STOP byte. */
  lemma {:induction false} DecodeWire(tags: seq<Tag>, fields: seq<Field>, suffix: seq<byte>)
    requires LegalFrom(tags, 0)
    ensures Reads(Decode(FieldBytes(tags, 0) + suffix, fields), Fold(tags, fields, DefaultMembers(fields), {}),
                  ShallowFrom(tags, 0), |FieldBytes(tags, 0)|)
  {
    hide FieldBytes, Fold, ReadFields, ShallowFrom, LegalFrom, DefaultMembers;
    var s := FieldBytes(tags, 0) + suffix;
    assert At(s, 0, FieldBytes(tags, 0));
    ReadFieldsWire(s, 0, 0, tags, 0, fields, DefaultMembers(fields), {});
  }
}
