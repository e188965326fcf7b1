/** Assembling nested columns from repetition and definition levels: include/nanom/values.hpp:201-257. */
module Dremel {
  import opened Bytes
  import opened BitOps
  import opened BitFields

  const INT32_MAX := 0x7FFF_FFFF

  /** dremel_node: the enclosing list's levels, the level at which this node is present, and for a list the levels
      of a first and of a further element. */
  datatype Node = Node(rEnc: nat, dEnc: nat, defPresent: nat, defElem: nat, repElem: nat)

  datatype Entry = Entry(rep: nat, def: nat)

  // ------------------------------------------------------------------
  // What the levels say
  // ------------------------------------------------------------------

  /** The entry starts a slot of the node. */
  predicate IsSlot(e: Entry, nd: Node) {
    e.rep <= nd.rEnc && e.def >= nd.dEnc
  }

  /** The entry is a further element of the list the slot before it holds. */
  predicate Continues(e: Entry, nd: Node) {
    e.rep > nd.rEnc && e.rep == nd.repElem
  }

  predicate IsElem(e: Entry, nd: Node) {
    (IsSlot(e, nd) && e.def >= nd.defElem) || Continues(e, nd)
  }

  /** How many of the first n entries are slots, null slots, elements. */
  function Slots(es: seq<Entry>, nd: Node, n: nat): (k: nat)
    requires n <= |es|
    ensures k <= n
  {
    if n == 0 then 0 else Slots(es, nd, n - 1) + (if IsSlot(es[n - 1], nd) then 1 else 0)
  }

  function Nulls(es: seq<Entry>, nd: Node, n: nat): (k: nat)
    requires n <= |es|
  {
    if n == 0 then 0
    else Nulls(es, nd, n - 1) + (if IsSlot(es[n - 1], nd) && es[n - 1].def < nd.defPresent then 1 else 0)
  }

  function Elems(es: seq<Entry>, nd: Node, n: nat): (k: nat)
    requires n <= |es|
  {
    if n == 0 then 0 else Elems(es, nd, n - 1) + (if IsElem(es[n - 1], nd) then 1 else 0)
  }

  /** After n entries, the current slot holds a non-empty list. */
  predicate Open(es: seq<Entry>, nd: Node, n: nat)
    requires n <= |es|
  {
    n > 0 &&
    if es[n - 1].rep <= nd.rEnc then IsSlot(es[n - 1], nd) && es[n - 1].def >= nd.defElem else Open(es, nd, n - 1)
  }

  /** The levels make a list column of `expected` slots: the right number of slots, no element without a list to
      continue, offsets that fit int32. */
  ghost predicate ListOk(es: seq<Entry>, nd: Node, expected: int) {
    && Slots(es, nd, |es|) == expected && Elems(es, nd, |es|) <= INT32_MAX
    && forall i :: 0 <= i < |es| && Continues(es[i], nd) ==> Open(es, nd, i)
  }

  lemma {:induction false} Monotone(es: seq<Entry>, nd: Node, i: nat, n: nat)
    requires i <= n <= |es|
    ensures Slots(es, nd, i) <= Slots(es, nd, n) && Elems(es, nd, i) <= Elems(es, nd, n)
    decreases n - i
  {
    if i < n {
      Monotone(es, nd, i, n - 1);
    }
  }

  lemma {:induction false} SlotsStrict(es: seq<Entry>, nd: Node, i: nat, j: nat)
    requires i < j <= |es| && IsSlot(es[i], nd)
    ensures Slots(es, nd, i) < Slots(es, nd, j)
  {
    Monotone(es, nd, i + 1, j);
  }

  /** Every slot number below the count is some entry's. */
  lemma {:induction false} SlotEntry(es: seq<Entry>, nd: Node, n: nat, k: nat) returns (i: nat)
    requires n <= |es| && k < Slots(es, nd, n)
    ensures i < n && IsSlot(es[i], nd) && Slots(es, nd, i) == k
    decreases n
  {
    if IsSlot(es[n - 1], nd) && Slots(es, nd, n - 1) == k {
      i := n - 1;
    } else {
      i := SlotEntry(es, nd, n - 1, k);
    }
  }

  // ------------------------------------------------------------------
  // Validity bits
  // ------------------------------------------------------------------

  /** How many of the first n bits are set. */
  function Popcount(s: seq<byte>, n: nat): (k: nat)
    requires n <= 8 * |s|
  {
    if n == 0 then 0 else Popcount(s, n - 1) + (if Bit(s, n - 1) then 1 else 0)
  }

  method SetBit(bm: array<byte>, x: nat)
    requires x < 8 * bm.Length
    modifies bm
    ensures forall y :: 0 <= y < 8 * bm.Length ==> Bit(bm[..], y) == (y == x || old(Bit(bm[..], y)))
  {
    hide BitOf, Or, Pow2;
    ghost var s := bm[..];
    SetByte(bm[x / 8], x % 8);
    bm[x / 8] := Or(bm[x / 8], Pow2(x % 8));
    forall y | 0 <= y < 8 * bm.Length ensures Bit(bm[..], y) == (y == x || Bit(s, y)) {
      OrBit(s[x / 8], Pow2(x % 8), y % 8);
      PowBit(x % 8, y % 8);
    }
  }

  lemma {:induction false} PowBit(m: nat, k: nat)
    ensures BitOf(Pow2(m), k) <==> k == m
    decreases m
  {
    if m == 0 {
      if k > 0 {
        BitOfZero(k - 1);
      }
    } else if k > 0 {
      PowBit(m - 1, k - 1);
    }
  }

  lemma {:induction false} SetByte(b: byte, k: nat)
    requires k < 8
    ensures Or(b, Pow2(k)) < 256
  {
    hide BitOf, Or, Pow2;
    Pow2Values();
    var r := Or(b, Pow2(k));
    forall j: nat ensures BitOf(r % Pow2(8), j) == BitOf(r, j) {
      LowBit(r, 8, j);
      OrBit(b, Pow2(k), j);
      PowBit(k, j);
      if j >= 8 {
        HighBit(b, 8, j);
      }
    }
    BitExt(r % Pow2(8), r);
  }

  // ------------------------------------------------------------------
  // What is written
  // ------------------------------------------------------------------

  /** The offset of each slot among the first n entries is the number of elements before it. */
  ghost predicate OffsetsOk(offsets: seq<int>, es: seq<Entry>, nd: Node, n: nat)
    requires n <= |es|
  {
    forall j :: 0 <= j < n && IsSlot(es[j], nd) ==>
      Slots(es, nd, j) < |offsets| && offsets[Slots(es, nd, j)] == Elems(es, nd, j)
  }

  /** The bit of each slot among the first n entries says whether it is present; the bits after them are clear. */
  ghost predicate MarksOk(bm: seq<byte>, es: seq<Entry>, nd: Node, n: nat)
    requires n <= |es|
  {
    && (forall j :: 0 <= j < n && IsSlot(es[j], nd) ==>
          Slots(es, nd, j) < 8 * |bm| && (Bit(bm, Slots(es, nd, j)) <==> es[j].def >= nd.defPresent))
    && forall x :: Slots(es, nd, n) <= x < 8 * |bm| ==> !Bit(bm, x)
  }

  ghost predicate NoOrphans(es: seq<Entry>, nd: Node, n: nat)
    requires n <= |es|
  {
    forall i :: 0 <= i < n && Continues(es[i], nd) ==> Open(es, nd, i)
  }

  /** Null slots and set bits account for every slot. */
  lemma {:induction false} MarksCount(bm: seq<byte>, es: seq<Entry>, nd: Node, n: nat, m: nat)
    requires m <= n <= |es| && MarksOk(bm, es, nd, n) && Slots(es, nd, n) <= 8 * |bm|
    ensures Slots(es, nd, m) <= 8 * |bm| && Nulls(es, nd, m) + Popcount(bm, Slots(es, nd, m)) == Slots(es, nd, m)
    decreases m
  {
    hide Bit;
    Monotone(es, nd, m, n);
    if m > 0 {
      MarksCount(bm, es, nd, n, m - 1);
    }
  }

  /** Without a slot there is no element, so the first offset is 0. */
  lemma {:induction false} NothingBeforeFirst(es: seq<Entry>, nd: Node, n: nat)
    requires n <= |es| && NoOrphans(es, nd, n) && Slots(es, nd, n) == 0
    ensures Elems(es, nd, n) == 0 && !Open(es, nd, n)
    decreases n
  {
    if n > 0 {
      NothingBeforeFirst(es, nd, n - 1);
    }
  }

  /** Offsets start at 0, never decrease and end at the number of elements. */
  lemma {:induction false} OffsetsShape(offsets: seq<int>, es: seq<Entry>, nd: Node, k: nat)
    requires OffsetsOk(offsets, es, nd, |es|) && NoOrphans(es, nd, |es|)
    requires |offsets| > Slots(es, nd, |es|) && offsets[Slots(es, nd, |es|)] == Elems(es, nd, |es|)
    requires k <= Slots(es, nd, |es|)
    ensures k == 0 ==> offsets[k] == 0
    ensures k < Slots(es, nd, |es|) ==> offsets[k] <= offsets[k + 1]
  {
    hide Slots, Elems, IsSlot, Open, Continues;
    var n := |es|;
    if k < Slots(es, nd, n) {
      var i := SlotEntry(es, nd, n, k);
      if k == 0 {
        assert NoOrphans(es, nd, i);
        NothingBeforeFirst(es, nd, i);
      }
      if k + 1 < Slots(es, nd, n) {
        var j := SlotEntry(es, nd, n, k + 1);
        if j < i {
          Monotone(es, nd, j, i);
        }
        Monotone(es, nd, i, j);
      } else {
        Monotone(es, nd, i, n);
      }
    } else if k == 0 {
      NothingBeforeFirst(es, nd, n);
    }
  }

  // ------------------------------------------------------------------
  // The kernels
  // ------------------------------------------------------------------

  ghost predicate AllClear(bm: seq<byte>) {
    forall x :: 0 <= x < 8 * |bm| ==> !Bit(bm, x)
  }

  /** One slot more among the marks. */
  lemma {:induction false} MarksMore(bm: seq<byte>, bm': seq<byte>, es: seq<Entry>, nd: Node, i: nat)
    requires i < |es| && MarksOk(bm, es, nd, i) && |bm'| == |bm|
    requires !IsSlot(es[i], nd) ==> bm' == bm
    requires IsSlot(es[i], nd) ==> Slots(es, nd, i) < 8 * |bm|
    requires IsSlot(es[i], nd) ==> forall y :: 0 <= y < 8 * |bm| ==>
      Bit(bm', y) == ((y == Slots(es, nd, i) && es[i].def >= nd.defPresent) || Bit(bm, y))
    ensures MarksOk(bm', es, nd, i + 1)
  {
    hide Bit;
    forall j | 0 <= j < i + 1 && IsSlot(es[j], nd)
      ensures Slots(es, nd, j) < 8 * |bm'| && (Bit(bm', Slots(es, nd, j)) <==> es[j].def >= nd.defPresent)
    {
      if j < i && IsSlot(es[i], nd) {
        SlotsStrict(es, nd, j, i);
      }
    }
  }

  /** struct_slots (values.hpp:209-223): accepts exactly the expected number of slots. */
  method StructSlots(es: seq<Entry>, nd: Node, expected: int, validity: array<byte>) returns (ok: bool, nulls: nat)
    requires expected <= 8 * validity.Length && AllClear(validity[..])
    modifies validity
    ensures ok <==> Slots(es, nd, |es|) == expected
    ensures ok ==> MarksOk(validity[..], es, nd, |es|) && nulls == Nulls(es, nd, |es|)
    ensures ok ==> nulls + Popcount(validity[..], expected) == expected
  {
    hide MarksOk, Bit;
    var slots := 0;
    nulls := 0;
    MarksNone(validity[..], es, nd);
    for i := 0 to |es|
      invariant slots == Slots(es, nd, i) && nulls == Nulls(es, nd, i) && (slots == 0 || slots <= expected)
      invariant MarksOk(validity[..], es, nd, i)
    {
      ghost var bm := validity[..];
      if es[i].rep <= nd.rEnc && es[i].def >= nd.dEnc {
        if slots >= expected {
          SlotsStrict(es, nd, i, |es|);
          return false, nulls;
        }
        if es[i].def >= nd.defPresent {
          SetBit(validity, slots);
        } else {
          nulls := nulls + 1;
        }
        slots := slots + 1;
      }
      MarksMore(bm, validity[..], es, nd, i);
    }
    if slots != expected {
      return false, nulls;
    }
    MarksCount(validity[..], es, nd, |es|, |es|);
    ok := true;
  }

  lemma {:induction false} MarksNone(bm: seq<byte>, es: seq<Entry>, nd: Node)
    requires AllClear(bm)
    ensures MarksOk(bm, es, nd, 0)
  {
  }

  lemma {:induction false} OffsetsMore(offsets: seq<int>, offsets': seq<int>, es: seq<Entry>, nd: Node, i: nat)
    requires i < |es| && OffsetsOk(offsets, es, nd, i) && |offsets'| == |offsets|
    requires !IsSlot(es[i], nd) ==> offsets' == offsets
    requires IsSlot(es[i], nd) ==> Slots(es, nd, i) < |offsets| && offsets' == offsets[Slots(es, nd, i) := Elems(es, nd, i)]
    ensures OffsetsOk(offsets', es, nd, i + 1)
  {
    hide Slots, Elems, IsSlot;
    forall j | 0 <= j < i + 1 && IsSlot(es[j], nd)
      ensures Slots(es, nd, j) < |offsets'| && offsets'[Slots(es, nd, j)] == Elems(es, nd, j)
    {
      if j < i && IsSlot(es[i], nd) {
        SlotsStrict(es, nd, j, i);
      }
    }
  }

  /** list_slots (values.hpp:228-257). */
  method ListSlots(es: seq<Entry>, nd: Node, expected: int, offsets: array<int>, validity: array<byte>)
    returns (ok: bool, nulls: nat, elements: nat)
    requires expected < offsets.Length && expected <= 8 * validity.Length && AllClear(validity[..])
    modifies offsets, validity
    ensures ok <==> ListOk(es, nd, expected)
    ensures ok ==> elements == Elems(es, nd, |es|) && nulls == Nulls(es, nd, |es|)
    ensures ok ==> OffsetsOk(offsets[..], es, nd, |es|) && MarksOk(validity[..], es, nd, |es|)
    ensures ok ==> offsets[0] == 0 && offsets[expected] == elements
    ensures ok ==> forall k :: 0 <= k < expected ==> offsets[k] <= offsets[k + 1]
    ensures ok ==> nulls + Popcount(validity[..], expected) == expected
  {
    hide MarksOk, OffsetsOk, Bit, NoOrphans, Open;
    var slots, elems, open := 0, 0, false;
    nulls, elements := 0, 0;
    ListStart(validity[..], offsets[..], es, nd);
    for i := 0 to |es|
      invariant slots == Slots(es, nd, i) && nulls == Nulls(es, nd, i) && (slots == 0 || slots <= expected)
      invariant elems == Elems(es, nd, i) && elems <= INT32_MAX && open == Open(es, nd, i) && NoOrphans(es, nd, i)
      invariant MarksOk(validity[..], es, nd, i) && OffsetsOk(offsets[..], es, nd, i)
    {
      ghost var bm, offs := validity[..], offsets[..];
      OpenNext(es, nd, i);
      Monotone(es, nd, i + 1, |es|);
      if es[i].rep <= nd.rEnc {
        open := false;
        if es[i].def >= nd.dEnc {
          if slots >= expected {
            SlotsStrict(es, nd, i, |es|);
            return false, nulls, elements;
          }
          offsets[slots] := elems;
          if es[i].def >= nd.defPresent {
            SetBit(validity, slots);
          } else {
            nulls := nulls + 1;
          }
          slots := slots + 1;
          if es[i].def >= nd.defElem {
            open := true;
            elems := elems + 1;
          }
        }
      } else if es[i].rep == nd.repElem {
        if !open {
          return false, nulls, elements;
        }
        elems := elems + 1;
      }
      if elems > INT32_MAX {
        return false, nulls, elements;
      }
      MarksMore(bm, validity[..], es, nd, i);
      OffsetsMore(offs, offsets[..], es, nd, i);
    }
    if slots != expected {
      return false, nulls, elements;
    }
    ghost var offs := offsets[..];
    offsets[slots] := elems;
    elements := elems;
    OffsetsLast(offs, offsets[..], es, nd);
    OrphanFree(es, nd);
    forall k | 0 <= k <= expected
      ensures (k == 0 ==> offsets[..][k] == 0) && (k < expected ==> offsets[..][k] <= offsets[..][k + 1])
    {
      OffsetsShape(offsets[..], es, nd, k);
    }
    MarksCount(validity[..], es, nd, |es|, |es|);
    assert offsets[..][0] == 0;
    forall k | 0 <= k < expected ensures offsets[k] <= offsets[k + 1] {
      assert offsets[..][k] <= offsets[..][k + 1];
    }
    ok := true;
  }

  lemma {:induction false} ListStart(bm: seq<byte>, offsets: seq<int>, es: seq<Entry>, nd: Node)
    requires AllClear(bm)
    ensures MarksOk(bm, es, nd, 0) && OffsetsOk(offsets, es, nd, 0) && NoOrphans(es, nd, 0) && !Open(es, nd, 0)
  {
  }

  lemma {:induction false} OpenNext(es: seq<Entry>, nd: Node, i: nat)
    requires i < |es|
    ensures Open(es, nd, i + 1) ==
            if es[i].rep <= nd.rEnc then IsSlot(es[i], nd) && es[i].def >= nd.defElem else Open(es, nd, i)
    ensures NoOrphans(es, nd, i + 1) <==> NoOrphans(es, nd, i) && (Continues(es[i], nd) ==> Open(es, nd, i))
    ensures Continues(es[i], nd) && !Open(es, nd, i) ==> forall expected :: !ListOk(es, nd, expected)
  {
  }

  lemma {:induction false} OrphanFree(es: seq<Entry>, nd: Node)
    requires NoOrphans(es, nd, |es|)
    ensures Elems(es, nd, |es|) <= INT32_MAX ==> ListOk(es, nd, Slots(es, nd, |es|))
  {
  }

  lemma {:induction false} OffsetsLast(offsets: seq<int>, offsets': seq<int>, es: seq<Entry>, nd: Node)
    requires OffsetsOk(offsets, es, nd, |es|) && Slots(es, nd, |es|) < |offsets|
    requires offsets' == offsets[Slots(es, nd, |es|) := Elems(es, nd, |es|)]
    ensures OffsetsOk(offsets', es, nd, |es|)
  {
    forall j | 0 <= j < |es| && IsSlot(es[j], nd)
      ensures Slots(es, nd, j) < |offsets'| && offsets'[Slots(es, nd, j)] == Elems(es, nd, j)
    {
      SlotsStrict(es, nd, j, |es|);
    }
  }

  // ------------------------------------------------------------------
  // A list and its element struct
  // ------------------------------------------------------------------

  /** Entries are slots of the element struct when they are elements of the list, but for continuations whose
      definition level stops short. */
  lemma {:induction false} ChildSlots(es: seq<Entry>, list: Node, child: Node, n: nat)
    requires n <= |es| && list.repElem == list.rEnc + 1 && list.defElem >= list.dEnc
    requires child.rEnc == list.repElem && child.dEnc == list.defElem
    ensures Slots(es, child, n) <= Elems(es, list, n)
    ensures Slots(es, child, n) == Elems(es, list, n) <==>
            forall i :: 0 <= i < n && Continues(es[i], list) ==> es[i].def >= list.defElem
    decreases n
  {
    if n > 0 {
      ChildSlots(es, list, child, n - 1);
    }
  }

  /** So the element struct accepts the list's element count exactly when every continuation entry has the
      element's definition level. */
  lemma {:induction false} ChildAccepts(es: seq<Entry>, list: Node, child: Node, expected: int)
    requires list.repElem == list.rEnc + 1 && list.defElem >= list.dEnc
    requires child.rEnc == list.repElem && child.dEnc == list.defElem && ListOk(es, list, expected)
    ensures Slots(es, child, |es|) == Elems(es, list, |es|) <==>
            forall i :: 0 <= i < |es| && Continues(es[i], list) ==> es[i].def >= list.defElem
  {
    ChildSlots(es, list, child, |es|);
  }
}
