/** Which layouts make the two directions of the struct codec inverse: layout_ok (include/nanom/reflect.hpp:210-232)
    looks at one level of a struct, the laws need every level. */
module StructLayout {
  import opened Bytes
  import opened BitOps
  import opened BitFields
  import opened StructCodec

  /** layout_ok: whole bytes, non-bit members on byte boundaries, and a change of bit order between neighbours only
      there too. Nested members are not looked into. */
  predicate OneLevel(fields: seq<Kind>) {
    && Offset(fields, |fields|) % 8 == 0
    && (forall i :: 0 <= i < |fields| && !fields[i].Bits? ==> Offset(fields, i) % 8 == 0)
    && (forall i :: 0 < i < |fields| && Switches(fields, i) ==> Offset(fields, i) % 8 == 0)
  }

  predicate Switches(fields: seq<Kind>, i: nat)
    requires 0 < i < |fields|
  {
    fields[i - 1].Bits? && fields[i].Bits? && fields[i - 1].ord != fields[i].ord
  }

  /** layout_ok at every level. */
  ghost predicate LayoutOk(k: Kind) {
    match k
    case Rec(fields) => OneLevel(fields) && forall i :: 0 <= i < |fields| ==> LayoutOk(fields[i])
    case _ => Sized(k)
  }

  lemma {:induction false} LayoutSized(k: Kind)
    requires LayoutOk(k)
    ensures Sized(k)
  {
    match k
    case Rec(fields) =>
      forall i | 0 <= i < |fields| ensures Sized(fields[i]) {
        LayoutSized(fields[i]);
      }
    case _ =>
  }

  // ------------------------------------------------------------------
  // A layout that is right at every level tiles its bytes
  // ------------------------------------------------------------------

  /** The bits of a member's stretch: in its own order for a bit field. */
  predicate Span(k: Kind, off: nat, x: nat) {
    if k.Bits? then off <= Flip(x, k.ord) < off + k.n else off <= x < off + Width(k)
  }

  lemma {:induction false} WholeBytes(k: Kind)
    requires LayoutOk(k) && !k.Bits?
    ensures Width(k) % 8 == 0
  {
  }

  lemma {:induction false} LayoutAt(fields: seq<Kind>, i: nat)
    requires LayoutOk(Rec(fields)) && i < |fields|
    ensures LayoutOk(fields[i]) && Offset(fields, |fields|) % 8 == 0
    ensures !fields[i].Bits? ==> Offset(fields, i) % 8 == 0
    ensures i > 0 && Switches(fields, i) ==> Offset(fields, i) % 8 == 0
  {
  }

  lemma {:induction false} EightsAdd(a: nat, b: nat)
    ensures a % 8 == 0 ==> ((a + b) % 8 == 0 <==> b % 8 == 0)
  {
  }

  /** The order the byte before member i may be half filled in. */
  function OrderAt(fields: seq<Kind>, i: nat): Order
    requires i <= |fields|
  {
    if i > 0 && fields[i - 1].Bits? then fields[i - 1].ord else Lsb0
  }

  /** Bit x lies in the members before i of a struct at base. */
  predicate Before(fields: seq<Kind>, base: nat, i: nat, x: nat)
    requires i <= |fields|
  {
    Flip(x, OrderAt(fields, i)) < base + Offset(fields, i)
  }

  /** The bits before member i + 1 are those before member i and member i's own. */
  lemma {:induction false} BeforeNext(fields: seq<Kind>, base: nat, i: nat, x: nat)
    requires LayoutOk(Rec(fields)) && base % 8 == 0 && i < |fields|
    ensures Before(fields, base, i + 1, x) <==> Before(fields, base, i, x) || Span(fields[i], base + Offset(fields, i), x)
    ensures !(Before(fields, base, i, x) && Span(fields[i], base + Offset(fields, i), x))
  {
    hide Offset, LayoutOk, Width, Flip;
    var e, k := base + Offset(fields, i), fields[i];
    OffsetNext(fields, i);
    LayoutAt(fields, i);
    EightsAdd(base, Offset(fields, i));
    HalfByte(fields, i);
    if k.Bits? {
      BitsWidth(k);
    } else {
      WholeBytes(k);
    }
    if e % 8 == 0 {
      AlignedNext(x, e, Width(k), OrderAt(fields, i), OrderAt(fields, i + 1));
    }
  }

  /** At a byte boundary the order before does not matter. */
  lemma {:induction false} AlignedNext(x: nat, e: nat, w: nat, o: Order, o': Order)
    requires e % 8 == 0
    ensures Flip(x, o) < e <==> Flip(x, o') < e
    ensures Flip(x, o) < e <==> x < e
    ensures w % 8 == 0 ==> (Flip(x, o') < e + w <==> x < e + w)
  {
    FlipAligned(x, e, o);
    FlipAligned(x, e, o');
    if w % 8 == 0 {
      FlipAligned(x, e + w, o');
    }
  }

  lemma {:induction false} BitsWidth(k: Kind)
    requires k.Bits?
    ensures Width(k) == k.n
  {
  }

  /** A half-filled byte is followed by a bit field of the same order. */
  lemma {:induction false} HalfByte(fields: seq<Kind>, i: nat)
    requires LayoutOk(Rec(fields)) && i < |fields|
    ensures Offset(fields, i) % 8 != 0 ==> fields[i].Bits? && OrderAt(fields, i) == fields[i].ord == OrderAt(fields, i + 1)
  {
    hide LayoutOk;
    LayoutAt(fields, i);
    if i > 0 && !fields[i - 1].Bits? {
      LayoutAt(fields, i - 1);
      WholeBytes(fields[i - 1]);
      OffsetNext(fields, i - 1);
    }
  }

  /** Nothing lies before the first member; everything of the struct lies before its end. */
  lemma {:induction false} BeforeEnds(fields: seq<Kind>, base: nat, x: nat)
    requires LayoutOk(Rec(fields)) && base % 8 == 0
    ensures Before(fields, base, 0, x) <==> x < base
    ensures Before(fields, base, |fields|, x) <==> x < base + Width(Rec(fields))
  {
    hide LayoutOk;
    FlipAligned(x, base, OrderAt(fields, 0));
    WholeBytes(Rec(fields));
    EightsAdd(base, Offset(fields, |fields|));
    FlipAligned(x, base + Offset(fields, |fields|), OrderAt(fields, |fields|));
  }

  /** A member's leaves own exactly its stretch. */
  lemma {:induction false} OwnsSpan(k: Kind, off: nat, x: nat)
    requires LayoutOk(k) && (!k.Bits? ==> off % 8 == 0)
    ensures Owns(k, off, x) <==> Span(k, off, x)
    decreases k, 1, 0
  {
    hide OwnsFrom, Flip, LayoutOk;
    match k
    case Rec(fields) =>
      BeforeEnds(fields, off, x);
      OwnsFromSpan(fields, off, 0, x);
    case _ =>
  }

  lemma {:induction false} OwnsFromSpan(fields: seq<Kind>, base: nat, i: nat, x: nat)
    requires LayoutOk(Rec(fields)) && base % 8 == 0 && i <= |fields|
    ensures OwnsFrom(fields, base, i, x) <==> !Before(fields, base, i, x) && Before(fields, base, |fields|, x)
    ensures Before(fields, base, i, x) ==> Before(fields, base, |fields|, x)
    decreases Rec(fields), 0, |fields| - i
  {
    hide Owns, Before, LayoutOk, Span, Offset;
    if i < |fields| {
      LayoutAt(fields, i);
      EightsAdd(base, Offset(fields, i));
      OwnsSpan(fields[i], base + Offset(fields, i), x);
      BeforeNext(fields, base, i, x);
      OwnsFromSpan(fields, base, i + 1, x);
    }
  }

  lemma {:induction false} LayoutDisjoint(k: Kind, off: nat)
    requires LayoutOk(k) && (!k.Bits? ==> off % 8 == 0)
    ensures Disjoint(k, off)
    decreases k, 1, 0
  {
    hide DisjointFrom, LayoutOk;
    if k.Rec? {
      LayoutDisjointFrom(k.fields, off, 0);
    }
  }

  lemma {:induction false} LayoutDisjointFrom(fields: seq<Kind>, base: nat, i: nat)
    requires LayoutOk(Rec(fields)) && base % 8 == 0 && i <= |fields|
    ensures DisjointFrom(fields, base, i)
    decreases Rec(fields), 0, |fields| - i
  {
    hide Owns, OwnsFrom, Before, LayoutOk, Span, Offset, Disjoint;
    if i < |fields| {
      LayoutAt(fields, i);
      var off := base + Offset(fields, i);
      EightsAdd(base, Offset(fields, i));
      LayoutDisjoint(fields[i], off);
      forall x: nat ensures !Shared(fields, base, i, x) {
        OwnsSpan(fields[i], off, x);
        BeforeNext(fields, base, i, x);
        OwnsFromSpan(fields, base, i + 1, x);
      }
      LayoutDisjointFrom(fields, base, i + 1);
    }
  }

  /** A struct that passes layout_ok at every level satisfies both laws. */
  lemma {:induction false} LayoutLaws(fields: seq<Kind>, big: bool)
    requires LayoutOk(Rec(fields))
    ensures Sized(Rec(fields)) && Width(Rec(fields)) % 8 == 0 && Covered(fields) && Disjoint(Rec(fields), 0)
    ensures forall b: seq<byte> :: 8 * |b| == Width(Rec(fields)) ==> EmitsBack(fields, b, big)
    ensures forall v :: InRange(v, Rec(fields)) ==> ReadsBack(fields, v, big)
  {
    hide Owns, LayoutOk, Disjoint, Sized, Width, EmitsBack, ReadsBack, InRange;
    var k := Rec(fields);
    LayoutSized(k);
    WholeBytes(k);
    LayoutDisjoint(k, 0);
    forall x: nat | x < Width(k) ensures Owns(k, 0, x) {
      OwnsSpan(k, 0, x);
    }
    EmitUndoesStrct(fields, big);
    StrctUndoesEmit(fields, big);
  }

  // ------------------------------------------------------------------
  // The two laws stand or fall together
  // ------------------------------------------------------------------

  /** The n bits in a row that start at place off of the stream. */
  ghost function Row(off: nat, n: nat, ord: Order): (xs: set<nat>)
    ensures forall x: nat :: x in xs <==> off <= Flip(x, ord) < off + n
    ensures |xs| == n
  {
    if n == 0 then {}
    else
      var last := Flip(off + n - 1, ord);
      FlipTwice(off + n - 1, ord);
      assert forall x: nat :: Flip(x, ord) == off + n - 1 <==> x == last by {
        forall x: nat ensures Flip(x, ord) == off + n - 1 <==> x == last {
          FlipTwice(x, ord);
        }
      }
      Row(off, n - 1, ord) + {last}
  }

  /** The bits a member owns. */
  ghost function Owned(k: Kind, off: nat): (xs: set<nat>)
    ensures forall x: nat :: x in xs <==> Owns(k, off, x)
    decreases k, 1, 0
  {
    match k
    case Bits(n, _, ord) => Row(off, n, ord)
    case Raw(size) => Row(8 * (off / 8), 8 * size, Lsb0)
    case Scalar(size, _) => Row(8 * (off / 8), 8 * size, Lsb0)
    case Rec(fields) => OwnedFrom(fields, off, 0)
  }

  ghost function OwnedFrom(fields: seq<Kind>, base: nat, i: nat): (xs: set<nat>)
    requires i <= |fields|
    ensures forall x: nat :: x in xs <==> OwnsFrom(fields, base, i, x)
    decreases Rec(fields), 0, |fields| - i
  {
    if i == |fields| then {} else Owned(fields[i], base + Offset(fields, i)) + OwnedFrom(fields, base, i + 1)
  }

  lemma {:induction false} UnionSize(a: set<nat>, b: set<nat>)
    ensures |a + b| <= |a| + |b| && (|a + b| == |a| + |b| <==> a !! b)
  {
    assert |a + b| + |a * b| == |a| + |b|;
    assert forall x :: x in a && x in b <==> x in a * b;
  }

  /** A member owns at most as many bits as it is wide, and as many exactly when its leaves share none. */
  lemma {:induction false} OwnedSize(k: Kind, off: nat)
    ensures |Owned(k, off)| <= Width(k) && (|Owned(k, off)| == Width(k) <==> Disjoint(k, off))
    decreases k, 1, 0
  {
    hide OwnedFrom, DisjointFrom, Offset;
    match k
    case Rec(fields) =>
      OwnedFromSize(fields, off, 0);
      OffsetNone(fields);
    case _ =>
  }

  lemma {:induction false} OffsetNone(fields: seq<Kind>)
    ensures Offset(fields, 0) == 0
  {
  }

  lemma {:induction false} OwnedFromSize(fields: seq<Kind>, base: nat, i: nat)
    requires i <= |fields|
    ensures Offset(fields, i) <= Offset(fields, |fields|)
    ensures
      var n, w := |OwnedFrom(fields, base, i)|, Offset(fields, |fields|) - Offset(fields, i);
      n <= w && (n == w <==> DisjointFrom(fields, base, i))
    decreases Rec(fields), 0, |fields| - i
  {
    hide Owned, Disjoint, Offset, Owns, OwnsFrom;
    if i < |fields| {
      var off := base + Offset(fields, i);
      OwnedSize(fields[i], off);
      OwnedFromSize(fields, base, i + 1);
      OffsetNext(fields, i);
      var a, b := Owned(fields[i], off), OwnedFrom(fields, base, i + 1);
      UnionSize(a, b);
      assert a !! b <==> Apart(fields, base, i) by {
        assert forall x: nat :: Shared(fields, base, i, x) <==> x in a && x in b;
      }
    }
  }

  ghost function Below(n: nat): (xs: set<nat>)
    ensures |xs| == n && forall x: nat :: x in xs <==> x < n
  {
    if n == 0 then {} else Below(n - 1) + {n - 1}
  }

  lemma {:induction false} SubsetSize(a: set<nat>, b: set<nat>)
    requires a <= b
    ensures |a| <= |b| && (|a| == |b| <==> a == b)
  {
    assert b == a + (b - a);
    assert |b| == |a| + |b - a|;
  }

  /** The leaves are together as wide as the struct, so they cover every bit exactly when they share none. */
  lemma {:induction false} CoveredIffDisjoint(fields: seq<Kind>)
    requires Sized(Rec(fields)) && Width(Rec(fields)) % 8 == 0
    ensures Covered(fields) <==> Disjoint(Rec(fields), 0)
  {
    hide Owns, Disjoint, Sized, Width, Owned, Filled;
    var k := Rec(fields);
    var all, own := Below(Width(k)), Owned(k, 0);
    var buf := Filled(Width(k) / 8, false);
    forall x | x in own ensures x in all {
      OwnedInside(k, buf, 0, x);
    }
    OwnedSize(k, 0);
    SubsetSize(own, all);
    assert Covered(fields) <==> all <= own;
  }

  /** Either every byte string and every value come back, or some of both do not. */
  lemma {:induction false} BothOrNeither(fields: seq<Kind>, big: bool)
    requires Sized(Rec(fields)) && Width(Rec(fields)) % 8 == 0
    ensures (forall b: seq<byte> :: 8 * |b| == Width(Rec(fields)) ==> EmitsBack(fields, b, big)) <==>
            (forall v :: InRange(v, Rec(fields)) ==> ReadsBack(fields, v, big))
  {
    hide Owns, Disjoint, Sized, Width, EmitsBack, ReadsBack, InRange, Covered;
    EmitUndoesStrct(fields, big);
    StrctUndoesEmit(fields, big);
    CoveredIffDisjoint(fields);
  }

  // ------------------------------------------------------------------
  // What layout_ok lets through
  // ------------------------------------------------------------------

  /** A struct of one msb0 nibble, then an lsb0 nibble. */
  function SharedNibble(): (fields: seq<Kind>) {
    [Rec([Bits(4, false, Msb0)]), Bits(4, false, Lsb0)]
  }

  function Nibbles(a: nat, b: nat): (v: Val) {
    Items([Items([Num(a)]), Num(b)])
  }

  /** layout_ok accepts it, the two nibbles are the same four bits, and every value comes back with the second one
      twice. */
  lemma {:induction false} NestedHalfByte(a: nat, b: nat, big: bool)
    requires a < 16 && b < 16
    ensures
      var fields := SharedNibble();
      && OneLevel(fields) && Sized(Rec(fields)) && Width(Rec(fields)) == 8 && InRange(Nibbles(a, b), Rec(fields))
      && Strct(fields, EmitStruct(fields, Nibbles(a, b), big), big) == Nibbles(b, b)
  {
    hide WriteBits, ReadBits, Pow2;
    assert Pow2(4) == 16 by { Pow2Four(); }
    var fields := SharedNibble();
    var inner := [Bits(4, false, Msb0)];
    assert Offset(inner, 1) == 4 && Offset(fields, 1) == 4 && Offset(fields, 2) == 8;
    var one := WriteBits([0], 0, 4, a, Msb0);
    var t := WriteBits(one, 4, 4, b, Lsb0);
    assert Filled(1, false) == [0];
    var vs := [Items([Num(a)]), Num(b)];
    assert EmitFrom(inner, [Num(a)], [0], 0, big, 0) == EmitFrom(inner, [Num(a)], one, 0, big, 1) == one;
    assert EmitFrom(fields, vs, [0], 0, big, 0) == EmitFrom(fields, vs, one, 0, big, 1) == EmitFrom(fields, vs, t, 0, big, 2) == t;
    SameNibble(one, b);
    ReadOfWrite(one, 4, 4, b, Lsb0);
    assert AssignFrom(inner, t, 0, big, 0) == [Num(b)] + AssignFrom(inner, t, 0, big, 1) == [Num(b)];
    assert AssignFrom(fields, t, 0, big, 1) == [Num(b)] + AssignFrom(fields, t, 0, big, 2) == [Num(b)];
    assert AssignFrom(fields, t, 0, big, 0) == [Items([Num(b)])] + AssignFrom(fields, t, 0, big, 1);
  }

  lemma {:induction false} Pow2Four()
    ensures Pow2(4) == 16
  {
  }

  /** The first msb0 nibble of a byte is its second lsb0 nibble. */
  lemma {:induction false} SameNibble(s: seq<byte>, b: nat)
    requires |s| == 1 && b < Pow2(4)
    ensures ReadBits(WriteBits(s, 4, 4, b, Lsb0), 0, 4, Msb0) == b
  {
    hide WriteBits, ReadBits, Pow2, BitOf, Bit;
    var t := WriteBits(s, 4, 4, b, Lsb0);
    forall k | 0 <= k < 4 ensures BitOf(ReadBits(t, 0, 4, Msb0), k) == BitOf(b, k) {
      ReadBit(t, 0, 4, Msb0, 3 - k);
      WrittenBit(s, 4, 4, b, Lsb0, 4 + k);
    }
    BitExtBelow(ReadBits(t, 0, 4, Msb0), b, 4);
  }
}
