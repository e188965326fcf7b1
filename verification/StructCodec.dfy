/** Fixed-layout structs with bit fields: include/nanom/reflect.hpp:196-363 and include/nanom/emit.hpp:115-167. An
    array is the struct of its elements; floating-point members are their bit patterns. */
module StructCodec {
  import opened Bytes
  import opened BitOps
  import opened BitFields
  import opened Leb128

  /** Member types: ubits / ibits, be<> / le<> (kept as wire bytes), native scalars, nested structs. */
  datatype Kind =
    | Bits(n: nat, signed: bool, ord: Order)
    | Raw(size: nat)
    | Scalar(size: nat, signed: bool)
    | Rec(fields: seq<Kind>)

  datatype Val = Num(n: int) | Blob(b: seq<byte>) | Items(vs: seq<Val>)

  // ------------------------------------------------------------------
  // Layout
  // ------------------------------------------------------------------

  /** wire<F>::bits. */
  function Width(k: Kind): (w: nat)
    decreases k, 1, 0
  {
    match k
    case Bits(n, _, _) => n
    case Raw(size) => 8 * size
    case Scalar(size, _) => 8 * size
    case Rec(fields) => Offset(fields, |fields|)
  }

  /** field_bit_offsets: where member i starts. */
  function Offset(fields: seq<Kind>, i: nat): (o: nat)
    requires i <= |fields|
    decreases Rec(fields), 0, i
  {
    if i == 0 then 0 else Offset(fields, i - 1) + Width(fields[i - 1])
  }

  /** What the member types themselves guarantee, at every level. */
  ghost predicate Sized(k: Kind) {
    match k
    case Bits(n, signed, _) => 1 <= n <= 64
    case Raw(_) => true
    case Scalar(size, _) => 1 <= size <= 8
    case Rec(fields) => forall i :: 0 <= i < |fields| ==> Sized(fields[i])
  }

  /** The value may stand in the member. */
  ghost predicate InRange(v: Val, k: Kind)
    decreases k
  {
    match k
    case Bits(n, signed, _) => v.Num? && FitsWidth(v.n, n, signed)
    case Raw(size) => v.Blob? && |v.b| == size
    case Scalar(size, signed) => v.Num? && FitsWidth(v.n, 8 * size, signed)
    case Rec(fields) => v.Items? && |v.vs| == |fields| && forall i :: 0 <= i < |fields| ==> InRange(v.vs[i], fields[i])
  }

  ghost predicate FitsWidth(n: int, w: nat, signed: bool) {
    if signed then w >= 1 && IsSigned(n, w) else 0 <= n < Pow2(w)
  }

  function FromRaw(u: nat, w: nat, signed: bool): (n: int)
    requires u < Pow2(w) && w >= 1
  {
    if signed then ToSigned(u, w) else u
  }

  function ToRaw(n: int, w: nat, signed: bool): (u: nat)
    requires FitsWidth(n, w, signed)
    ensures u < Pow2(w)
  {
    if signed then ToUnsigned(n, w) else n
  }

  lemma {:induction false} RawBack(n: int, w: nat, signed: bool)
    requires w >= 1 && FitsWidth(n, w, signed)
    ensures FromRaw(ToRaw(n, w, signed), w, signed) == n
  {
  }

  lemma {:induction false} RawThere(u: nat, w: nat, signed: bool)
    requires w >= 1 && u < Pow2(w)
    ensures FitsWidth(FromRaw(u, w, signed), w, signed) && ToRaw(FromRaw(u, w, signed), w, signed) == u
  {
  }

  // ------------------------------------------------------------------
  // Reading and writing
  // ------------------------------------------------------------------

  /** A scalar in the struct's byte order. */
  function UintOf(b: seq<byte>, big: bool): nat {
    if big then BeNat(b) else LeNat(b)
  }

  function UintBytes(u: nat, size: nat, big: bool): (b: seq<byte>)
    ensures |b| == size
  {
    if big then BeBytes(u, size) else LeBytes(u, size)
  }

  lemma {:induction false} UintBound(b: seq<byte>, big: bool)
    ensures UintOf(b, big) < Pow2(8 * |b|)
  {
    BeNatBound(b);
    LeNatBound(b);
  }

  /** The member lies inside the buffer; nothing is said of its alignment. */
  ghost predicate Fits(k: Kind, s: seq<byte>, off: nat) {
    Sized(k) && off + Width(k) <= 8 * |s|
  }

  lemma {:induction false} OffsetNext(fields: seq<Kind>, i: nat)
    requires i < |fields|
    ensures Offset(fields, i + 1) == Offset(fields, i) + Width(fields[i])
  {
  }

  lemma {:induction false} OffsetGrows(fields: seq<Kind>, i: nat, j: nat)
    requires i <= j <= |fields|
    ensures Offset(fields, i) <= Offset(fields, j)
    decreases j - i
  {
    if i < j {
      OffsetGrows(fields, i, j - 1);
    }
  }

  /** Member i of a struct that fits, fits. */
  lemma {:induction false} FieldFits(fields: seq<Kind>, s: seq<byte>, base: nat, i: nat)
    requires Fits(Rec(fields), s, base) && i < |fields|
    ensures Fits(fields[i], s, base + Offset(fields, i))
  {
    hide Offset;
    OffsetGrows(fields, i + 1, |fields|);
    OffsetNext(fields, i);
  }

  /** assign_field. */
  function Assign(k: Kind, s: seq<byte>, off: nat, big: bool): (v: Val)
    requires Fits(k, s, off)
    decreases k, 1, 0
  {
    match k
    case Bits(n, signed, ord) => Num(FromRaw(ReadBits(s, off, n, ord), n, signed))
    case Raw(size) => Blob(s[off / 8..off / 8 + size])
    case Scalar(size, signed) =>
      UintBound(s[off / 8..off / 8 + size], big);
      Num(FromRaw(UintOf(s[off / 8..off / 8 + size], big), 8 * size, signed))
    case Rec(fields) => Items(AssignFrom(fields, s, off, big, 0))
  }

  function AssignFrom(fields: seq<Kind>, s: seq<byte>, base: nat, big: bool, i: nat): (vs: seq<Val>)
    requires Fits(Rec(fields), s, base) && i <= |fields|
    ensures |vs| == |fields| - i
    decreases Rec(fields), 0, |fields| - i
  {
    if i == |fields| then []
    else
      FieldFits(fields, s, base, i);
      [Assign(fields[i], s, base + Offset(fields, i), big)] + AssignFrom(fields, s, base, big, i + 1)
  }

  /** Bytes written over a slice. */
  function Patch(s: seq<byte>, at: nat, bytes: seq<byte>): (t: seq<byte>)
    requires at + |bytes| <= |s|
    ensures |t| == |s|
  {
    s[..at] + bytes + s[at + |bytes|..]
  }

  /** emit_field. */
  function Emit(k: Kind, v: Val, s: seq<byte>, off: nat, big: bool): (t: seq<byte>)
    requires Fits(k, s, off) && InRange(v, k)
    ensures |t| == |s|
    decreases k, 1, 0
  {
    match k
    case Bits(n, signed, ord) => WriteBits(s, off, n, ToRaw(v.n, n, signed), ord)
    case Raw(size) => Patch(s, off / 8, v.b)
    case Scalar(size, signed) => Patch(s, off / 8, UintBytes(ToRaw(v.n, 8 * size, signed), size, big))
    case Rec(fields) => EmitFrom(fields, v.vs, s, off, big, 0)
  }

  function EmitFrom(fields: seq<Kind>, vs: seq<Val>, s: seq<byte>, base: nat, big: bool, i: nat): (t: seq<byte>)
    requires Fits(Rec(fields), s, base) && InRange(Items(vs), Rec(fields)) && i <= |fields|
    ensures |t| == |s|
    decreases Rec(fields), 0, |fields| - i
  {
    if i == |fields| then s
    else
      FieldFits(fields, s, base, i);
      EmitFrom(fields, vs, Emit(fields[i], vs[i], s, base + Offset(fields, i), big), base, big, i + 1)
  }

  // ------------------------------------------------------------------
  // Which bits a member owns
  // ------------------------------------------------------------------

  /** Bit x belongs to a member of this kind at off: byte members start in the byte off lies in. */
  predicate Owns(k: Kind, off: nat, x: nat)
    decreases k, 1, 0
  {
    match k
    case Bits(n, _, ord) => off <= Flip(x, ord) < off + n
    case Raw(size) => off / 8 <= x / 8 < off / 8 + size
    case Scalar(size, _) => off / 8 <= x / 8 < off / 8 + size
    case Rec(fields) => OwnsFrom(fields, off, 0, x)
  }

  /** It belongs to one of the members from i on. */
  predicate OwnsFrom(fields: seq<Kind>, base: nat, i: nat, x: nat)
    requires i <= |fields|
    decreases Rec(fields), 0, |fields| - i
  {
    i < |fields| && (Owns(fields[i], base + Offset(fields, i), x) || OwnsFrom(fields, base, i + 1, x))
  }

  lemma {:induction false} OwnedBy(fields: seq<Kind>, base: nat, i: nat, j: nat, x: nat)
    requires i <= j < |fields| && Owns(fields[j], base + Offset(fields, j), x)
    ensures OwnsFrom(fields, base, i, x)
    decreases j - i
  {
    hide Owns;
    if i < j {
      OwnedBy(fields, base, i + 1, j, x);
    }
  }

  /** No bit belongs to two leaves. */
  ghost predicate Disjoint(k: Kind, off: nat)
    decreases k, 1, 0
  {
    k.Rec? ==> DisjointFrom(k.fields, off, 0)
  }

  ghost predicate DisjointFrom(fields: seq<Kind>, base: nat, i: nat)
    requires i <= |fields|
    decreases Rec(fields), 0, |fields| - i
  {
    i < |fields| ==> Disjoint(fields[i], base + Offset(fields, i)) && Apart(fields, base, i) && DisjointFrom(fields, base, i + 1)
  }

  /** Member i shares no bit with those after it. */
  ghost predicate Apart(fields: seq<Kind>, base: nat, i: nat)
    requires i < |fields|
  {
    forall x: nat :: !Shared(fields, base, i, x)
  }

  predicate Shared(fields: seq<Kind>, base: nat, i: nat, x: nat)
    requires i < |fields|
  {
    Owns(fields[i], base + Offset(fields, i), x) && OwnsFrom(fields, base, i + 1, x)
  }

  // ------------------------------------------------------------------
  // Byte members
  // ------------------------------------------------------------------

  lemma {:induction false} PatchBit(s: seq<byte>, at: nat, bytes: seq<byte>, x: nat)
    requires at + |bytes| <= |s| && x < 8 * |s|
    ensures 8 * at <= x < 8 * (at + |bytes|) ==> Bit(Patch(s, at, bytes), x) == BitOf(bytes[x / 8 - at], x % 8)
    ensures !(8 * at <= x < 8 * (at + |bytes|)) ==> Bit(Patch(s, at, bytes), x) == Bit(s, x)
  {
    hide BitOf;
  }

  lemma {:induction false} PatchSlice(s: seq<byte>, at: nat, bytes: seq<byte>)
    requires at + |bytes| <= |s|
    ensures Patch(s, at, bytes)[at..at + |bytes|] == bytes
  {
  }

  /** Slices with the same bits are the same. */
  lemma {:induction false} SliceExt(s: seq<byte>, t: seq<byte>, at: nat, n: nat)
    requires |s| == |t| && at + n <= |s| && forall x :: 8 * at <= x < 8 * (at + n) ==> Bit(s, x) == Bit(t, x)
    ensures s[at..at + n] == t[at..at + n]
  {
    hide BitOf;
    var a, b := s[at..at + n], t[at..at + n];
    forall x | 0 <= x < 8 * n ensures Bit(a, x) == Bit(b, x) {
      assert Bit(s, 8 * at + x) == Bit(t, 8 * at + x);
      assert (8 * at + x) / 8 == at + x / 8 && (8 * at + x) % 8 == x % 8;
    }
    BufferExt(a, b);
  }

  lemma {:induction false} UintBack(u: nat, size: nat, big: bool)
    requires u < Pow2(8 * size)
    ensures UintOf(UintBytes(u, size, big), big) == u
  {
    if big {
      BeNatBeBytes(u, size);
    } else {
      LeNatLeBytes(u, size);
    }
  }

  lemma {:induction false} UintThere(b: seq<byte>, big: bool)
    ensures UintBytes(UintOf(b, big), |b|, big) == b
  {
    if big {
      BeBytesBeNat(b);
    } else {
      LeBytesLeNat(b);
    }
  }

  // ------------------------------------------------------------------
  // Emitting what was read
  // ------------------------------------------------------------------

  lemma {:induction false} AssignAt(fields: seq<Kind>, s: seq<byte>, base: nat, big: bool, i: nat, j: nat)
    requires Fits(Rec(fields), s, base) && i <= j < |fields|
    ensures Fits(fields[j], s, base + Offset(fields, j))
    ensures AssignFrom(fields, s, base, big, i)[j - i] == Assign(fields[j], s, base + Offset(fields, j), big)
    decreases j - i
  {
    hide Fits, Assign;
    FieldFits(fields, s, base, j);
    if i < j {
      AssignAt(fields, s, base, big, i + 1, j);
    }
  }

  lemma {:induction false} AssignInRange(k: Kind, s: seq<byte>, off: nat, big: bool)
    requires Fits(k, s, off)
    ensures InRange(Assign(k, s, off, big), k)
    decreases k
  {
    hide Pow2, ReadBits, UintOf, AssignFrom, FitsWidth, FromRaw, Offset;
    match k
    case Bits(n, signed, ord) => RawThere(ReadBits(s, off, n, ord), n, signed);
    case Raw(size) =>
    case Scalar(size, signed) =>
      UintBound(s[off / 8..off / 8 + size], big);
      RawThere(UintOf(s[off / 8..off / 8 + size], big), 8 * size, signed);
    case Rec(fields) =>
      var vs := AssignFrom(fields, s, off, big, 0);
      forall j | 0 <= j < |fields| ensures InRange(vs[j], fields[j]) {
        AssignAt(fields, s, off, big, 0, j);
        AssignInRange(fields[j], s, off + Offset(fields, j), big);
      }
  }

  /** Writing what was read from b puts b's bits where the member is, and changes nothing else: members that share
      bits write the same ones. */
  lemma {:induction false} EmitOfAssign(k: Kind, out: seq<byte>, b: seq<byte>, off: nat, big: bool, x: nat)
    requires |out| == |b| && Fits(k, b, off) && Fits(k, out, off) && x < 8 * |b|
    ensures InRange(Assign(k, b, off, big), k)
    ensures Bit(Emit(k, Assign(k, b, off, big), out, off, big), x) == if Owns(k, off, x) then Bit(b, x) else Bit(out, x)
    decreases k, 1, 0
  {
    hide Pow2, ReadBits, WriteBits, BitOf, UintOf, UintBytes, FitsWidth, FromRaw, ToRaw, AssignFrom, EmitFrom, Patch,
         OwnsFrom, Flip, Bit;
    AssignInRange(k, b, off, big);
    match k
    case Bits(n, signed, ord) =>
      RawThere(ReadBits(b, off, n, ord), n, signed);
      WriteOfRead(out, b, off, n, ord, x);
    case Raw(size) =>
      SlicePatch(out, b, off / 8, size, x);
    case Scalar(size, signed) =>
      var sl := b[off / 8..off / 8 + size];
      UintBound(sl, big);
      RawThere(UintOf(sl, big), 8 * size, signed);
      UintThere(sl, big);
      SlicePatch(out, b, off / 8, size, x);
    case Rec(fields) =>
      EmitOfAssignFrom(fields, out, b, off, big, 0, x);
  }

  lemma {:induction false} SlicePatch(out: seq<byte>, b: seq<byte>, at: nat, n: nat, x: nat)
    requires |out| == |b| && at + n <= |b| && x < 8 * |b|
    ensures Bit(Patch(out, at, b[at..at + n]), x) == if 8 * at <= x < 8 * (at + n) then Bit(b, x) else Bit(out, x)
  {
    hide BitOf, Patch;
    PatchBit(out, at, b[at..at + n], x);
    if 8 * at <= x < 8 * (at + n) {
      assert b[at..at + n][x / 8 - at] == b[x / 8];
    }
  }

  /** The members from i on. */
  lemma {:induction false} EmitOfAssignFrom(fields: seq<Kind>, out: seq<byte>, b: seq<byte>, base: nat, big: bool,
                                            i: nat, x: nat)
    requires |out| == |b| && Fits(Rec(fields), b, base) && Fits(Rec(fields), out, base) && i <= |fields| && x < 8 * |b|
    ensures InRange(Items(AssignFrom(fields, b, base, big, 0)), Rec(fields))
    ensures
      Bit(EmitFrom(fields, AssignFrom(fields, b, base, big, 0), out, base, big, i), x) ==
      if OwnsFrom(fields, base, i, x) then Bit(b, x) else Bit(out, x)
    decreases Rec(fields), 0, |fields| - i
  {
    hide Assign, Emit, Owns, Bit, InRange, Fits, AssignFrom;
    AssignInRange(Rec(fields), b, base, big);
    RecAssign(fields, b, base, big);
    if i < |fields| {
      var off := base + Offset(fields, i);
      FieldFits(fields, b, base, i);
      FieldFits(fields, out, base, i);
      AssignAt(fields, b, base, big, 0, i);
      EmitOfAssign(fields[i], out, b, off, big, x);
      var cur := Emit(fields[i], Assign(fields[i], b, off, big), out, off, big);
      FitsSame(Rec(fields), out, cur, base);
      EmitOfAssignFrom(fields, cur, b, base, big, i + 1, x);
    }
  }

  lemma {:induction false} RecAssign(fields: seq<Kind>, s: seq<byte>, base: nat, big: bool)
    requires Fits(Rec(fields), s, base)
    ensures Assign(Rec(fields), s, base, big) == Items(AssignFrom(fields, s, base, big, 0))
  {
  }

  lemma {:induction false} RangeAt(fields: seq<Kind>, vs: seq<Val>, i: nat)
    requires InRange(Items(vs), Rec(fields)) && i < |fields|
    ensures |vs| == |fields| && InRange(vs[i], fields[i])
  {
  }

  lemma {:induction false} FitsSame(k: Kind, s: seq<byte>, t: seq<byte>, off: nat)
    requires Fits(k, s, off) && |t| == |s|
    ensures Fits(k, t, off)
  {
  }

  // ------------------------------------------------------------------
  // Reading what was emitted
  // ------------------------------------------------------------------

  /** A member's value depends on the bits it owns. */
  lemma {:induction false} AssignDepends(k: Kind, s: seq<byte>, t: seq<byte>, off: nat, big: bool)
    requires |s| == |t| && Fits(k, s, off) && Fits(k, t, off)
    requires forall x :: 0 <= x < 8 * |s| && Owns(k, off, x) ==> Bit(s, x) == Bit(t, x)
    ensures Assign(k, s, off, big) == Assign(k, t, off, big)
    decreases k
  {
    hide Pow2, ReadBits, BitOf, UintOf, FromRaw, AssignFrom, Bit, Flip, Offset, OwnsFrom;
    match k
    case Bits(n, signed, ord) =>
      forall b | off <= b < off + n ensures Wire(s, b, ord) == Wire(t, b, ord) {
        FlipTwice(b, ord);
        assert Flip(b, ord) < 8 * |s| by { FlipInside(b, |s|, ord); }
        assert Owns(k, off, Flip(b, ord));
      }
      ReadDepends(s, t, off, n, ord);
    case Raw(size) => SliceExt(s, t, off / 8, size);
    case Scalar(size, signed) => SliceExt(s, t, off / 8, size);
    case Rec(fields) =>
      var vs, ws := AssignFrom(fields, s, off, big, 0), AssignFrom(fields, t, off, big, 0);
      forall j | 0 <= j < |fields| ensures vs[j] == ws[j] {
        AssignAt(fields, s, off, big, 0, j);
        AssignAt(fields, t, off, big, 0, j);
        forall x | 0 <= x < 8 * |s| && Owns(fields[j], off + Offset(fields, j), x) ensures Bit(s, x) == Bit(t, x) {
          OwnedBy(fields, off, 0, j, x);
        }
        AssignDepends(fields[j], s, t, off + Offset(fields, j), big);
      }
  }

  lemma {:induction false} FlipInside(b: nat, n: nat, ord: Order)
    requires b < 8 * n
    ensures Flip(b, ord) < 8 * n
  {
  }

  /** Writing changes only the member's own bits. */
  lemma {:induction false} EmitFrame(k: Kind, v: Val, out: seq<byte>, off: nat, big: bool, x: nat)
    requires Fits(k, out, off) && InRange(v, k) && x < 8 * |out| && !Owns(k, off, x)
    ensures Bit(Emit(k, v, out, off, big), x) == Bit(out, x)
    decreases k, 1, 0
  {
    hide Pow2, WriteBits, BitOf, UintBytes, ToRaw, EmitFrom, Patch, Bit, Flip, OwnsFrom;
    match k
    case Bits(n, signed, ord) => WrittenBit(out, off, n, ToRaw(v.n, n, signed), ord, x);
    case Raw(size) => PatchBit(out, off / 8, v.b, x);
    case Scalar(size, signed) => PatchBit(out, off / 8, UintBytes(ToRaw(v.n, 8 * size, signed), size, big), x);
    case Rec(fields) => EmitFromFrame(fields, v.vs, out, off, big, 0, x);
  }

  /** Emitting the members from i on leaves every bit that is none of theirs. */
  lemma {:induction false} EmitFromFrame(fields: seq<Kind>, vs: seq<Val>, out: seq<byte>, base: nat, big: bool, i: nat,
                                         x: nat)
    requires Fits(Rec(fields), out, base) && InRange(Items(vs), Rec(fields)) && i <= |fields| && x < 8 * |out|
    requires !OwnsFrom(fields, base, i, x)
    ensures Bit(EmitFrom(fields, vs, out, base, big, i), x) == Bit(out, x)
    decreases Rec(fields), 0, |fields| - i
  {
    hide Emit, Owns, Bit, Fits, InRange, Offset, Width;
    if i < |fields| {
      RangeAt(fields, vs, i);
      var off := base + Offset(fields, i);
      FieldFits(fields, out, base, i);
      EmitFrame(fields[i], vs[i], out, off, big, x);
      var cur := Emit(fields[i], vs[i], out, off, big);
      FitsSame(Rec(fields), out, cur, base);
      EmitFromFrame(fields, vs, cur, base, big, i + 1, x);
    }
  }

  /** A value in range reads back when no bit is shared. */
  lemma {:induction false} AssignOfEmit(k: Kind, v: Val, out: seq<byte>, off: nat, big: bool)
    requires Fits(k, out, off) && InRange(v, k) && Disjoint(k, off)
    ensures Fits(k, Emit(k, v, out, off, big), off)
    ensures Assign(k, Emit(k, v, out, off, big), off, big) == v
    decreases k, 1, 0
  {
    hide Pow2, ReadBits, WriteBits, UintOf, UintBytes, ToRaw, FromRaw, EmitFrom, AssignFrom, Patch, FitsWidth, DisjointFrom;
    FitsSame(k, out, Emit(k, v, out, off, big), off);
    match k
    case Bits(n, signed, ord) =>
      ReadOfWrite(out, off, n, ToRaw(v.n, n, signed), ord);
      RawBack(v.n, n, signed);
    case Raw(size) => PatchSlice(out, off / 8, v.b);
    case Scalar(size, signed) =>
      var u := ToRaw(v.n, 8 * size, signed);
      PatchSlice(out, off / 8, UintBytes(u, size, big));
      UintBack(u, size, big);
      RawBack(v.n, 8 * size, signed);
    case Rec(fields) =>
      var t := EmitFrom(fields, v.vs, out, off, big, 0);
      forall j | 0 <= j < |fields| ensures AssignFrom(fields, t, off, big, 0)[j] == v.vs[j] {
        AssignOfEmitFrom(fields, v.vs, out, off, big, 0, j);
        AssignAt(fields, t, off, big, 0, j);
      }
  }

  lemma {:induction false} AssignOfEmitFrom(fields: seq<Kind>, vs: seq<Val>, out: seq<byte>, base: nat, big: bool,
                                            i: nat, j: nat)
    requires Fits(Rec(fields), out, base) && InRange(Items(vs), Rec(fields)) && i <= j < |fields|
    requires DisjointFrom(fields, base, i)
    ensures
      var t, off := EmitFrom(fields, vs, out, base, big, i), base + Offset(fields, j);
      Fits(fields[j], t, off) && Assign(fields[j], t, off, big) == vs[j]
    decreases Rec(fields), 0, |fields| - i
  {
    hide Emit, Assign, Owns, Bit, Fits, InRange, Offset, Width, Apart, Disjoint;
    RangeAt(fields, vs, i);
    RangeAt(fields, vs, j);
    var off := base + Offset(fields, i);
    FieldFits(fields, out, base, i);
    var cur := Emit(fields[i], vs[i], out, off, big);
    FitsSame(Rec(fields), out, cur, base);
    if i < j {
      AssignOfEmitFrom(fields, vs, cur, base, big, i + 1, j);
    } else {
      AssignOfEmit(fields[i], vs[i], out, off, big);
      Untouched(fields, vs, cur, base, big, i);
    }
  }

  /** What member i reads is not changed by the members after it, when it shares no bit with them. */
  lemma {:induction false} Untouched(fields: seq<Kind>, vs: seq<Val>, cur: seq<byte>, base: nat, big: bool, i: nat)
    requires Fits(Rec(fields), cur, base) && InRange(Items(vs), Rec(fields)) && i < |fields| && Apart(fields, base, i)
    ensures
      var t, off := EmitFrom(fields, vs, cur, base, big, i + 1), base + Offset(fields, i);
      && Fits(fields[i], cur, off) && Fits(fields[i], t, off)
      && Assign(fields[i], t, off, big) == Assign(fields[i], cur, off, big)
  {
    hide Emit, EmitFrom, Assign, Owns, OwnsFrom, Bit, Fits, InRange, Offset, Width;
    var t, off := EmitFrom(fields, vs, cur, base, big, i + 1), base + Offset(fields, i);
    FieldFits(fields, cur, base, i);
    FitsSame(fields[i], cur, t, off);
    forall x | 0 <= x < 8 * |cur| && Owns(fields[i], off, x) ensures Bit(cur, x) == Bit(t, x) {
      assert !Shared(fields, base, i, x);
      EmitFromFrame(fields, vs, cur, base, big, i + 1, x);
    }
    AssignDepends(fields[i], cur, t, off, big);
  }

  // ------------------------------------------------------------------
  // A shared bit loses a value
  // ------------------------------------------------------------------

  /** Where two leaves share a bit, some value in range does not read back. */
  lemma {:induction false} Overlaps(k: Kind, out: seq<byte>, off: nat, big: bool) returns (v: Val)
    requires Fits(k, out, off) && !Disjoint(k, off)
    ensures InRange(v, k) && Fits(k, Emit(k, v, out, off, big), off)
    ensures Assign(k, Emit(k, v, out, off, big), off, big) != v
    decreases k, 2, 0
  {
    hide Emit, Assign, Owns, OwnsFrom, DisjointFrom, Fits, InRange;
    var fields := k.fields;
    var i, within := FirstShared(fields, off, 0);
    var vs;
    if within {
      vs := SharedWithin(fields, out, off, big, i);
    } else {
      vs := SharedAfter(fields, out, off, big, i);
    }
    v := Items(vs);
    NotReadBack(fields, vs, out, off, big, i);
  }

  /** The struct does not read back when a member does not. */
  lemma {:induction false} NotReadBack(fields: seq<Kind>, vs: seq<Val>, out: seq<byte>, base: nat, big: bool, i: nat)
    requires Fits(Rec(fields), out, base) && InRange(Items(vs), Rec(fields)) && i < |fields|
    requires
      var t, off := EmitFrom(fields, vs, out, base, big, 0), base + Offset(fields, i);
      Fits(fields[i], t, off) && Assign(fields[i], t, off, big) != vs[i]
    ensures
      var k, v := Rec(fields), Items(vs);
      && Fits(k, Emit(k, v, out, base, big), base)
      && Assign(k, Emit(k, v, out, base, big), base, big) != v
  {
    hide Fits, InRange, Offset, AssignFrom, EmitFrom;
    var t := EmitFrom(fields, vs, out, base, big, 0);
    FitsSame(Rec(fields), out, t, base);
    AssignAt(fields, t, base, big, 0, i);
  }

  /** The first member that shares a bit, with one after it or within itself. */
  lemma {:induction false} FirstShared(fields: seq<Kind>, base: nat, i: nat) returns (m: nat, within: bool)
    requires i <= |fields| && !DisjointFrom(fields, base, i)
    ensures i <= m < |fields|
    ensures if within then !Disjoint(fields[m], base + Offset(fields, m)) && Apart(fields, base, m) else !Apart(fields, base, m)
    decreases |fields| - i
  {
    hide Disjoint, Apart;
    if !Apart(fields, base, i) {
      return i, false;
    }
    if !Disjoint(fields[i], base + Offset(fields, i)) {
      return i, true;
    }
    m, within := FirstShared(fields, base, i + 1);
  }

  /** All members read from b. */
  lemma {:induction false} ReadAll(fields: seq<Kind>, b: seq<byte>, base: nat, big: bool) returns (vs: seq<Val>)
    requires Fits(Rec(fields), b, base)
    ensures InRange(Items(vs), Rec(fields)) && |vs| == |fields|
    ensures forall j :: 0 <= j < |fields| ==> ReadAs(fields, vs, b, base, big, j)
  {
    hide Fits, Assign, AssignFrom, InRange;
    vs := AssignFrom(fields, b, base, big, 0);
    AssignInRange(Rec(fields), b, base, big);
    RecAssign(fields, b, base, big);
    forall j | 0 <= j < |fields| ensures ReadAs(fields, vs, b, base, big, j) {
      AssignAt(fields, b, base, big, 0, j);
    }
  }

  /** Member j of vs is what b holds. */
  ghost predicate ReadAs(fields: seq<Kind>, vs: seq<Val>, b: seq<byte>, base: nat, big: bool, j: nat)
    requires j < |fields| == |vs|
  {
    var off := base + Offset(fields, j);
    Fits(fields[j], b, off) && vs[j] == Assign(fields[j], b, off, big)
  }

  /** A member that shares bits within itself, and none with those after it. */
  lemma {:induction false} SharedWithin(fields: seq<Kind>, out: seq<byte>, base: nat, big: bool, m: nat)
    returns (vs: seq<Val>)
    requires Fits(Rec(fields), out, base) && m < |fields|
    requires !Disjoint(fields[m], base + Offset(fields, m)) && Apart(fields, base, m)
    ensures InRange(Items(vs), Rec(fields)) && |vs| == |fields|
    ensures
      var t, off := EmitFrom(fields, vs, out, base, big, 0), base + Offset(fields, m);
      Fits(fields[m], t, off) && Assign(fields[m], t, off, big) != vs[m]
    decreases Rec(fields), 1, 0
  {
    hide Fits, InRange, EmitFrom, Assign;
    var vs0 := ReadAll(fields, out, base, big);
    vs := SharedFrom(fields, vs0, out, base, big, 0, m);
  }

  lemma {:induction false} SharedFrom(fields: seq<Kind>, vs0: seq<Val>, out: seq<byte>, base: nat, big: bool, i: nat,
                                      m: nat)
    returns (vs: seq<Val>)
    requires Fits(Rec(fields), out, base) && InRange(Items(vs0), Rec(fields)) && i <= m < |fields| == |vs0|
    requires !Disjoint(fields[m], base + Offset(fields, m)) && Apart(fields, base, m)
    ensures InRange(Items(vs), Rec(fields)) && |vs| == |fields| && vs == vs0[m := vs[m]]
    ensures
      var t, off := EmitFrom(fields, vs, out, base, big, i), base + Offset(fields, m);
      Fits(fields[m], t, off) && Assign(fields[m], t, off, big) != vs[m]
    decreases Rec(fields), 0, |fields| - i
  {
    hide Fits, InRange, Assign, Emit, Disjoint, Apart, Offset, Width;
    var off := base + Offset(fields, i);
    FieldFits(fields, out, base, i);
    RangeAt(fields, vs0, i);
    if i < m {
      var cur := Emit(fields[i], vs0[i], out, off, big);
      FitsSame(Rec(fields), out, cur, base);
      vs := SharedFrom(fields, vs0, cur, base, big, i + 1, m);
    } else {
      var v := Overlaps(fields[m], out, off, big);
      vs := vs0[m := v];
      RangeUpdate(fields, vs0, m, v);
      var cur := Emit(fields[m], v, out, off, big);
      FitsSame(Rec(fields), out, cur, base);
      Untouched(fields, vs, cur, base, big, m);
    }
  }

  lemma {:induction false} RangeUpdate(fields: seq<Kind>, vs: seq<Val>, i: nat, v: Val)
    requires InRange(Items(vs), Rec(fields)) && i < |fields| == |vs| && InRange(v, fields[i])
    ensures InRange(Items(vs[i := v]), Rec(fields))
  {
  }

  /** n bytes of ones, or of zeros. */
  function Filled(n: nat, ones: bool): (b: seq<byte>)
    ensures |b| == n
  {
    seq(n, i => if ones then 255 else 0)
  }

  lemma {:induction false} FilledBit(n: nat, ones: bool, x: nat)
    requires x < 8 * n
    ensures Bit(Filled(n, ones), x) == ones
  {
    if ones {
      Pow2Values();
      OnesBit(8, x % 8);
    } else {
      BitOfZero(x % 8);
    }
  }

  /** Member i shares bit x with one after it: give all up to i ones and all after it zeros. */
  lemma {:induction false} SharedAfter(fields: seq<Kind>, out: seq<byte>, base: nat, big: bool, i: nat)
    returns (vs: seq<Val>)
    requires Fits(Rec(fields), out, base) && i < |fields| && !Apart(fields, base, i)
    ensures InRange(Items(vs), Rec(fields)) && |vs| == |fields|
    ensures
      var t, off := EmitFrom(fields, vs, out, base, big, 0), base + Offset(fields, i);
      Fits(fields[i], t, off) && Assign(fields[i], t, off, big) != vs[i]
  {
    hide Fits, InRange, EmitFrom, Assign, Owns, OwnsFrom, Bit, Offset, Width, Emit, Filled;
    var x: nat :| Shared(fields, base, i, x);
    var off := base + Offset(fields, i);
    FieldFits(fields, out, base, i);
    OwnedInside(fields[i], out, off, x);
    var ones, zeros := Filled(|out|, true), Filled(|out|, false);
    FitsSame(Rec(fields), out, ones, base);
    FitsSame(Rec(fields), out, zeros, base);
    var us := ReadAll(fields, ones, base, big);
    var zs := ReadAll(fields, zeros, base, big);
    vs := us[..i + 1] + zs[i + 1..];
    RangeMix(fields, us, zs, i + 1);
    forall j | i < j < |fields| ensures ReadAs(fields, vs, zeros, base, big, j) {
      assert ReadAs(fields, zs, zeros, base, big, j);
    }
    Cleared(fields, vs, out, zeros, base, big, 0, i + 1, x);
    var t := EmitFrom(fields, vs, out, base, big, 0);
    assert ReadAs(fields, us, ones, base, big, i);
    FitsSame(fields[i], out, t, off);
    EmitOfAssign(fields[i], out, ones, off, big, x);
    EmitOfAssign(fields[i], out, t, off, big, x);
    FilledBit(|out|, true, x);
  }

  lemma {:induction false} RangeMix(fields: seq<Kind>, us: seq<Val>, zs: seq<Val>, m: nat)
    requires InRange(Items(us), Rec(fields)) && InRange(Items(zs), Rec(fields)) && m <= |fields| == |us| == |zs|
    ensures InRange(Items(us[..m] + zs[m..]), Rec(fields))
  {
  }

  /** A bit a member owns lies in the buffer. */
  lemma {:induction false} OwnedInside(k: Kind, s: seq<byte>, off: nat, x: nat)
    requires Fits(k, s, off) && Owns(k, off, x)
    ensures x < 8 * |s|
    decreases k, 1, 0
  {
    hide OwnsFrom, Offset;
    match k
    case Bits(n, _, ord) =>
      FlipInside(Flip(x, ord), |s|, ord);
      FlipTwice(x, ord);
    case Raw(_) =>
    case Scalar(_, _) =>
    case Rec(fields) => OwnedInsideFrom(fields, s, off, 0, x);
  }

  lemma {:induction false} OwnedInsideFrom(fields: seq<Kind>, s: seq<byte>, base: nat, i: nat, x: nat)
    requires Fits(Rec(fields), s, base) && i <= |fields| && OwnsFrom(fields, base, i, x)
    ensures x < 8 * |s|
    decreases Rec(fields), 0, |fields| - i
  {
    hide Owns, Fits, Offset;
    FieldFits(fields, s, base, i);
    if Owns(fields[i], base + Offset(fields, i), x) {
      OwnedInside(fields[i], s, base + Offset(fields, i), x);
    } else {
      OwnedInsideFrom(fields, s, base, i + 1, x);
    }
  }

  /** When the members from m on are zeros and one of them owns x, bit x ends clear. */
  lemma {:induction false} Cleared(fields: seq<Kind>, vs: seq<Val>, out: seq<byte>, zeros: seq<byte>, base: nat,
                                   big: bool, i: nat, m: nat, x: nat)
    requires Fits(Rec(fields), out, base) && InRange(Items(vs), Rec(fields)) && |vs| == |fields|
    requires zeros == Filled(|out|, false) && x < 8 * |out| && i <= |fields|
    requires forall j :: m <= j < |fields| ==> ReadAs(fields, vs, zeros, base, big, j)
    requires m <= |fields| && (OwnsFrom(fields, base, if i < m then m else i, x) || (i >= m && !Bit(out, x)))
    ensures !Bit(EmitFrom(fields, vs, out, base, big, i), x)
    decreases |fields| - i
  {
    hide Fits, InRange, Assign, Owns, Bit, Offset, Width, Emit, Filled;
    if i < |fields| {
      RangeAt(fields, vs, i);
      var off := base + Offset(fields, i);
      FieldFits(fields, out, base, i);
      var cur := Emit(fields[i], vs[i], out, off, big);
      FitsSame(Rec(fields), out, cur, base);
      if i >= m {
        assert ReadAs(fields, vs, zeros, base, big, i);
        EmitOfAssign(fields[i], out, zeros, off, big, x);
        FilledBit(|out|, false, x);
      }
      Cleared(fields, vs, cur, zeros, base, big, i + 1, m, x);
    }
  }

  // ------------------------------------------------------------------
  // Whole structs
  // ------------------------------------------------------------------

  /** strct<T> on exactly its bytes. */
  function Strct(fields: seq<Kind>, b: seq<byte>, big: bool): Val
    requires Sized(Rec(fields)) && 8 * |b| == Width(Rec(fields))
  {
    Assign(Rec(fields), b, 0, big)
  }

  /** emit_struct without computed fields: over a cleared buffer. */
  function EmitStruct(fields: seq<Kind>, v: Val, big: bool): (b: seq<byte>)
    requires Sized(Rec(fields)) && Width(Rec(fields)) % 8 == 0 && InRange(v, Rec(fields))
    ensures 8 * |b| == Width(Rec(fields))
  {
    Emit(Rec(fields), v, Filled(Width(Rec(fields)) / 8, false), 0, big)
  }

  /** Every bit of the struct belongs to a leaf. */
  ghost predicate Covered(fields: seq<Kind>) {
    forall x: nat :: x < Width(Rec(fields)) ==> Owns(Rec(fields), 0, x)
  }

  /** Every byte string of the right size is the encoding of its value exactly when every bit belongs to a leaf. */
  lemma {:induction false} EmitUndoesStrct(fields: seq<Kind>, big: bool)
    requires Sized(Rec(fields)) && Width(Rec(fields)) % 8 == 0
    ensures (forall b: seq<byte> :: 8 * |b| == Width(Rec(fields)) ==> EmitsBack(fields, b, big)) <==> Covered(fields)
  {
    hide EmitsBack, Owns, Width;
    var k := Rec(fields);
    var n := Width(k) / 8;
    if Covered(fields) {
      forall b: seq<byte> | 8 * |b| == Width(k) ensures EmitsBack(fields, b, big) {
        EmitsBackIff(fields, b, big);
      }
    } else {
      var x: nat :| x < Width(k) && !Owns(k, 0, x);
      var ones := Filled(n, true);
      EmitsBackIff(fields, ones, big);
      FilledBit(n, true, x);
      assert !EmitsBack(fields, ones, big);
    }
  }

  ghost predicate EmitsBack(fields: seq<Kind>, b: seq<byte>, big: bool)
    requires Sized(Rec(fields)) && 8 * |b| == Width(Rec(fields))
  {
    InRange(Strct(fields, b, big), Rec(fields)) && EmitStruct(fields, Strct(fields, b, big), big) == b
  }

  /** One byte string: it comes back exactly when the bits of no leaf are clear. */
  lemma {:induction false} EmitsBackIff(fields: seq<Kind>, b: seq<byte>, big: bool)
    requires Sized(Rec(fields)) && 8 * |b| == Width(Rec(fields))
    ensures EmitsBack(fields, b, big) <==> forall x: nat :: x < 8 * |b| && !Owns(Rec(fields), 0, x) ==> !Bit(b, x)
  {
    hide Assign, Emit, Bit, InRange, Sized, Owns, Filled;
    var k := Rec(fields);
    AssignInRange(k, b, 0, big);
    var out := Filled(|b|, false);
    var t := EmitStruct(fields, Strct(fields, b, big), big);
    forall x: nat | x < 8 * |b| ensures Bit(t, x) == if Owns(k, 0, x) then Bit(b, x) else false {
      EmitOfAssign(k, out, b, 0, big, x);
      FilledBit(|b|, false, x);
    }
    if forall x: nat :: x < 8 * |b| && !Owns(k, 0, x) ==> !Bit(b, x) {
      BufferExt(t, b);
    }
  }

  /** Every value in range is the value of its encoding exactly when no bit belongs to two leaves. */
  lemma {:induction false} StrctUndoesEmit(fields: seq<Kind>, big: bool)
    requires Sized(Rec(fields)) && Width(Rec(fields)) % 8 == 0
    ensures (forall v :: InRange(v, Rec(fields)) ==> ReadsBack(fields, v, big)) <==> Disjoint(Rec(fields), 0)
  {
    hide Assign, Emit, InRange, Sized, Disjoint, Width, Filled;
    var k := Rec(fields);
    var out := Filled(Width(k) / 8, false);
    if Disjoint(k, 0) {
      forall v | InRange(v, k) ensures ReadsBack(fields, v, big) {
        AssignOfEmit(k, v, out, 0, big);
      }
    } else {
      var v := Overlaps(k, out, 0, big);
      assert !ReadsBack(fields, v, big);
    }
  }

  ghost predicate ReadsBack(fields: seq<Kind>, v: Val, big: bool)
    requires Sized(Rec(fields)) && Width(Rec(fields)) % 8 == 0 && InRange(v, Rec(fields))
  {
    Strct(fields, EmitStruct(fields, v, big), big) == v
  }

  // ------------------------------------------------------------------
  // The walks
  // ------------------------------------------------------------------

  /** assign_field: msb0 fields that fit one word by the covering word, the others by read_bits. */
  method AssignField(k: Kind, s: seq<byte>, off: nat, big: bool) returns (v: Val)
    requires Fits(k, s, off)
    ensures v == Assign(k, s, off, big)
    decreases k
  {
    hide ReadBits, UintOf, AssignFrom, FromRaw;
    match k
    case Bits(n, signed, ord) =>
      var raw;
      if ord.Msb0? && 7 + n <= 64 {
        raw := CoveringWord(s, off, n);
      } else {
        raw := ReadLoop(s, off, n, ord);
      }
      v := Num(FromRaw(raw, n, signed));
    case Raw(size) =>
      v := Blob(s[off / 8..off / 8 + size]);
    case Scalar(size, signed) =>
      UintBound(s[off / 8..off / 8 + size], big);
      v := Num(FromRaw(UintOf(s[off / 8..off / 8 + size], big), 8 * size, signed));
    case Rec(fields) =>
      var vs: seq<Val> := [];
      for i := 0 to |fields|
        invariant vs == AssignFrom(fields, s, off, big, 0)[..i]
      {
        AssignAt(fields, s, off, big, 0, i);
        var x := AssignField(fields[i], s, off + Offset(fields, i), big);
        vs := vs + [x];
      }
      v := Items(vs);
  }

  /** What the member's type already guarantees: everything but the range of a bit field. */
  ghost predicate Shaped(v: Val, k: Kind)
    decreases k
  {
    match k
    case Bits(_, _, _) => v.Num?
    case Raw(size) => v.Blob? && |v.b| == size
    case Scalar(size, signed) => v.Num? && FitsWidth(v.n, 8 * size, signed)
    case Rec(fields) => v.Items? && |v.vs| == |fields| && forall i :: 0 <= i < |fields| ==> Shaped(v.vs[i], fields[i])
  }

  method StoreBytes(buf: array<byte>, at: nat, bytes: seq<byte>)
    requires at + |bytes| <= buf.Length
    modifies buf
    ensures buf[..] == Patch(old(buf[..]), at, bytes)
  {
    for i := 0 to |bytes|
      invariant forall j :: 0 <= j < i ==> buf[at + j] == bytes[j]
      invariant forall j :: 0 <= j < buf.Length && !(at <= j < at + |bytes|) ==> buf[j] == old(buf[j])
    {
      buf[at + i] := bytes[i];
    }
  }

  predicate BitsInRange(x: int, n: nat, signed: bool)
    requires 1 <= n
    ensures BitsInRange(x, n, signed) <==> FitsWidth(x, n, signed)
  {
    if signed then 0 - Pow2(n - 1) <= x < Pow2(n - 1) else 0 <= x < Pow2(n)
  }

  /** emit_field (emit.hpp:124-167): fails exactly when some bit field's value does not fit it. */
  method EmitField(k: Kind, v: Val, buf: array<byte>, off: nat, big: bool) returns (ok: bool)
    requires Fits(k, buf[..], off) && Shaped(v, k)
    modifies buf
    ensures ok <==> InRange(v, k)
    ensures ok ==> buf[..] == Emit(k, v, old(buf[..]), off, big)
    decreases k
  {
    hide EmitFrom, WriteBits, Patch, UintBytes, ToRaw, FitsWidth, BitsInRange;
    ok := true;
    match k
    case Bits(n, signed, ord) =>
      if !BitsInRange(v.n, n, signed) {
        return false;
      }
      WriteLoop(buf, off, n, ToRaw(v.n, n, signed), ord);
    case Raw(size) =>
      StoreBytes(buf, off / 8, v.b);
    case Scalar(size, signed) =>
      StoreBytes(buf, off / 8, UintBytes(ToRaw(v.n, 8 * size, signed), size, big));
    case Rec(fields) =>
      ok := EmitFields(fields, v.vs, buf, off, big);
  }

  method EmitFields(fields: seq<Kind>, vs: seq<Val>, buf: array<byte>, base: nat, big: bool) returns (ok: bool)
    requires Fits(Rec(fields), buf[..], base) && Shaped(Items(vs), Rec(fields))
    modifies buf
    ensures ok <==> InRange(Items(vs), Rec(fields))
    ensures ok ==> buf[..] == EmitFrom(fields, vs, old(buf[..]), base, big, 0)
    decreases fields
  {
    hide Emit, EmitFrom, Fits, Offset, Width;
    ghost var before := buf[..];
    for i := 0 to |fields|
      invariant Fits(Rec(fields), buf[..], base) && |before| == buf.Length
      invariant forall j :: 0 <= j < i ==> InRange(vs[j], fields[j])
      invariant InRange(Items(vs), Rec(fields)) ==>
        EmitFrom(fields, vs, buf[..], base, big, i) == EmitFrom(fields, vs, before, base, big, 0)
    {
      FieldFits(fields, buf[..], base, i);
      ghost var now := buf[..];
      var good := EmitField(fields[i], vs[i], buf, base + Offset(fields, i), big);
      if !good {
        return false;
      }
      FitsSame(Rec(fields), now, buf[..], base);
      if InRange(Items(vs), Rec(fields)) {
        EmitNext(fields, vs, now, base, big, i);
      }
    }
    ok := true;
    EmitDone(fields, vs, buf[..], base, big);
  }

  lemma {:induction false} EmitNext(fields: seq<Kind>, vs: seq<Val>, s: seq<byte>, base: nat, big: bool, i: nat)
    requires Fits(Rec(fields), s, base) && InRange(Items(vs), Rec(fields)) && i < |fields|
    requires Fits(fields[i], s, base + Offset(fields, i))
    ensures
      var t := Emit(fields[i], vs[i], s, base + Offset(fields, i), big);
      Fits(Rec(fields), t, base) && EmitFrom(fields, vs, s, base, big, i) == EmitFrom(fields, vs, t, base, big, i + 1)
  {
    hide Emit;
  }

  lemma {:induction false} EmitDone(fields: seq<Kind>, vs: seq<Val>, s: seq<byte>, base: nat, big: bool)
    requires Fits(Rec(fields), s, base) && InRange(Items(vs), Rec(fields))
    ensures EmitFrom(fields, vs, s, base, big, |fields|) == s
  {
  }
}
