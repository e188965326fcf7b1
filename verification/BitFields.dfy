/** Reading and writing bit fields in both orders: read_bits (include/nanom/nom.hpp:1744-1768), write_bits
    (include/nanom/emit.hpp:88-112) and the covering-word decode (include/nanom/reflect.hpp:279-293). */
module BitFields {
  import opened Bytes
  import opened BitOps

  datatype Order = Msb0 | Lsb0

  /** Bit x of a buffer, each byte's least significant bit first. */
  predicate Bit(s: seq<byte>, x: nat)
    requires x < 8 * |s|
  {
    BitOf(s[x / 8], x % 8)
  }

  /** The bit of the buffer that stands at place b of the stream, and back: msb0 fills a byte from the top. */
  function Flip(b: nat, ord: Order): (x: nat)
    ensures x / 8 == b / 8
  {
    if ord.Msb0? then 8 * (b / 8) + 7 - b % 8 else b
  }

  lemma {:induction false} FlipTwice(b: nat, ord: Order)
    ensures Flip(Flip(b, ord), ord) == b
  {
  }

  /** Byte boundaries look the same in both orders. */
  lemma {:induction false} FlipAligned(b: nat, e: nat, ord: Order)
    requires e % 8 == 0
    ensures Flip(b, ord) < e <==> b < e
  {
  }

  predicate Wire(s: seq<byte>, b: nat, ord: Order)
    requires b < 8 * |s|
  {
    Bit(s, Flip(b, ord))
  }

  function BitNat(b: bool): nat {
    if b then 1 else 0
  }

  /** n bits from place off on: the first is the most significant in msb0, the least in lsb0. */
  function ReadBits(s: seq<byte>, off: nat, n: nat, ord: Order): (v: nat)
    requires off + n <= 8 * |s|
    ensures v < Pow2(n)
    decreases n
  {
    if n == 0 then 0
    else if ord.Msb0? then 2 * ReadBits(s, off, n - 1, ord) + BitNat(Wire(s, off + n - 1, ord))
    else BitNat(Wire(s, off, ord)) + 2 * ReadBits(s, off + 1, n - 1, ord)
  }

  /** Which bit of an n-bit value stands at place i of its field. */
  function Place(n: nat, i: nat, ord: Order): (k: nat)
    requires i < n
    ensures k < n
  {
    if ord.Msb0? then n - 1 - i else i
  }

  lemma {:induction false} ReadBit(s: seq<byte>, off: nat, n: nat, ord: Order, i: nat)
    requires off + n <= 8 * |s| && i < n
    ensures BitOf(ReadBits(s, off, n, ord), Place(n, i, ord)) <==> Wire(s, off + i, ord)
    decreases n
  {
    hide Wire;
    if ord.Msb0? {
      if i < n - 1 {
        ReadBit(s, off, n - 1, ord, i);
      }
    } else {
      if i > 0 {
        ReadBit(s, off + 1, n - 1, ord, i - 1);
      }
    }
  }

  // ------------------------------------------------------------------
  // Writing
  // ------------------------------------------------------------------

  /** Bit x of a buffer once v is written over n places. */
  predicate NewBit(s: seq<byte>, off: nat, n: nat, v: nat, ord: Order, x: nat)
    requires x < 8 * |s|
  {
    var b := Flip(x, ord);
    if off <= b < off + n then BitOf(v, Place(n, b - off, ord)) else Bit(s, x)
  }

  function MakeByte(s: seq<byte>, off: nat, n: nat, v: nat, ord: Order, at: nat, p: nat): (b: nat)
    requires at < |s| && p <= 8
    ensures b < Pow2(8 - p)
    decreases 8 - p
  {
    if p == 8 then 0 else BitNat(NewBit(s, off, n, v, ord, 8 * at + p)) + 2 * MakeByte(s, off, n, v, ord, at, p + 1)
  }

  function NewByte(s: seq<byte>, off: nat, n: nat, v: nat, ord: Order, at: nat): (b: byte)
    requires at < |s|
  {
    Pow2Values();
    MakeByte(s, off, n, v, ord, at, 0)
  }

  function WriteBits(s: seq<byte>, off: nat, n: nat, v: nat, ord: Order): (t: seq<byte>)
    ensures |t| == |s|
  {
    seq(|s|, at requires 0 <= at < |s| => NewByte(s, off, n, v, ord, at))
  }

  lemma {:induction false} MakeByteBit(s: seq<byte>, off: nat, n: nat, v: nat, ord: Order, at: nat, p: nat, k: nat)
    requires at < |s| && p + k < 8
    ensures BitOf(MakeByte(s, off, n, v, ord, at, p), k) <==> NewBit(s, off, n, v, ord, 8 * at + p + k)
    decreases k
  {
    hide NewBit, Pow2, BitOf;
    BitCons(BitNat(NewBit(s, off, n, v, ord, 8 * at + p)), MakeByte(s, off, n, v, ord, at, p + 1), k);
    if k > 0 {
      MakeByteBit(s, off, n, v, ord, at, p + 1, k - 1);
    }
  }

  lemma {:induction false} WrittenBit(s: seq<byte>, off: nat, n: nat, v: nat, ord: Order, x: nat)
    requires x < 8 * |s|
    ensures Bit(WriteBits(s, off, n, v, ord), x) <==> NewBit(s, off, n, v, ord, x)
  {
    hide NewBit, MakeByte;
    MakeByteBit(s, off, n, v, ord, x / 8, 0, x % 8);
  }

  /** A buffer is its bits. */
  lemma {:induction false} BufferExt(s: seq<byte>, t: seq<byte>)
    requires |s| == |t| && forall x :: 0 <= x < 8 * |s| ==> Bit(s, x) == Bit(t, x)
    ensures s == t
  {
    forall at | 0 <= at < |s| ensures s[at] == t[at] {
      Pow2Values();
      forall k | 0 <= k < 8 ensures BitOf(s[at], k) == BitOf(t[at], k) {
        assert Bit(s, 8 * at + k) == Bit(t, 8 * at + k);
      }
      BitExtBelow(s[at], t[at], 8);
    }
  }

  // ------------------------------------------------------------------
  // Reading undoes writing and writing undoes reading
  // ------------------------------------------------------------------

  lemma {:induction false} WrittenWire(s: seq<byte>, off: nat, n: nat, v: nat, ord: Order, i: nat)
    requires off + n <= 8 * |s| && i < n
    ensures Wire(WriteBits(s, off, n, v, ord), off + i, ord) <==> BitOf(v, Place(n, i, ord))
  {
    hide Bit, WriteBits;
    var x := Flip(off + i, ord);
    WrittenBit(s, off, n, v, ord, x);
    FlipTwice(off + i, ord);
  }

  lemma {:induction false} PlaceBack(n: nat, k: nat, ord: Order)
    requires k < n
    ensures Place(n, Place(n, k, ord), ord) == k
  {
  }

  lemma {:induction false} ReadOfWrite(s: seq<byte>, off: nat, n: nat, v: nat, ord: Order)
    requires off + n <= 8 * |s| && v < Pow2(n)
    ensures ReadBits(WriteBits(s, off, n, v, ord), off, n, ord) == v
  {
    hide ReadBits, WriteBits, Wire, Place, Pow2, BitOf;
    var t := WriteBits(s, off, n, v, ord);
    forall k | 0 <= k < n ensures BitOf(ReadBits(t, off, n, ord), k) == BitOf(v, k) {
      var i := Place(n, k, ord);
      PlaceBack(n, k, ord);
      ReadBit(t, off, n, ord, i);
      WrittenWire(s, off, n, v, ord, i);
    }
    BitExtBelow(ReadBits(t, off, n, ord), v, n);
  }

  /** A field's value depends on its own places only. */
  lemma {:induction false} ReadDepends(s: seq<byte>, t: seq<byte>, off: nat, n: nat, ord: Order)
    requires |s| == |t| && off + n <= 8 * |s|
    requires forall b :: off <= b < off + n ==> Wire(s, b, ord) == Wire(t, b, ord)
    ensures ReadBits(s, off, n, ord) == ReadBits(t, off, n, ord)
    decreases n
  {
    hide Wire;
    if n > 0 {
      if ord.Msb0? {
        ReadDepends(s, t, off, n - 1, ord);
      } else {
        ReadDepends(s, t, off + 1, n - 1, ord);
      }
    }
  }

  /** Writing a value read from b puts b's bits at those places and leaves the others. */
  lemma {:induction false} WriteOfRead(s: seq<byte>, b: seq<byte>, off: nat, n: nat, ord: Order, x: nat)
    requires |s| == |b| && off + n <= 8 * |s| && x < 8 * |s|
    ensures
      var t := WriteBits(s, off, n, ReadBits(b, off, n, ord), ord);
      Bit(t, x) == if off <= Flip(x, ord) < off + n then Bit(b, x) else Bit(s, x)
  {
    hide ReadBits, WriteBits, Place, BitOf, Bit;
    WrittenBit(s, off, n, ReadBits(b, off, n, ord), ord, x);
    var w := Flip(x, ord);
    if off <= w < off + n {
      ReadBit(b, off, n, ord, w - off);
      FlipTwice(x, ord);
    }
  }

  // ------------------------------------------------------------------
  // The loops, a byte at a time
  // ------------------------------------------------------------------

  /** Every bit of a field's value. */
  lemma {:induction false} ReadBitAt(s: seq<byte>, off: nat, n: nat, ord: Order, k: nat)
    requires off + n <= 8 * |s|
    ensures BitOf(ReadBits(s, off, n, ord), k) <==> k < n && Wire(s, off + Place(n, k, ord), ord)
  {
    hide ReadBits, Wire, Place, BitOf, Pow2;
    if k < n {
      PlaceBack(n, k, ord);
      ReadBit(s, off, n, ord, Place(n, k, ord));
    } else {
      HighBit(ReadBits(s, off, n, ord), n, k);
    }
  }

  /** `use` bits of one byte, taken from place `bit` of it. */
  function Piece(b: byte, bit: nat, use: nat, ord: Order): nat
    requires bit + use <= 8
  {
    if ord.Msb0? then Shr(b, 8 - bit - use) % Pow2(use) else Shr(b, bit) % Pow2(use)
  }

  lemma {:induction false} PieceBit(b: byte, bit: nat, use: nat, ord: Order, k: nat)
    requires bit + use <= 8
    ensures BitOf(Piece(b, bit, use, ord), k) <==> k < use && BitOf(b, k + (if ord.Msb0? then 8 - bit - use else bit))
  {
    hide Shr, Pow2, BitOf;
    var s := if ord.Msb0? then 8 - bit - use else bit;
    LowBit(Shr(b, s), use, k);
    ShrBit(b, s, k);
  }

  function Join(out: nat, got: nat, piece: nat, use: nat, ord: Order): nat {
    if ord.Msb0? then Or(out * Pow2(use), piece) else Or(out, piece * Pow2(got))
  }

  /** The bits got so far and the next ones within a byte. */
  lemma {:induction false} ReadMore(s: seq<byte>, off: nat, got: nat, use: nat, ord: Order)
    requires off + got + use <= 8 * |s| && (off + got) % 8 + use <= 8 && use > 0
    ensures Join(ReadBits(s, off, got, ord), got, Piece(s[(off + got) / 8], (off + got) % 8, use, ord), use, ord)
            == ReadBits(s, off, got + use, ord)
  {
    hide ReadBits, Piece, Pow2, BitOf, Join;
    var a, piece := ReadBits(s, off, got, ord), Piece(s[(off + got) / 8], (off + got) % 8, use, ord);
    var r := ReadBits(s, off, got + use, ord);
    forall k: nat ensures BitOf(Join(a, got, piece, use, ord), k) == BitOf(r, k) {
      if ord.Msb0? {
        MoreMsb(s, off, got, use, k);
      } else {
        MoreLsb(s, off, got, use, k);
      }
    }
    BitExt(Join(a, got, piece, use, ord), r);
  }

  lemma {:induction false} MoreMsb(s: seq<byte>, off: nat, got: nat, use: nat, k: nat)
    requires off + got + use <= 8 * |s| && (off + got) % 8 + use <= 8 && use > 0
    ensures BitOf(Join(ReadBits(s, off, got, Msb0), got, Piece(s[(off + got) / 8], (off + got) % 8, use, Msb0), use, Msb0), k)
            == BitOf(ReadBits(s, off, got + use, Msb0), k)
  {
    hide ReadBits, Piece, Pow2, BitOf;
    var at, bit := (off + got) / 8, (off + got) % 8;
    var a, piece := ReadBits(s, off, got, Msb0), Piece(s[at], bit, use, Msb0);
    ReadBitAt(s, off, got + use, Msb0, k);
    OrBit(a * Pow2(use), piece, k);
    ShlBit(a, use, k);
    PieceBit(s[at], bit, use, Msb0, k);
    if k >= use {
      ReadBitAt(s, off, got, Msb0, k - use);
    } else {
      WireInByte(s, at, bit + use - 1 - k, Msb0);
    }
  }

  lemma {:induction false} MoreLsb(s: seq<byte>, off: nat, got: nat, use: nat, k: nat)
    requires off + got + use <= 8 * |s| && (off + got) % 8 + use <= 8 && use > 0
    ensures BitOf(Join(ReadBits(s, off, got, Lsb0), got, Piece(s[(off + got) / 8], (off + got) % 8, use, Lsb0), use, Lsb0), k)
            == BitOf(ReadBits(s, off, got + use, Lsb0), k)
  {
    hide ReadBits, Piece, Pow2, BitOf;
    var at, bit := (off + got) / 8, (off + got) % 8;
    var a, piece := ReadBits(s, off, got, Lsb0), Piece(s[at], bit, use, Lsb0);
    ReadBitAt(s, off, got + use, Lsb0, k);
    OrBit(a, piece * Pow2(got), k);
    ShlBit(piece, got, k);
    ReadBitAt(s, off, got, Lsb0, k);
    if k >= got {
      PieceBit(s[at], bit, use, Lsb0, k - got);
      if k < got + use {
        WireInByte(s, at, bit + (k - got), Lsb0);
      }
    }
  }

  /** Place p of byte `at`. */
  lemma {:induction false} WireInByte(s: seq<byte>, at: nat, p: nat, ord: Order)
    requires at < |s| && p < 8
    ensures Wire(s, 8 * at + p, ord) <==> BitOf(s[at], if ord.Msb0? then 7 - p else p)
  {
    hide BitOf;
  }

  /** read_bits. */
  method ReadLoop(s: seq<byte>, off: nat, n: nat, ord: Order) returns (v: nat)
    requires off + n <= 8 * |s|
    ensures v == ReadBits(s, off, n, ord)
  {
    hide Join, Piece, ReadBits;
    v := 0;
    var got := 0;
    EmptyRead(s, off, ord);
    while got < n
      invariant got <= n && v == ReadBits(s, off, got, ord)
    {
      var at, bit := (off + got) / 8, (off + got) % 8;
      var use := Min(8 - bit, n - got);
      ReadMore(s, off, got, use, ord);
      v := Join(v, got, Piece(s[at], bit, use, ord), use, ord);
      got := got + use;
    }
  }

  /** The msb0 fast path: the covering bytes as one big-endian word, shifted and masked. */
  method CoveringWord(s: seq<byte>, off: nat, n: nat) returns (v: nat)
    requires off + n <= 8 * |s| && n >= 1
    ensures v == ReadBits(s, off, n, Msb0)
  {
    hide ReadBits, Or, Pow2, Shr;
    var q, start := off / 8, off % 8;
    var nbytes := (start + n + 7) / 8;
    var w := 0;
    EmptyRead(s, 8 * q, Msb0);
    for i := 0 to nbytes
      invariant w == ReadBits(s, 8 * q, 8 * i, Msb0)
    {
      ReadMore(s, 8 * q, 8 * i, 8, Msb0);
      WholeByte(s[q + i]);
      assert (8 * q + 8 * i) / 8 == q + i && (8 * q + 8 * i) % 8 == 0;
      w := Or(w * Pow2(8), s[q + i]);
    }
    var shift := 8 * nbytes - start - n;
    v := Shr(w, shift) % Pow2(n);
    WordHolds(s, q, nbytes, off, n, shift);
  }

  lemma {:induction false} EmptyRead(s: seq<byte>, off: nat, ord: Order)
    requires off <= 8 * |s|
    ensures ReadBits(s, off, 0, ord) == 0
  {
  }

  lemma {:induction false} WholeByte(b: byte)
    ensures Piece(b, 0, 8, Msb0) == b
  {
    hide BitOf, Shr;
    Pow2Values();
    forall k: nat ensures BitOf(Piece(b, 0, 8, Msb0), k) == BitOf(b, k) {
      PieceBit(b, 0, 8, Msb0, k);
      if k >= 8 {
        HighBit(b, 8, k);
      }
    }
    BitExt(Piece(b, 0, 8, Msb0), b);
  }

  lemma {:induction false} WordHolds(s: seq<byte>, q: nat, nbytes: nat, off: nat, n: nat, shift: nat)
    requires 8 * (q + nbytes) <= 8 * |s| && 8 * q <= off && off + n + shift == 8 * (q + nbytes)
    ensures Shr(ReadBits(s, 8 * q, 8 * nbytes, Msb0), shift) % Pow2(n) == ReadBits(s, off, n, Msb0)
  {
    hide ReadBits, BitOf, Pow2, Wire, Shr;
    var w := ReadBits(s, 8 * q, 8 * nbytes, Msb0);
    forall k: nat ensures BitOf(Shr(w, shift) % Pow2(n), k) == BitOf(ReadBits(s, off, n, Msb0), k) {
      LowBit(Shr(w, shift), n, k);
      ShrBit(w, shift, k);
      ReadBitAt(s, 8 * q, 8 * nbytes, Msb0, k + shift);
      ReadBitAt(s, off, n, Msb0, k);
    }
    BitExt(Shr(w, shift) % Pow2(n), ReadBits(s, off, n, Msb0));
  }

  // ------------------------------------------------------------------
  // Writing, a byte at a time
  // ------------------------------------------------------------------

  /** ~x on m bits. */
  lemma {:induction false} NotBit(x: nat, m: nat, k: nat)
    requires x < Pow2(m)
    ensures BitOf(Pow2(m) - 1 - x, k) <==> k < m && !BitOf(x, k)
    decreases m
  {
    if m == 0 {
      BitOfZero(k);
    } else {
      assert (Pow2(m) - 1 - x) / 2 == Pow2(m - 1) - 1 - x / 2;
      if k > 0 {
        NotBit(x / 2, m - 1, k - 1);
      }
    }
  }

  /** One byte with `use` bits at `shift` replaced by a piece. */
  function Blend(b: byte, piece: nat, use: nat, shift: nat): (r: nat)
    requires use + shift <= 8
  {
    MaskFits(use, shift);
    Or(And(b, 255 - (Pow2(use) - 1) * Pow2(shift)), piece * Pow2(shift))
  }

  lemma {:induction false} MaskFits(use: nat, shift: nat)
    requires use + shift <= 8
    ensures (Pow2(use) - 1) * Pow2(shift) <= 255 && Pow2(8) == 256
  {
    hide Pow2;
    Pow2Values();
    Pow2Add(use, shift);
    Pow2Monotone(use + shift, 8);
    assert (Pow2(use) - 1) * Pow2(shift) == Pow2(use) * Pow2(shift) - Pow2(shift);
  }

  lemma {:induction false} BlendBit(b: byte, piece: nat, use: nat, shift: nat, p: nat)
    requires use + shift <= 8 && piece < Pow2(use)
    ensures BitOf(Blend(b, piece, use, shift), p) <==>
            if shift <= p < shift + use then BitOf(piece, p - shift) else BitOf(b, p)
  {
    hide Or, And, BitOf, Pow2;
    var mask := (Pow2(use) - 1) * Pow2(shift);
    MaskFits(use, shift);
    OrBit(And(b, 255 - mask), piece * Pow2(shift), p);
    AndBit(b, 255 - mask, p);
    NotBit(mask, 8, p);
    ShlBit(Pow2(use) - 1, shift, p);
    ShlBit(piece, shift, p);
    if p >= shift {
      OnesBit(use, p - shift);
      if p >= shift + use {
        HighBit(piece, use, p - shift);
      }
    }
    if p >= 8 {
      HighBit(b, 8, p);
    }
  }

  lemma {:induction false} BlendIsByte(b: byte, piece: nat, use: nat, shift: nat)
    requires use + shift <= 8 && piece < Pow2(use)
    ensures Blend(b, piece, use, shift) < 256
  {
    hide BitOf, Blend, Pow2;
    var r := Blend(b, piece, use, shift);
    Pow2Values();
    forall k: nat ensures BitOf(r % Pow2(8), k) == BitOf(r, k) {
      LowBit(r, 8, k);
      if k >= 8 {
        BlendBit(b, piece, use, shift, k);
        HighBit(b, 8, k);
      }
    }
    BitExt(r % Pow2(8), r);
  }

  /** The next `use` bits of v: from the top in msb0, from the bottom in lsb0. */
  function NextBits(v: nat, n: nat, got: nat, use: nat, ord: Order): (piece: nat)
    requires got + use <= n
    ensures piece < Pow2(use)
  {
    (if ord.Msb0? then Shr(v, n - got - use) else Shr(v, got)) % Pow2(use)
  }

  lemma {:induction false} NextBit(v: nat, n: nat, got: nat, use: nat, ord: Order, k: nat)
    requires got + use <= n
    ensures BitOf(NextBits(v, n, got, use, ord), k) <==>
            k < use && BitOf(v, k + (if ord.Msb0? then n - got - use else got))
  {
    hide Shr, Pow2, BitOf;
    var s := if ord.Msb0? then n - got - use else got;
    LowBit(Shr(v, s), use, k);
    ShrBit(v, s, k);
  }

  /** Bit x once the first `got` places of the field are written. */
  predicate PartBit(s: seq<byte>, off: nat, n: nat, got: nat, v: nat, ord: Order, x: nat)
    requires x < 8 * |s| && got <= n
  {
    var b := Flip(x, ord);
    if off <= b < off + got then BitOf(v, Place(n, b - off, ord)) else Bit(s, x)
  }

  ghost predicate PartWritten(s: seq<byte>, t: seq<byte>, off: nat, n: nat, got: nat, v: nat, ord: Order)
    requires got <= n
  {
    |t| == |s| && forall x :: 0 <= x < 8 * |s| ==> Bit(t, x) == PartBit(s, off, n, got, v, ord, x)
  }

  /** One byte more. */
  lemma {:induction false} PartMore(s: seq<byte>, t: seq<byte>, t': seq<byte>, off: nat, n: nat, got: nat, use: nat,
                                    v: nat, ord: Order)
    requires off + n <= 8 * |s| && got + use <= n && use > 0 && (off + got) % 8 + use <= 8
    requires PartWritten(s, t, off, n, got, v, ord)
    requires
      var at, bit := (off + got) / 8, (off + got) % 8;
      var shift := if ord.Msb0? then 8 - bit - use else bit;
      && |t'| == |t| && (forall j :: 0 <= j < |t| && j != at ==> t'[j] == t[j])
      && t'[at] == Blend(t[at], NextBits(v, n, got, use, ord), use, shift)
    ensures PartWritten(s, t', off, n, got + use, v, ord)
  {
    hide Blend, NextBits, BitOf, Pow2, PartBit;
    forall x | 0 <= x < 8 * |s| ensures Bit(t', x) == PartBit(s, off, n, got + use, v, ord, x) {
      PartMoreBit(s, t, t', off, n, got, use, v, ord, x);
    }
  }

  lemma {:induction false} PartMoreBit(s: seq<byte>, t: seq<byte>, t': seq<byte>, off: nat, n: nat, got: nat, use: nat,
                                       v: nat, ord: Order, x: nat)
    requires off + n <= 8 * |s| && got + use <= n && use > 0 && (off + got) % 8 + use <= 8 && x < 8 * |s|
    requires PartWritten(s, t, off, n, got, v, ord)
    requires
      var at, bit := (off + got) / 8, (off + got) % 8;
      var shift := if ord.Msb0? then 8 - bit - use else bit;
      && |t'| == |t| && (forall j :: 0 <= j < |t| && j != at ==> t'[j] == t[j])
      && t'[at] == Blend(t[at], NextBits(v, n, got, use, ord), use, shift)
    ensures Bit(t', x) == PartBit(s, off, n, got + use, v, ord, x)
  {
    hide Blend, NextBits, BitOf, Pow2;
    var at, bit := (off + got) / 8, (off + got) % 8;
    var shift := if ord.Msb0? then 8 - bit - use else bit;
    assert Bit(t, x) == PartBit(s, off, n, got, v, ord, x);
    if x / 8 == at {
      var p := x % 8;
      BlendBit(t[at], NextBits(v, n, got, use, ord), use, shift, p);
      if shift <= p < shift + use {
        NextBit(v, n, got, use, ord, p - shift);
      }
    }
  }

  /** write_bits: in place. */
  method WriteLoop(buf: array<byte>, off: nat, n: nat, v: nat, ord: Order)
    requires off + n <= 8 * buf.Length
    modifies buf
    ensures buf[..] == WriteBits(old(buf[..]), off, n, v, ord)
  {
    hide PartWritten, WriteBits, NextBits, Blend, Pow2;
    var got := 0;
    ghost var s := buf[..];
    PartStart(s, off, n, v, ord);
    while got < n
      invariant got <= n && PartWritten(s, buf[..], off, n, got, v, ord)
    {
      var at, bit := (off + got) / 8, (off + got) % 8;
      var use := Min(8 - bit, n - got);
      var shift := if ord.Msb0? then 8 - bit - use else bit;
      var piece := NextBits(v, n, got, use, ord);
      ghost var t := buf[..];
      BlendIsByte(buf[at], piece, use, shift);
      buf[at] := Blend(buf[at], piece, use, shift);
      PartMore(s, t, buf[..], off, n, got, use, v, ord);
      got := got + use;
    }
    PartEnd(s, buf[..], off, n, v, ord);
  }

  lemma {:induction false} PartStart(s: seq<byte>, off: nat, n: nat, v: nat, ord: Order)
    ensures PartWritten(s, s, off, n, 0, v, ord)
  {
  }

  lemma {:induction false} PartEnd(s: seq<byte>, t: seq<byte>, off: nat, n: nat, v: nat, ord: Order)
    requires PartWritten(s, t, off, n, n, v, ord)
    ensures t == WriteBits(s, off, n, v, ord)
  {
    hide WriteBits, Bit;
    var w := WriteBits(s, off, n, v, ord);
    forall x | 0 <= x < 8 * |s| ensures Bit(t, x) == Bit(w, x) {
      WrittenBit(s, off, n, v, ord, x);
    }
    BufferExt(t, w);
  }
}
