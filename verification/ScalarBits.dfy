/** Byte order in the terms of bit fields: a big-endian scalar is the msb0 field of its bits, a little-endian one the
    lsb0 field (include/nanom/reflect.hpp:196-256, include/nanom/emit.hpp:115-140). */
module ScalarBits {
  import opened Bytes
  import opened BitOps
  import opened BitFields
  import opened StructCodec

  function OrderOf(big: bool): Order {
    if big then Msb0 else Lsb0
  }

  lemma {:induction false} ByteCons(x: byte, rest: nat, k: nat)
    ensures BitOf(x + 256 * rest, k) <==> if k < 8 then BitOf(x, k) else BitOf(rest, k - 8)
  {
    hide BitOf;
    var n := x + 256 * rest;
    assert Pow2(8) == 256 by { Pow2Values(); }
    if k < 8 {
      LowBit(n, 8, k);
      DivModUnique(n, 256, rest, x);
    } else {
      ShrBit(n, 8, k - 8);
      DivModUnique(n, 256, rest, x);
    }
  }

  lemma {:induction false} LeNatBit(b: seq<byte>, k: nat)
    requires k < 8 * |b|
    ensures BitOf(LeNat(b), k) <==> BitOf(b[k / 8], k % 8)
    decreases |b|
  {
    hide BitOf;
    ByteCons(b[0], LeNat(b[1..]), k);
    if k >= 8 {
      LeNatBit(b[1..], k - 8);
      assert (k - 8) / 8 == k / 8 - 1 && (k - 8) % 8 == k % 8;
    }
  }

  lemma {:induction false} BeNatBit(b: seq<byte>, k: nat)
    requires k < 8 * |b|
    ensures BitOf(BeNat(b), k) <==> BitOf(b[|b| - 1 - k / 8], k % 8)
    decreases |b|
  {
    hide BitOf;
    var front := b[..|b| - 1];
    ByteCons(b[|b| - 1], BeNat(front), k);
    if k >= 8 {
      BeNatBit(front, k - 8);
      assert (k - 8) / 8 == k / 8 - 1 && (k - 8) % 8 == k % 8;
    }
  }

  /** Reading: a scalar at byte `at` is the bit field of its width there. */
  lemma {:induction false} ScalarIsField(s: seq<byte>, at: nat, size: nat, big: bool)
    requires at + size <= |s|
    ensures UintOf(s[at..at + size], big) == ReadBits(s, 8 * at, 8 * size, OrderOf(big))
  {
    hide BitOf, ReadBits, LeNat, BeNat, Wire;
    var b, v := s[at..at + size], ReadBits(s, 8 * at, 8 * size, OrderOf(big));
    UintBound(b, big);
    forall k | 0 <= k < 8 * size ensures BitOf(UintOf(b, big), k) == BitOf(v, k) {
      ReadBitAt(s, 8 * at, 8 * size, OrderOf(big), k);
      if big {
        BeNatBit(b, k);
        WireInByte(s, at + (size - 1 - k / 8), 7 - k % 8, Msb0);
      } else {
        LeNatBit(b, k);
        WireInByte(s, at + k / 8, k % 8, Lsb0);
      }
    }
    BitExtBelow(UintOf(b, big), v, 8 * size);
  }

  /** Writing: the scalar's bytes over the buffer are the bit field written into it. */
  lemma {:induction false} ScalarWritesField(s: seq<byte>, at: nat, size: nat, u: nat, big: bool)
    requires at + size <= |s| && u < Pow2(8 * size)
    ensures Patch(s, at, UintBytes(u, size, big)) == WriteBits(s, 8 * at, 8 * size, u, OrderOf(big))
  {
    hide Pow2, BitOf, ReadBits, WriteBits, LeNat, BeNat, LeBytes, BeBytes, Bit;
    var ord := OrderOf(big);
    var t := WriteBits(s, 8 * at, 8 * size, u, ord);
    ReadOfWrite(s, 8 * at, 8 * size, u, ord);
    ScalarIsField(t, at, size, big);
    UintThere(t[at..at + size], big);
    var patched := Patch(s, at, t[at..at + size]);
    forall x | 0 <= x < 8 * |s| ensures Bit(patched, x) == Bit(t, x) {
      SlicePatch(s, t, at, size, x);
      if !(8 * at <= x < 8 * (at + size)) {
        FieldElsewhere(s, at, size, u, ord, x);
      }
    }
    BufferExt(patched, t);
  }

  lemma {:induction false} FieldElsewhere(s: seq<byte>, at: nat, size: nat, u: nat, ord: Order, x: nat)
    requires at + size <= |s| && x < 8 * |s| && !(8 * at <= x < 8 * (at + size))
    ensures Bit(WriteBits(s, 8 * at, 8 * size, u, ord), x) == Bit(s, x)
  {
    hide Bit, WriteBits;
    WrittenBit(s, 8 * at, 8 * size, u, ord, x);
    FlipAligned(x, 8 * at, ord);
    FlipAligned(x, 8 * (at + size), ord);
  }
}
