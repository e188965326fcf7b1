/** Spreading dense values over nullable slots, in place: include/nanom/values.hpp section 36. A slot is one
    value of `width` bytes. */
module SpreadNulls {
  import opened Bytes
  import opened BitPacking

  type Slot = seq<byte>

  function Zero(width: nat): (s: Slot)
    ensures |s| == width
  {
    seq(width, i => 0)
  }

  // ------------------------------------------------------------------
  // The simple definition
  // ------------------------------------------------------------------

  /** Bit r of the validity bitmap, least significant bit first. */
  predicate IsValid(bm: seq<byte>, r: nat) {
    Bits(LeNat(bm), r, 1) == 1
  }

  /** The valid slots below r. */
  function Rank(bm: seq<byte>, r: nat): (k: nat)
    ensures k <= r
  {
    if r == 0 then 0 else Rank(bm, r - 1) + (if IsValid(bm, r - 1) then 1 else 0)
  }

  /** Where slot r ends: its value among the dense ones, or zero bytes. */
  function Spread(bm: seq<byte>, dense: seq<Slot>, width: nat, r: nat): (s: Slot)
    requires IsValid(bm, r) ==> Rank(bm, r) < |dense|
  {
    if IsValid(bm, r) then dense[Rank(bm, r)] else Zero(width)
  }

  lemma {:induction false} RankMonotone(bm: seq<byte>, a: nat, b: nat)
    requires a <= b
    ensures Rank(bm, a) <= Rank(bm, b) <= Rank(bm, a) + (b - a)
    decreases b - a
  {
    if a < b {
      RankMonotone(bm, a, b - 1);
    }
  }

  /** A run of valid slots takes consecutive values; a run of null slots takes none. */
  lemma {:induction false} RankRun(bm: seq<byte>, a: nat, k: nat, valid: bool)
    requires forall i :: a <= i < a + k ==> IsValid(bm, i) == valid
    ensures Rank(bm, a + k) == if valid then Rank(bm, a) + k else Rank(bm, a)
    decreases k
  {
    if k > 0 {
      RankRun(bm, a, k - 1, valid);
      assert IsValid(bm, a + k - 1) == valid;
    }
  }

  // ------------------------------------------------------------------
  // Reading the bitmap
  // ------------------------------------------------------------------

  /** get_bit. */
  predicate GetBit(bm: seq<byte>, r: nat)
    requires r / 8 < |bm|
  {
    (bm[r / 8] / Pow2(r % 8)) % 2 == 1
  }

  lemma {:induction false} GetBitIs(bm: seq<byte>, r: nat)
    requires r / 8 < |bm|
    ensures GetBit(bm, r) == IsValid(bm, r)
  {
    hide LeNat, Bits;
    var b := r / 8;
    assert bm[b..b + 1] == [bm[b]];
    LeNatSingle(bm[b]);
    BitsOfSlice(bm, b, b + 1, r % 8, 1);
    OneBit(bm[b], r % 8);
  }

  lemma {:induction false} OneBit(n: nat, k: nat)
    ensures Bits(n, k, 1) == (n / Pow2(k)) % 2
  {
    assert Pow2(1) == 2 * Pow2(0);
  }

  function WordAt(bm: seq<byte>, r: nat): (w: nat)
    requires r % 64 == 0 && r / 8 + 8 <= |bm|
  {
    LeNat(bm[r / 8..r / 8 + 8])
  }

  lemma {:induction false} WordBit(bm: seq<byte>, r: nat, k: nat)
    requires r % 64 == 0 && r / 8 + 8 <= |bm| && k < 64
    ensures (WordAt(bm, r) / Pow2(k)) % 2 == 1 <==> IsValid(bm, r + k)
  {
    hide LeNat, Bits;
    BitsOfSlice(bm, r / 8, r / 8 + 8, k, 1);
    OneBit(WordAt(bm, r), k);
  }

  lemma {:induction false} AllOnes(k: nat)
    requires k < 64
    ensures ((Pow2(64) - 1) / Pow2(k)) % 2 == 1
  {
    hide Pow2;
    Pow2Add(64 - k, k);
    assert Pow2(64) - 1 == (Pow2(64 - k) - 1) * Pow2(k) + (Pow2(k) - 1);
    DivModUnique(Pow2(64) - 1, Pow2(k), Pow2(64 - k) - 1, Pow2(k) - 1);
    assert Pow2(64 - k) == 2 * Pow2(63 - k) by { Pow2Succ(63 - k); }
  }

  lemma {:induction false} Pow2Succ(k: nat)
    ensures Pow2(k + 1) == 2 * Pow2(k)
  {
  }

  lemma {:induction false} UniformWord(bm: seq<byte>, r: nat, valid: bool)
    requires r % 64 == 0 && r / 8 + 8 <= |bm| && WordAt(bm, r) == if valid then 0xFFFF_FFFF_FFFF_FFFF else 0
    ensures forall i :: r <= i < r + 64 ==> IsValid(bm, i) == valid
  {
    hide WordAt, IsValid, Pow2;
    forall i | r <= i < r + 64 ensures IsValid(bm, i) == valid {
      WordBit(bm, r, i - r);
      if valid {
        Pow2Values();
        AllOnes(i - r);
      } else {
        DivModUnique(0, Pow2(i - r), 0, 0);
      }
    }
  }

  /** After k left shifts the top bit is bit 63 - k. */
  lemma {:induction false} TopAfterShifts(w: nat, k: nat)
    requires k < 64
    ensures ((w * Pow2(k)) % Pow2(64)) / Pow2(63) == (w / Pow2(63 - k)) % 2
  {
    hide Pow2;
    var a, b := Pow2(k), Pow2(63 - k);
    Pow2Add(k, 63 - k);
    Pow2Succ(63);
    Pow2Succ(63 - k);
    ShiftedTop(w, a, b, Pow2(63), Pow2(64));
  }

  lemma {:induction false} ShiftedTop(w: nat, a: nat, b: nat, half: nat, top: nat)
    requires a > 0 && b > 0 && half == a * b && top == 2 * half
    ensures half > 0 && ((w * a) % top) / half == (w / b) % 2
  {
    var q, r := w / b, w % b;
    assert 0 <= r * a < half by { MulMono(r + 1, b, a); }
    assert w * a == q * half + r * a by {
      assert w == q * b + r;
      assert (q * b + r) * a == (q * b) * a + r * a;
      MulAssoc(q, b, a);
    }
    TopOf(q, r * a, half);
  }

  lemma {:induction false} TopOf(q: nat, x: nat, half: nat)
    requires x < half
    ensures ((q * half + x) % (2 * half)) / half == q % 2
  {
    var h, b := q / 2, q % 2;
    var low := (if b == 1 then half else 0) + x;
    assert q * half == h * (2 * half) + (if b == 1 then half else 0) by {
      assert q == 2 * h + b;
      assert (2 * h + b) * half == 2 * h * half + b * half;
    }
    DivModUnique(q * half + x, 2 * half, h, low);
    DivModUnique(low, half, b, x);
  }

  // ------------------------------------------------------------------
  // In place
  // ------------------------------------------------------------------

  /** Slots r .. n are final, the first j == Rank(r) dense values still stand in front, nothing past n moved. */
  ghost predicate Partly(dst: seq<Slot>, before: seq<Slot>, bm: seq<byte>, width: nat, n: nat, j: nat, r: nat) {
    && |dst| == |before| && r <= n <= |dst| && j == Rank(bm, r) && Rank(bm, n) <= |dst|
    && (forall i :: 0 <= i < j ==> dst[i] == before[i])
    && (forall i :: r <= i < n ==> Placed(dst, before, bm, width, i))
    && (forall i :: n <= i < |dst| ==> dst[i] == before[i])
  }

  ghost predicate Placed(dst: seq<Slot>, before: seq<Slot>, bm: seq<byte>, width: nat, i: nat)
    requires i < |dst|
  {
    Rank(bm, i) < |before| && dst[i] == Spread(bm, before, width, i)
  }

  /** The slots r - k .. r put in place, nothing else touched. */
  lemma {:induction false} PartlyBlock(dst: seq<Slot>, dst': seq<Slot>, before: seq<Slot>, bm: seq<byte>, width: nat,
                                       n: nat, j: nat, r: nat, k: nat)
    requires Partly(dst, before, bm, width, n, j, r) && k <= r && |dst'| == |dst|
    requires forall i :: 0 <= i < |dst| && !(r - k <= i < r) ==> dst'[i] == dst[i]
    requires forall i :: r - k <= i < r ==> dst'[i] == if IsValid(bm, i) then before[Rank(bm, i)] else Zero(width)
    ensures Partly(dst', before, bm, width, n, Rank(bm, r - k), r - k)
  {
    hide IsValid, Rank, Zero;
    RankMonotone(bm, r - k, r);
    forall i | r - k <= i < n ensures Placed(dst', before, bm, width, i) {
      if i >= r {
        assert Placed(dst, before, bm, width, i);
      }
    }
  }

  /** One slot, by branch (values.hpp:367-373 and the last loop of spread_nulls). */
  method OneSlot(dst: array<Slot>, bm: seq<byte>, width: nat, j: nat, r: nat, ghost before: seq<Slot>, ghost n: nat)
    returns (j': nat)
    requires 0 < r <= 8 * |bm| && Partly(dst[..], before, bm, width, n, j, r)
    modifies dst
    ensures Partly(dst[..], before, bm, width, n, j', r - 1)
  {
    hide IsValid, GetBit, Placed, Zero;
    GetBitIs(bm, r - 1);
    ghost var was := dst[..];
    if GetBit(bm, r - 1) {
      j' := j - 1;
      assert dst[j'] == was[j'];
      if j' != r - 1 {
        dst[r - 1] := dst[j'];
      }
    } else {
      j' := j;
      dst[r - 1] := Zero(width);
    }
    PartlyBlock(was, dst[..], before, bm, width, n, j, r, 1);
  }

  /** memset of k slots at r. */
  method Clear(dst: array<Slot>, r: nat, k: nat, width: nat)
    requires r + k <= dst.Length
    modifies dst
    ensures forall i :: r <= i < r + k ==> dst[i] == Zero(width)
    ensures forall i :: 0 <= i < dst.Length && !(r <= i < r + k) ==> dst[i] == old(dst[i])
  {
    hide Zero;
    for i := 0 to k
      invariant forall m :: r <= m < r + i ==> dst[m] == Zero(width)
      invariant forall m :: 0 <= m < dst.Length && !(r <= m < r + k) ==> dst[m] == old(dst[m])
    {
      dst[r + i] := Zero(width);
    }
  }

  /** memmove of k slots from j up to r: from the back, so overlap is harmless. */
  method MoveUp(dst: array<Slot>, r: nat, j: nat, k: nat)
    requires j <= r && r + k <= dst.Length
    modifies dst
    ensures forall i :: r <= i < r + k ==> dst[i] == old(dst[i - r + j])
    ensures forall i :: 0 <= i < dst.Length && !(r <= i < r + k) ==> dst[i] == old(dst[i])
  {
    for i := k downto 0
      invariant forall m :: r + i <= m < r + k ==> dst[m] == old(dst[m - r + j])
      invariant forall m :: 0 <= m < dst.Length && !(r + i <= m < r + k) ==> dst[m] == old(dst[m])
    {
      dst[r + i] := dst[j + i];
    }
  }

  /** A word of 64 valid slots moves as one block. */
  method FullWord(dst: array<Slot>, bm: seq<byte>, width: nat, j: nat, r: nat, ghost before: seq<Slot>, ghost n: nat)
    requires 64 <= r && r % 64 == 0 && r <= 8 * |bm| && WordAt(bm, r - 64) == 0xFFFF_FFFF_FFFF_FFFF
    requires Partly(dst[..], before, bm, width, n, j, r)
    modifies dst
    ensures j >= 64 && Partly(dst[..], before, bm, width, n, j - 64, r - 64)
  {
    hide IsValid, Placed, Zero, Rank, WordAt;
    ghost var was := dst[..];
    UniformWord(bm, r - 64, true);
    RankRun(bm, r - 64, 64, true);
    RankMonotone(bm, 0, r - 64);
    RankSmall(bm, r - 64);
    if j - 64 != r - 64 {
      MoveUp(dst, r - 64, j - 64, 64);
    }
    forall i | r - 64 <= i < r ensures dst[i] == before[Rank(bm, i)] {
      RankRun(bm, r - 64, i - (r - 64), true);
      assert was[i - (r - 64) + (j - 64)] == before[i - (r - 64) + (j - 64)];
    }
    PartlyBlock(was, dst[..], before, bm, width, n, j, r, 64);
  }

  lemma {:induction false} RankSmall(bm: seq<byte>, r: nat)
    ensures Rank(bm, r) <= r
  {
  }

  /** A word of 64 null slots is cleared. */
  method EmptyWord(dst: array<Slot>, bm: seq<byte>, width: nat, j: nat, r: nat, ghost before: seq<Slot>, ghost n: nat)
    requires 64 <= r && r % 64 == 0 && r <= 8 * |bm| && WordAt(bm, r - 64) == 0
    requires Partly(dst[..], before, bm, width, n, j, r)
    modifies dst
    ensures Partly(dst[..], before, bm, width, n, j, r - 64)
  {
    hide IsValid, Placed, Zero, Rank, WordAt;
    ghost var was := dst[..];
    UniformWord(bm, r - 64, false);
    RankRun(bm, r - 64, 64, false);
    Clear(dst, r - 64, 64, width);
    PartlyBlock(was, dst[..], before, bm, width, n, j, r, 64);
  }

  /** A mixed word, 64 branchless steps: the value below j is read whatever the bit, kept or masked to zero
      (values.hpp:342-365). With j >= 64 the read stays inside the buffer. */
  method MixedWord(dst: array<Slot>, bm: seq<byte>, width: nat, j: nat, r: nat, ghost before: seq<Slot>, ghost n: nat)
    returns (j': nat)
    requires 64 <= r && r % 64 == 0 && r <= 8 * |bm| && j >= 64
    requires Partly(dst[..], before, bm, width, n, j, r)
    modifies dst
    ensures Partly(dst[..], before, bm, width, n, j', r - 64)
  {
    hide IsValid, Placed, Zero, Rank, WordAt, Pow2;
    var w := WordAt(bm, r - 64);
    j' := j;
    ghost var word := w;
    assert word * Pow2(0) == word by { PowZero(); }
    WordFits(bm, r - 64);
    for k := 0 to 64
      invariant j' >= 64 - k && Partly(dst[..], before, bm, width, n, j', r - k)
      invariant w == (word * Pow2(k)) % Pow2(64)
    {
      TopAfterShifts(word, k);
      WordBit(bm, r - 64, 63 - k);
      var bit := w / Pow2(63);
      w := ShiftLeft(w, word, k);
      ghost var was := dst[..];
      var v := dst[j' - 1];
      StepFacts(dst[..], before, bm, width, n, j', r - k);
      dst[r - k - 1] := if bit == 1 then v else Zero(width);
      PartlyBlock(was, dst[..], before, bm, width, n, j', r - k, 1);
      j' := j' - bit;
    }
  }

  lemma {:induction false} PowZero()
    ensures Pow2(0) == 1
  {
  }

  lemma {:induction false} WordFits(bm: seq<byte>, r: nat)
    requires r % 64 == 0 && r / 8 + 8 <= |bm|
    ensures WordAt(bm, r) < Pow2(64) && WordAt(bm, r) % Pow2(64) == WordAt(bm, r)
  {
    hide Pow2, LeNat;
    LeNatBound(bm[r / 8..r / 8 + 8]);
    DivModUnique(WordAt(bm, r), Pow2(64), 0, WordAt(bm, r));
  }

  /** word <<= 1 on 64 bits. */
  method ShiftLeft(w: nat, ghost word: nat, ghost k: nat) returns (w': nat)
    requires w == (word * Pow2(k)) % Pow2(64)
    ensures w' == (word * Pow2(k + 1)) % Pow2(64)
  {
    hide Pow2;
    w' := (2 * w) % Pow2(64);
    Pow2Succ(k);
    DoubleMod(word * Pow2(k), Pow2(64));
    assert 2 * (word * Pow2(k)) == word * (2 * Pow2(k));
  }

  lemma {:induction false} DoubleMod(x: nat, m: nat)
    requires m > 0
    ensures (2 * (x % m)) % m == (2 * x) % m
  {
    var q := x / m;
    assert x == q * m + x % m;
    var y := 2 * (x % m);
    var q2 := y / m;
    assert 2 * x == (2 * q) * m + y by { assert 2 * (q * m) == (2 * q) * m; }
    assert 2 * x == (2 * q + q2) * m + y % m by { assert (2 * q + q2) * m == (2 * q) * m + q2 * m; }
    DivModUnique(2 * x, m, 2 * q + q2, y % m);
  }

  /** The value a valid slot r - 1 takes stands at j - 1. */
  lemma {:induction false} StepFacts(dst: seq<Slot>, before: seq<Slot>, bm: seq<byte>, width: nat, n: nat, j: nat,
                                     r: nat)
    requires Partly(dst, before, bm, width, n, j, r) && r > 0 && j > 0
    ensures j <= r && dst[j - 1] == before[j - 1]
    ensures Rank(bm, r - 1) == if IsValid(bm, r - 1) then j - 1 else j
  {
  }

  /** values.hpp:321-374: words as blocks, mixed words without branches, single steps elsewhere. */
  method SpreadWords(dst: array<Slot>, n: nat, nn: nat, width: nat, bm: seq<byte>, ghost before: seq<Slot>)
    requires n <= dst.Length && (n + 63) / 64 * 8 <= |bm| && nn == Rank(bm, n) && before == dst[..]
    modifies dst
    ensures Partly(dst[..], before, bm, width, n, 0, 0)
  {
    hide IsValid, Placed, Zero, Rank, WordAt;
    var j, r := nn, n;
    RankSmall(bm, n);
    while r > 0
      invariant 0 <= r <= n && 0 <= j && Partly(dst[..], before, bm, width, n, j, r)
      decreases r
    {
      if j == 0 {
        ghost var was := dst[..];
        OnlyNulls(bm, r);
        Clear(dst, 0, r, width);
        PartlyBlock(was, dst[..], before, bm, width, n, 0, r, r);
        RankNone(bm);
        return;
      }
      if r % 64 == 0 {
        var word := WordAt(bm, r - 64);
        if word == 0xFFFF_FFFF_FFFF_FFFF {
          FullWord(dst, bm, width, j, r, before, n);
          j, r := j - 64, r - 64;
          continue;
        }
        if word == 0 {
          EmptyWord(dst, bm, width, j, r, before, n);
          r := r - 64;
          continue;
        }
        if j >= 64 {
          j := MixedWord(dst, bm, width, j, r, before, n);
          r := r - 64;
          continue;
        }
      }
      j := OneSlot(dst, bm, width, j, r, before, n);
      r := r - 1;
    }
    RankNone(bm);
  }

  lemma {:induction false} RankNone(bm: seq<byte>)
    ensures Rank(bm, 0) == 0
  {
  }

  lemma {:induction false} OnlyNulls(bm: seq<byte>, r: nat)
    requires Rank(bm, r) == 0
    ensures forall i :: 0 <= i < r ==> !IsValid(bm, i)
    decreases r
  {
    hide IsValid;
    if r > 0 {
      OnlyNulls(bm, r - 1);
    }
  }

  /** spread_nulls (values.hpp:380-399): for every width and bitmap, slot r ends as the dense value of its rank if
      valid and as zero bytes otherwise, though everything happens in the one buffer. */
  method Spreading(dst: array<Slot>, n: nat, nn: nat, width: nat, bm: seq<byte>)
    requires n <= dst.Length && (n + 63) / 64 * 8 <= |bm| && nn == Rank(bm, n)
    modifies dst
    ensures forall r :: 0 <= r < n ==>
      Rank(bm, r) <= r && dst[r] == if IsValid(bm, r) then old(dst[Rank(bm, r)]) else Zero(width)
    ensures forall r :: n <= r < dst.Length ==> dst[r] == old(dst[r])
  {
    hide IsValid, Zero, Rank;
    ghost var before := dst[..];
    if width in {1, 2, 4, 8, 16} {
      SpreadWords(dst, n, nn, width, bm, before);
    } else {
      var j := nn;
      RankSmall(bm, n);
      for r := n downto 0
        invariant Partly(dst[..], before, bm, width, n, j, r)
      {
        j := OneSlot(dst, bm, width, j, r + 1, before, n);
      }
    }
    forall r | 0 <= r < n
      ensures Rank(bm, r) <= r && dst[r] == if IsValid(bm, r) then old(dst[Rank(bm, r)]) else Zero(width)
    {
      RankSmall(bm, r);
      assert Placed(dst[..], before, bm, width, r);
    }
  }
}
