/** ULEB128 ("varint") and zigzag: include/nanom/nom.hpp, section 12b. */
module Leb128 {
  import opened Bytes

  /** The widths read_uleb128 is instantiated at. */
  type Width = w: nat | w == 32 || w == 64 witness 32

  datatype Uleb =
    | Value(v: nat, next: nat)
    | TooWide
    | Incomplete

  /** (w + 6) / 7: the bytes a w-bit value can occupy. */
  function MaxBytes(w: Width): (n: nat) {
    if w == 32 then 5 else 10
  }

  /** The last permitted byte carries w - 7 * (MaxBytes(w) - 1) payload bits: it stays below this. */
  function LastLimit(w: Width): (n: nat) {
    if w == 32 then 16 else 2
  }

  /** A continuation bit or payload beyond the width in the last permitted byte. */
  predicate LastByteBad(b: byte, w: Width)
    ensures LastByteBad(b, w) <==> b >= LastLimit(w)
  {
    b >= 128 || b / (if w == 32 then 16 else 2) != 0
  }

  /** What the bytes from s[p] on say, `left` of them still permitted. */
  function ReadFrom(s: seq<byte>, p: nat, left: nat, w: Width): (r: Uleb)
    requires left >= 1
    ensures r.Value? ==> p < r.next <= p + left && r.next <= |s|
    decreases left
  {
    if p >= |s| then Incomplete
    else if left == 1 then
      if s[p] >= LastLimit(w) then TooWide else Value(s[p], p + 1)
    else if s[p] < 128 then Value(s[p], p + 1)
    else
      match ReadFrom(s, p + 1, left - 1, w)
      case Value(v, next) => Value(s[p] - 128 + 128 * v, next)
      case bad => bad
  }

  /** Values spelled with `left` bytes stay below this. */
  function Cap(left: nat, w: Width): (n: nat)
    requires left >= 1
  {
    if left == 1 then LastLimit(w) else 128 * Cap(left - 1, w)
  }

  lemma {:induction false} CapIsWidth(w: Width)
    ensures Cap(MaxBytes(w), w) == Pow2(w)
  {
    Pow2Values();
    assert Cap(3, w) == 0x4000 * LastLimit(w);
    assert Cap(5, w) == 0x1000_0000 * LastLimit(w);
    assert Cap(7, w) == 0x4000 * Cap(5, w);
    assert Cap(9, w) == 0x4000 * Cap(7, w);
  }

  lemma {:induction false} ReadFromBound(s: seq<byte>, p: nat, left: nat, w: Width)
    requires left >= 1 && ReadFrom(s, p, left, w).Value?
    ensures ReadFrom(s, p, left, w).v < Cap(left, w)
    decreases left
  {
    if left > 1 {
      CapPositive(left - 1, w);
      if s[p] >= 128 {
        ReadFromBound(s, p + 1, left - 1, w);
      }
    }
  }

  lemma {:induction false} CapPositive(left: nat, w: Width)
    requires left >= 1
    ensures Cap(left, w) >= 1
  {
    if left > 1 {
      CapPositive(left - 1, w);
    }
  }

  /** One varint of at most w bits at s[at..]. */
  function Read(s: seq<byte>, at: nat, w: Width): (r: Uleb)
    ensures r.Value? ==> at < r.next <= |s| && r.v < Pow2(w)
  {
    var r := ReadFrom(s, at, MaxBytes(w), w);
    assert r.Value? ==> r.v < Pow2(w) by {
      if r.Value? {
        ReadFromBound(s, at, MaxBytes(w), w);
        CapIsWidth(w);
      }
    }
    r
  }

  /** The shortest varint of v. */
  function Uleb128(v: nat): (s: seq<byte>)
    ensures |s| >= 1
  {
    if v < 128 then [v] else [128 + v % 128] + Uleb128(v / 128)
  }

  /** The reading once the bytes before p have contributed v, k bits of it. */
  ghost function Resume(s: seq<byte>, p: nat, left: nat, w: Width, v: nat, k: nat): Uleb
    requires left >= 1
  {
    match ReadFrom(s, p, left, w)
    case Value(x, next) => Value(v + Shl(x, k), next)
    case bad => bad
  }

  lemma {:induction false} ResumeStep(s: seq<byte>, p: nat, left: nat, w: Width, v: nat, k: nat)
    requires left > 1 && p < |s| && s[p] >= 128
    ensures Resume(s, p + 1, left - 1, w, v + Shl(s[p] - 128, k), k + 7) == Resume(s, p, left, w, v, k)
  {
    match ReadFrom(s, p + 1, left - 1, w)
    case Value(x, next) =>
      ShlIsMul(x, 7);
      Pow2Values();
      ShlShl(x, 7, k);
      ShlAdd(s[p] - 128, 128 * x, k);
    case _ =>
  }

  /** include/nanom/nom.hpp:1382-1400: the accumulating loop computes the recursive reading. */
  method ReadUleb128(s: seq<byte>, at: nat, w: Width) returns (r: Uleb)
    requires at <= |s|
    ensures r == Read(s, at, w)
  {
    hide Pow2, Cap;
    var max := MaxBytes(w);
    var avail := Min(|s| - at, max);
    var v: nat := 0;
    var i: nat := 0;
    assert Shl(0, 0) == 0;
    while i < avail && i + 1 < max && s[at + i] >= 128
      invariant i <= avail && i < max
      invariant Resume(s, at + i, max - i, w, v, 7 * i) == ReadFrom(s, at, max, w)
    {
      ResumeStep(s, at + i, max - i, w, v, 7 * i);
      v := v + Shl(s[at + i] - 128, 7 * i);
      i := i + 1;
    }
    if i == avail {
      return Incomplete;
    }
    if i + 1 == max && LastByteBad(s[at + i], w) {
      return TooWide;
    }
    return Value(v + Shl(s[at + i], 7 * i), at + i + 1);
  }

  /** include/nanom/nom.hpp:1456-1465. */
  method Uleb128Encode(v: nat) returns (out: seq<byte>)
    ensures out == Uleb128(v)
  {
    var x := v;
    out := [];
    while x >= 128
      invariant out + Uleb128(x) == Uleb128(v)
    {
      ghost var before := out;
      out := out + [128 + x % 128];
      assert before + Uleb128(x) == out + Uleb128(x / 128);
      x := x / 128;
    }
    out := out + [x];
  }

  /** A varint that fits the width reads back, wherever it stands. */
  lemma {:induction false} UlebRoundTrip(s: seq<byte>, at: nat, v: nat, w: Width)
    requires v < Pow2(w) && at + |Uleb128(v)| <= |s| && s[at..at + |Uleb128(v)|] == Uleb128(v)
    ensures Read(s, at, w) == Value(v, at + |Uleb128(v)|)
  {
    hide Pow2, Uleb128, ReadFrom, Cap;
    CapIsWidth(w);
    UlebRoundTripFrom(s, at, MaxBytes(w), v, w);
  }

  lemma {:induction false} UlebRoundTripFrom(s: seq<byte>, p: nat, left: nat, v: nat, w: Width)
    requires left >= 1 && v < Cap(left, w)
    requires p + |Uleb128(v)| <= |s| && s[p..p + |Uleb128(v)|] == Uleb128(v)
    ensures ReadFrom(s, p, left, w) == Value(v, p + |Uleb128(v)|)
    decreases left
  {
    assert s[p] == Uleb128(v)[0];
    if left > 1 && v >= 128 {
      var tail := Uleb128(v / 128);
      assert Uleb128(v) == [128 + v % 128] + tail;
      assert s[p + 1..p + 1 + |tail|] == s[p..p + |Uleb128(v)|][1..] == tail;
      UlebRoundTripFrom(s, p + 1, left - 1, v / 128, w);
    }
  }

  /** Reading looks at nothing after the varint: any other suffix reads the same. */
  lemma {:induction false} ReadLocal(s: seq<byte>, t: seq<byte>, p: nat, left: nat, w: Width)
    requires left >= 1 && ReadFrom(s, p, left, w).Value?
    requires ReadFrom(s, p, left, w).next <= |t|
    requires forall k :: p <= k < ReadFrom(s, p, left, w).next ==> s[k] == t[k]
    ensures ReadFrom(t, p, left, w) == ReadFrom(s, p, left, w)
    decreases left
  {
    if left > 1 && s[p] >= 128 {
      ReadLocal(s, t, p + 1, left - 1, w);
    }
  }

  /** The same bytes elsewhere read the same. */
  lemma {:induction false} ReadMoved(s: seq<byte>, p: nat, t: seq<byte>, q: nat, left: nat, w: Width, n: nat)
    requires left >= 1 && ReadFrom(s, p, left, w).Value? && ReadFrom(s, p, left, w).next == p + n
    requires q + n <= |t| && s[p..p + n] == t[q..q + n]
    ensures ReadFrom(t, q, left, w) == Value(ReadFrom(s, p, left, w).v, q + n)
    decreases left
  {
    assert s[p] == s[p..p + n][0] == t[q..q + n][0] == t[q];
    if left > 1 && s[p] >= 128 {
      assert s[p + 1..p + n] == s[p..p + n][1..] == t[q..q + n][1..] == t[q + 1..q + n];
      ReadMoved(s, p + 1, t, q + 1, left - 1, w, n - 1);
    }
  }

  /** Bytes put in front only shift a reading. */
  lemma {:induction false} ReadShifted(a: seq<byte>, b: seq<byte>, p: nat, left: nat, w: Width)
    requires left >= 1
    ensures ReadFrom(a + b, |a| + p, left, w) ==
            match ReadFrom(b, p, left, w)
            case Value(v, next) => Value(v, |a| + next)
            case bad => bad
    decreases left
  {
    if p < |b| {
      assert (a + b)[|a| + p] == b[p];
      if left > 1 && b[p] >= 128 {
        ReadShifted(a, b, p + 1, left - 1, w);
      }
    }
  }

  lemma {:induction false} UlebLength(v: nat, k: nat)
    requires v < Pow2(7 * k) && k >= 1
    ensures |Uleb128(v)| <= k
  {
    Pow2Values();
    Pow2Add(7, 7 * (k - 1));
    if v >= 128 {
      UlebLength(v / 128, k - 1);
    }
  }

  // ------------------------------------------------------------------
  // Zigzag
  // ------------------------------------------------------------------

  /** The w-bit signed values. */
  ghost predicate IsSigned(x: int, w: nat)
    requires w >= 1
  {
    0 - Pow2(w - 1) <= x < Pow2(w - 1)
  }

  /** Two's complement of a w-bit signed value, and back (std::bit_cast). */
  function ToUnsigned(x: int, w: nat): (u: nat)
    requires w >= 1 && IsSigned(x, w)
    ensures u < Pow2(w)
  {
    if x >= 0 then x else x + Pow2(w)
  }

  function ToSigned(u: nat, w: nat): (x: int)
    requires w >= 1 && u < Pow2(w)
    ensures IsSigned(x, w) && ToUnsigned(x, w) == u
  {
    if u < Pow2(w - 1) then u else u - Pow2(w)
  }

  /** x ^ (0 - bit) on w bits: the identity for 0, the complement for 1. */
  function XorSign(x: nat, bit: nat, w: nat): (r: nat)
    requires x < Pow2(w) && bit <= 1
    ensures r < Pow2(w)
  {
    if bit == 0 then x else Pow2(w) - 1 - x
  }

  /** include/nanom/nom.hpp:1370-1375, on w-bit integers. */
  function ZigzagEncode(x: int, w: nat): (u: nat)
    requires w >= 1 && IsSigned(x, w)
    ensures u < Pow2(w)
  {
    var b := ToUnsigned(x, w);
    TopBit(b, w);
    XorSign((2 * b) % Pow2(w), b / Pow2(w - 1), w)
  }

  /** include/nanom/nom.hpp:1366-1369, on w-bit integers. */
  function ZigzagDecode(u: nat, w: nat): (x: int)
    requires w >= 1 && u < Pow2(w)
    ensures IsSigned(x, w)
  {
    ToSigned(XorSign(u / 2, u % 2, w), w)
  }

  lemma {:induction false} TopBit(b: nat, w: nat)
    requires w >= 1 && b < Pow2(w)
    ensures b / Pow2(w - 1) == if b < Pow2(w - 1) then 0 else 1
    ensures (2 * b) % Pow2(w) == if b < Pow2(w - 1) then 2 * b else 2 * b - Pow2(w)
  {
    if b < Pow2(w - 1) {
      DivModUnique(b, Pow2(w - 1), 0, b);
      DivModUnique(2 * b, Pow2(w), 0, 2 * b);
    } else {
      DivModUnique(b, Pow2(w - 1), 1, b - Pow2(w - 1));
      DivModUnique(2 * b, Pow2(w), 1, 2 * b - Pow2(w));
    }
  }

  /** The place of a signed value in zigzag order: 0, -1, 1, -2 become 0, 1, 2, 3. */
  function ZigzagNat(x: int): nat {
    if x >= 0 then 2 * x else -2 * x - 1
  }

  lemma {:induction false} ZigzagValue(x: int, w: nat)
    requires w >= 1 && IsSigned(x, w)
    ensures ZigzagEncode(x, w) == ZigzagNat(x)
  {
    TopBit(ToUnsigned(x, w), w);
  }

  /** The integer a zigzag varint stands for: 0, -1, 1, -2, 2 and so on. */
  function Unzigzag(u: nat): int {
    if u % 2 == 0 then u / 2 else -(u / 2) - 1
  }

  lemma {:induction false} ZigzagDecodeValue(u: nat, w: nat)
    requires w >= 1 && u < Pow2(w)
    ensures ZigzagDecode(u, w) == Unzigzag(u)
  {
    assert u / 2 < Pow2(w - 1);
    if u % 2 == 1 {
      assert XorSign(u / 2, u % 2, w) == Pow2(w) - 1 - u / 2;
    } else {
      assert XorSign(u / 2, u % 2, w) == u / 2;
    }
  }

  /** Zigzag is a bijection between the w-bit signed and unsigned values. */
  lemma {:induction false} ZigzagRoundTrip(x: int, w: nat)
    requires w >= 1 && IsSigned(x, w)
    ensures ZigzagDecode(ZigzagEncode(x, w), w) == x
  {
    ZigzagValue(x, w);
    ZigzagDecodeValue(ZigzagEncode(x, w), w);
  }

  lemma {:induction false} ZigzagOnto(u: nat, w: nat)
    requires w >= 1 && u < Pow2(w)
    ensures ZigzagEncode(ZigzagDecode(u, w), w) == u
  {
    ZigzagDecodeValue(u, w);
    ZigzagValue(ZigzagDecode(u, w), w);
  }

  /** Small magnitudes stay small: a value of v bits needs v bits whatever the width. */
  lemma {:induction false} ZigzagNarrow(x: int, v: nat, w: nat)
    requires 1 <= v <= w && IsSigned(x, w)
    ensures IsSigned(x, v) <==> ZigzagEncode(x, w) < Pow2(v)
  {
    ZigzagValue(x, w);
  }
}
