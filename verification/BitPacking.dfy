/** LSB-first bit packing: include/nanom/columnar.hpp section 26 and columnar_encode.hpp section 45. */
module BitPacking {
  import opened Bytes

  // ------------------------------------------------------------------
  // The simple definition
  // ------------------------------------------------------------------

  /** The w bits of n from bit pos up. */
  function Bits(n: nat, pos: nat, w: nat): (v: nat)
    ensures v < Pow2(w)
  {
    Shr(n, pos) % Pow2(w)
  }

  /** The number that holds vs side by side, w bits each, the first lowest. */
  function PackNat(vs: seq<nat>, w: nat): (n: nat)
  {
    if |vs| == 0 then 0 else vs[0] + Pow2(w) * PackNat(vs[1..], w)
  }

  function CeilDiv8(bits: nat): nat {
    (bits + 7) / 8
  }

  /** What packing vs writes. */
  function Packed(vs: seq<nat>, w: nat): (s: seq<byte>)
    ensures |s| == CeilDiv8(|vs| * w)
  {
    LeBytes(PackNat(vs, w), CeilDiv8(|vs| * w))
  }

  /** The first n values of a packed byte string; missing bytes read as zero. */
  function Unpacked(s: seq<byte>, w: nat, n: nat): (vs: seq<nat>)
    ensures |vs| == n
  {
    seq(n, i requires 0 <= i < n => Field(s, w, i))
  }

  /** Value i of a packed byte string. */
  function Field(s: seq<byte>, w: nat, i: nat): (v: nat)
    ensures v < Pow2(w)
  {
    Bits(LeNat(s), i * w, w)
  }

  ghost predicate AllFit(vs: seq<nat>, w: nat) {
    forall i :: 0 <= i < |vs| ==> vs[i] < Pow2(w)
  }

  // ------------------------------------------------------------------
  // Facts about bits
  // ------------------------------------------------------------------

  lemma {:induction false} BitsShift(n: nat, a: nat, pos: nat, w: nat)
    ensures Bits(Shr(n, a), pos, w) == Bits(n, a + pos, w)
  {
    hide Pow2;
    ShiftTwice(n, a, pos);
  }

  lemma {:induction false} ShiftTwice(n: nat, a: nat, b: nat)
    ensures Shr(Shr(n, a), b) == Shr(n, a + b)
  {
    hide Pow2;
    Pow2Add(a, b);
    ShiftBy(n, Pow2(a), Pow2(b), Pow2(a + b));
  }

  lemma {:induction false} ShiftBy(n: nat, p: nat, q: nat, pq: nat)
    requires p > 0 && q > 0 && pq == p * q
    ensures pq > 0 && (n / p) / q == n / pq
  {
    DivDiv(n, p, q);
  }

  /** Only the bits below pos + w matter. */
  lemma {:induction false} BitsTruncate(n: nat, len: nat, pos: nat, w: nat)
    requires pos + w <= len
    ensures Bits(n % Pow2(len), pos, w) == Bits(n, pos, w)
  {
    hide Pow2;
    Pow2Add(pos, len - pos);
    Pow2Add(w, len - pos - w);
    BitsTruncateBy(n, Pow2(pos), Pow2(w), Pow2(len - pos - w), Pow2(len));
  }

  lemma {:induction false} BitsTruncateBy(n: nat, p: nat, q: nat, r: nat, l: nat)
    requires p > 0 && q > 0 && r > 0 && l == p * (q * r)
    ensures l > 0 && (n % l) / p % q == (n / p) % q
  {
    assert q * r > 0;
    ModDiv(n, p, q * r);
    ModMod(n / p, q, r);
  }

  /** A slice of the bytes holds the same bits. */
  lemma {:induction false} BitsOfSlice(s: seq<byte>, a: nat, b: nat, pos: nat, w: nat)
    requires a <= b <= |s| && pos + w <= 8 * (b - a)
    ensures Bits(LeNat(s[a..b]), pos, w) == Bits(LeNat(s), 8 * a + pos, w)
  {
    hide Pow2, LeNat, Bits;
    LeNatSlice(s, a, b);
    BitsTruncate(Shr(LeNat(s), 8 * a), 8 * (b - a), pos, w);
    BitsShift(LeNat(s), 8 * a, pos, w);
  }

  lemma {:induction false} BitsOfSuffix(s: seq<byte>, a: nat, pos: nat, w: nat)
    requires a <= |s|
    ensures Bits(LeNat(s[a..]), pos, w) == Bits(LeNat(s), 8 * a + pos, w)
  {
    hide Pow2, LeNat, Bits;
    LeNatDrop(s, a);
    BitsShift(LeNat(s), 8 * a, pos, w);
  }

  lemma {:induction false} BitsPastEnd(s: seq<byte>, pos: nat, w: nat)
    requires pos >= 8 * |s|
    ensures Bits(LeNat(s), pos, w) == 0
  {
    hide LeNat;
    LeNatBound(s);
    Pow2Monotone(8 * |s|, pos);
    DivModUnique(LeNat(s), Pow2(pos), 0, LeNat(s));
    DivModUnique(0, Pow2(w), 0, 0);
  }

  // ------------------------------------------------------------------
  // Packed values come back
  // ------------------------------------------------------------------

  lemma {:induction false} PackNatBound(vs: seq<nat>, w: nat)
    requires AllFit(vs, w)
    ensures PackNat(vs, w) < Pow2(w * |vs|)
  {
    if |vs| > 0 {
      PackNatBound(vs[1..], w);
      Pow2Add(w, w * (|vs| - 1));
      assert w + w * (|vs| - 1) == w * |vs|;
      HornerBound(vs[0], Pow2(w), PackNat(vs[1..], w), Pow2(w * (|vs| - 1)));
    }
  }

  lemma {:induction false} HornerBound(v: nat, p: nat, x: nat, q: nat)
    requires v < p && x < q
    ensures v + p * x < p * q
  {
    MulMono(x, q - 1, p);
    assert p * x <= p * (q - 1) == p * q - p;
  }

  lemma {:induction false} PackNatConcat(vs: seq<nat>, us: seq<nat>, w: nat)
    ensures PackNat(vs + us, w) == PackNat(vs, w) + Pow2(w * |vs|) * PackNat(us, w)
  {
    if |vs| == 0 {
      assert vs + us == us;
    } else {
      assert (vs + us)[1..] == vs[1..] + us;
      PackNatConcat(vs[1..], us, w);
      Pow2Add(w, w * (|vs| - 1));
      assert w + w * (|vs| - 1) == w * |vs|;
      HornerConcat(vs[0], Pow2(w), PackNat(vs[1..], w), Pow2(w * (|vs| - 1)), PackNat(us, w));
    }
  }

  lemma {:induction false} HornerConcat(v: nat, p: nat, x: nat, q: nat, y: nat)
    ensures v + p * (x + q * y) == v + p * x + (p * q) * y
  {
    assert p * (x + q * y) == p * x + p * (q * y);
    MulAssoc(p, q, y);
  }

  /** Value i of the packed number, whatever is packed above it. */
  lemma {:induction false} BitsOfPack(vs: seq<nat>, w: nat, i: nat)
    requires AllFit(vs, w) && i < |vs|
    ensures Bits(PackNat(vs, w), i * w, w) == vs[i]
  {
    hide Pow2, PackNat;
    var lo, hi := PackNat(vs[..i], w), PackNat(vs[i + 1..], w);
    assert vs == vs[..i] + vs[i..] && vs[i..] == [vs[i]] + vs[i + 1..];
    PackNatConcat(vs[..i], vs[i..], w);
    PackNatOne(vs[i], vs[i + 1..], w);
    PackNatBound(vs[..i], w);
    assert w * i == i * w;
    ConcatDivMod(PackNat(vs, w), Pow2(i * w), vs[i] + Pow2(w) * hi, lo);
    ConcatDivMod(vs[i] + Pow2(w) * hi, Pow2(w), hi, vs[i]);
  }

  lemma {:induction false} PackNatOne(v: nat, rest: seq<nat>, w: nat)
    ensures PackNat([v] + rest, w) == v + Pow2(w) * PackNat(rest, w)
  {
    assert ([v] + rest)[1..] == rest;
  }

  /** Packing then unpacking returns the values, whatever bytes follow. */
  lemma {:induction false} PackRoundTrip(vs: seq<nat>, w: nat, suffix: seq<byte>)
    requires AllFit(vs, w)
    ensures Unpacked(Packed(vs, w) + suffix, w, |vs|) == vs
  {
    hide Pow2, PackNat, LeNat, LeBytes, AllFit, Bits;
    var s := Packed(vs, w) + suffix;
    PackedNat(vs, w);
    forall i | 0 <= i < |vs| ensures Field(s, w, i) == vs[i] {
      assert s[0..|Packed(vs, w)|] == Packed(vs, w);
      RowFits(i, |vs|, w);
      BitsOfSlice(s, 0, |Packed(vs, w)|, i * w, w);
      BitsOfPack(vs, w, i);
    }
  }

  lemma {:induction false} RowFits(i: nat, n: nat, w: nat)
    requires i < n
    ensures i * w + w <= n * w <= 8 * CeilDiv8(n * w)
  {
    MulMono(i + 1, n, w);
    assert (i + 1) * w == i * w + w;
  }

  lemma {:induction false} PackedNat(vs: seq<nat>, w: nat)
    requires AllFit(vs, w)
    ensures LeNat(Packed(vs, w)) == PackNat(vs, w)
  {
    hide LeBytes, LeNat, PackNat;
    PackNatBound(vs, w);
    assert w * |vs| == |vs| * w;
    Pow2Monotone(w * |vs|, 8 * CeilDiv8(|vs| * w));
    LeNatLeBytes(PackNat(vs, w), CeilDiv8(|vs| * w));
  }

  // ------------------------------------------------------------------
  // The unpacking kernels
  // ------------------------------------------------------------------

  /** One value by a 64-bit load, a shift and a mask (columnar.hpp:45-50), or by two loads when it
      can straddle nine bytes (51-60). */
  function LoadField(s: seq<byte>, bit: nat, w: nat): (v: nat)
    requires 1 <= w <= 64 && bit / 8 + 8 <= |s| && (w > 56 && bit % 8 != 0 ==> bit / 8 + 9 <= |s|)
  {
    var at, sh := bit / 8, bit % 8;
    var lo := LeNat(s[at..at + 8]);
    if w <= 56 then (lo / Pow2(sh)) % Pow2(w)
    else
      var hi := if sh != 0 then (s[at + 8] * Pow2(64 - sh)) % Pow2(64) else 0;
      (lo / Pow2(sh) + hi) % Pow2(w)
  }

  lemma {:induction false} LoadFieldIsBits(s: seq<byte>, bit: nat, w: nat)
    requires 1 <= w <= 64 && bit / 8 + 8 <= |s| && (w > 56 && bit % 8 != 0 ==> bit / 8 + 9 <= |s|)
    ensures LoadField(s, bit, w) == Bits(LeNat(s), bit, w)
  {
    hide Pow2, LeNat, Bits, LoadField;
    var at, sh := bit / 8, bit % 8;
    LoadFieldDef(s, bit, w, at, sh);
    if w <= 56 || sh == 0 {
      BitsOfSlice(s, at, at + 8, sh, w);
    } else {
      BitsOfSlice(s, at, at + 9, sh, w);
      TwoLoads(s[at..at + 9], sh, w);
      assert s[at..at + 9][..8] == s[at..at + 8];
    }
  }

  lemma {:induction false} LoadFieldDef(s: seq<byte>, bit: nat, w: nat, at: nat, sh: nat)
    requires 1 <= w <= 64 && bit / 8 + 8 <= |s| && (w > 56 && bit % 8 != 0 ==> bit / 8 + 9 <= |s|)
    requires at == bit / 8 && sh == bit % 8
    ensures w <= 56 || sh == 0 ==> LoadField(s, bit, w) == Bits(LeNat(s[at..at + 8]), sh, w)
    ensures w > 56 && sh > 0 ==>
              LoadField(s, bit, w) == (LeNat(s[at..at + 8]) / Pow2(sh) + (s[at + 8] * Pow2(64 - sh)) % Pow2(64)) % Pow2(w)
  {
    hide Pow2, LeNat;
  }

  lemma {:induction false} TwoLoads(s: seq<byte>, sh: nat, w: nat)
    requires |s| == 9 && 1 <= sh <= 7 && w <= 64
    ensures (LeNat(s[..8]) / Pow2(sh) + (s[8] * Pow2(64 - sh)) % Pow2(64)) % Pow2(w) == Bits(LeNat(s), sh, w)
  {
    hide Pow2, LeNat;
    assert s == s[..8] + s[8..9] && s[8..9] == [s[8]];
    LeNatConcat(s[..8], s[8..9]);
    LeNatSingle(s[8]);
    Pow2Add(sh, 64 - sh);
    Pow2Add(w, 64 - w);
    TwoLoadsBy(LeNat(s[..8]), s[8], Pow2(sh), Pow2(64 - sh), Pow2(w), Pow2(64 - w), LeNat(s), Pow2(64));
  }

  lemma {:induction false} LeNatSingle(b: byte)
    ensures LeNat([b]) == b
  {
    assert [b][1..] == [];
  }

  lemma {:induction false} TwoLoadsBy(lo: nat, b: nat, p: nat, q: nat, m: nat, r: nat, n: nat, t: nat)
    requires p > 0 && q > 0 && m > 0 && r > 0
    requires t == p * q == m * r && n == lo + t * b
    ensures t > 0 && (lo / p + (b * q) % t) % m == (n / p) % m
  {
    assert t * b == (b * q) * p;
    QuotientSum(lo, b * q, p);
    ModInner(lo / p, b * q, m, r);
  }

  lemma {:induction false} QuotientSum(lo: nat, y: nat, p: nat)
    requires p > 0
    ensures (lo + y * p) / p == lo / p + y
  {
    assert lo + y * p == (lo / p + y) * p + lo % p;
    DivModUnique(lo + y * p, p, lo / p + y, lo % p);
  }

  lemma {:induction false} ModInner(x: nat, y: nat, m: nat, r: nat)
    requires m > 0 && r > 0
    ensures m * r > 0 && (x + y % (m * r)) % m == (x + y) % m
  {
    var t := m * r;
    var k := y / t;
    assert t > 0;
    assert y == k * t + y % t;
    assert k * t == (k * r) * m;
    AddMultiple(x + y % t, m, k * r);
  }

  lemma {:induction false} AddMultiple(a: nat, m: nat, k: nat)
    requires m > 0
    ensures (a + k * m) % m == a % m
  {
    assert a + k * m == (a / m + k) * m + a % m;
    DivModUnique(a + k * m, m, a / m + k, a % m);
  }

  /** columnar.hpp:42-61: eight values from w + 8 readable bytes. */
  method Unpack8(s: seq<byte>, w: nat) returns (vs: seq<nat>)
    requires w <= 64 && |s| >= w + 8
    ensures |vs| == 8 && forall i :: 0 <= i < 8 ==> vs[i] == Field(s, w, i)
  {
    hide Field, LoadField;
    vs := [];
    for i := 0 to 8
      invariant |vs| == i && forall j :: 0 <= j < i ==> vs[j] == Field(s, w, j)
    {
      if w == 0 {
        FieldOfWidthZero(s, i);
        vs := vs + [0];
      } else {
        LoadFieldAt(s, w, i);
        vs := vs + [LoadField(s, i * w, w)];
      }
    }
  }

  lemma {:induction false} LoadFieldAt(s: seq<byte>, w: nat, i: nat)
    requires 1 <= w <= 64 && |s| >= w + 8 && i < 8
    ensures i * w / 8 + 8 <= |s| && (w > 56 && i * w % 8 != 0 ==> i * w / 8 + 9 <= |s|)
    ensures LoadField(s, i * w, w) == Field(s, w, i)
  {
    hide Bits, LeNat, LoadField;
    MulMono(i, 7, w);
    var bit := i * w;
    assert bit <= 7 * w;
    assert bit / 8 + 9 <= w + 8;
    LoadFieldIsBits(s, bit, w);
  }

  lemma {:induction false} FieldOfWidthZero(s: seq<byte>, i: nat)
    ensures Field(s, 0, i) == 0
  {
    BitsOfWidthZero(LeNat(s), i * 0);
  }

  lemma {:induction false} BitsOfWidthZero(n: nat, pos: nat)
    ensures Bits(n, pos, 0) == 0
  {
  }

  /** columnar.hpp:68: how many whole groups have slack for the unchecked loads. */
  function SafeGroups(len: nat, w: nat): (n: nat) {
    if len >= w + 8 then (len - (w + 8)) / (if w == 0 then 1 else w) + 1 else 0
  }

  lemma {:induction false} SafeGroup(len: nat, w: nat, g: nat)
    requires w > 0 && g < SafeGroups(len, w)
    ensures g * w + w + 8 <= len
  {
    var q := (len - (w + 8)) / w;
    MulMono(g, q, w);
    assert q * w <= len - (w + 8);
  }

  /** columnar.hpp:65-79: group g of 8 values starts g * w bytes in; missing bytes read as zero. */
  method UnpackGroup(s: seq<byte>, w: nat, g: nat, fast: bool) returns (vs: seq<nat>)
    requires w <= 64 && (fast ==> w == 0 || g < SafeGroups(|s|, w))
    ensures |vs| == 8 && forall i :: 0 <= i < 8 ==> vs[i] == Field(s, w, 8 * g + i)
  {
    hide Field, SafeGroups;
    var at := g * w;
    ghost var body: seq<byte> := [];
    if fast {
      if w == 0 {
        vs := Unpack8(seq(8, i => 0), 0);
      } else {
        SafeGroup(|s|, w, g);
        vs := Unpack8(s[at..], w);
        body := s[at..];
      }
    } else {
      var have := if at < |s| then Min(w, |s| - at) else 0;
      var buf: seq<byte> := if have > 0 then s[at..at + have] else [];
      vs := Unpack8(buf + seq(80 - have, i => 0), w);
      FieldPadded(buf, w, 80 - have);
      assert at < |s| && have < w ==> buf == s[at..];
      body := buf;
    }
    forall i | 0 <= i < 8 ensures vs[i] == Field(s, w, 8 * g + i) {
      GroupField(s, w, g, i, at);
      FieldOfWidthZero(seq(8, i => 0), i);
      FieldOfWidthZero(body, i);
    }
  }

  lemma {:induction false} FieldPadded(s: seq<byte>, w: nat, k: nat)
    ensures forall i: nat :: Field(s + seq(k, i => 0), w, i) == Field(s, w, i)
  {
    LeNatZeros(s, k);
  }

  /** The i-th value of group g, seen from the suffix or from the group alone. */
  lemma {:induction false} GroupField(s: seq<byte>, w: nat, g: nat, i: nat, at: nat)
    requires i < 8 && at == g * w
    ensures w == 0 ==> Field(s, w, 8 * g + i) == 0
    ensures at <= |s| ==> Field(s[at..], w, i) == Field(s, w, 8 * g + i)
    ensures at + w <= |s| ==> Field(s[at..at + w], w, i) == Field(s, w, 8 * g + i)
    ensures at >= |s| ==> Field([], w, i) == Field(s, w, 8 * g + i)
  {
    hide Bits, LeNat;
    GroupBit(g, i, w);
    if w == 0 {
      FieldOfWidthZero(s, 8 * g + i);
    }
    if at <= |s| {
      BitsOfSuffix(s, at, i * w, w);
    }
    if at + w <= |s| {
      RowFits(i, 8, w);
      BitsOfSlice(s, at, at + w, i * w, w);
    }
    if at >= |s| {
      BitsPastEnd([], i * w, w);
      BitsPastEnd(s, (8 * g + i) * w, w);
    }
  }

  lemma {:induction false} GroupBit(g: nat, i: nat, w: nat)
    ensures (8 * g + i) * w == 8 * (g * w) + i * w
  {
  }

  /** columnar.hpp:65-79, all groups, into out[o..]. */
  method UnpackGroups(s: seq<byte>, w: nat, out: array<nat>, o: nat, groups: nat)
    requires w <= 64 && o + 8 * groups <= out.Length
    modifies out
    ensures forall k :: o <= k < o + 8 * groups ==> out[k] == Field(s, w, k - o)
    ensures forall k :: 0 <= k < out.Length && !(o <= k < o + 8 * groups) ==> out[k] == old(out[k])
  {
    hide Field, SafeGroups;
    var fast := if w == 0 then groups else Min(groups, SafeGroups(|s|, w));
    var g: nat := 0;
    while g < groups
      invariant g <= groups
      invariant forall k :: o <= k < o + 8 * g ==> out[k] == Field(s, w, k - o)
      invariant forall k :: 0 <= k < out.Length && !(o <= k < o + 8 * g) ==> out[k] == old(out[k])
    {
      var vs := UnpackGroup(s, w, g, g < fast);
      forall k | o + 8 * g <= k < o + 8 * g + 8 {
        out[k] := vs[k - o - 8 * g];
      }
      assert forall k :: o + 8 * g <= k < o + 8 * g + 8 ==> out[k] == Field(s, w, 8 * g + (k - o - 8 * g));
      g := g + 1;
    }
  }

  /** columnar.hpp:98-112: false, writing nothing, exactly when the width, the output or the input
      is too small. */
  method UnpackBits(s: seq<byte>, w: nat, ubits: nat, out: array<nat>, o: nat, n: nat) returns (ok: bool)
    requires ubits <= 64 && o <= out.Length
    modifies out
    ensures ok <==> w <= ubits && n <= out.Length - o && |s| >= CeilDiv8(n * w)
    ensures ok ==> out[o..o + n] == Unpacked(s, w, n)
    ensures forall k :: 0 <= k < out.Length && !(ok && o <= k < o + n) ==> out[k] == old(out[k])
  {
    hide Field;
    if w > ubits || out.Length - o < n {
      return false;
    }
    if |s| < CeilDiv8(n * w) {
      return false;
    }
    var full := n / 8;
    UnpackGroups(s, w, out, o, full);
    var rem := n % 8;
    if rem != 0 {
      var at := full * w;
      assert at <= |s| by { FullBytes(n, w, full); }
      var tmp := new nat[8];
      UnpackGroups(s[at..], w, tmp, 0, 1);
      for i := 0 to rem
        invariant forall k :: 0 <= k < 8 ==> tmp[k] == Field(s[at..], w, k)
        invariant forall k :: o <= k < o + 8 * full + i ==> out[k] == Field(s, w, k - o)
        invariant forall k :: 0 <= k < out.Length && !(o <= k < o + n) ==> out[k] == old(out[k])
      {
        out[o + 8 * full + i] := tmp[i];
        GroupField(s, w, full, i, at);
      }
    }
    return true;
  }

  lemma {:induction false} FullBytes(n: nat, w: nat, full: nat)
    requires 8 * full <= n
    ensures full * w <= CeilDiv8(n * w)
  {
    MulMono(8 * full, n, w);
    assert (8 * full) * w == 8 * (full * w);
  }

  // ------------------------------------------------------------------
  // The packing kernel
  // ------------------------------------------------------------------

  /** Bits above w are masked off. */
  function Masked(vs: seq<nat>, w: nat): (r: seq<nat>)
    ensures |r| == |vs| && AllFit(r, w)
  {
    seq(|vs|, i requires 0 <= i < |vs| => Low(vs[i], w))
  }

  /** v & ((1 << w) - 1). */
  function Low(v: nat, w: nat): (r: nat)
    ensures r < Pow2(w)
  {
    v % Pow2(w)
  }

  lemma {:induction false} MaskedFits(vs: seq<nat>, w: nat)
    requires AllFit(vs, w)
    ensures Masked(vs, w) == vs
  {
    forall i | 0 <= i < |vs| ensures Masked(vs, w)[i] == vs[i] {
      DivModUnique(vs[i], Pow2(w), 0, vs[i]);
    }
  }

  /** The words written so far and the accumulator together hold the values packed so far. */
  ghost predicate Packing(o: seq<byte>, acc: nat, bits: nat, n: nat, w: nat, k: nat) {
    && bits < 64 && acc < Pow2(bits) && 8 * |o| + bits == k * w
    && LeNat(o) + Pow2(8 * |o|) * acc == n
  }

  /** The value still fits in the accumulator. */
  lemma {:induction false} PackingGrows(o: seq<byte>, acc: nat, bits: nat, n: nat, w: nat, k: nat, v: nat)
    requires Packing(o, acc, bits, n, w, k) && v < Pow2(w) && bits + w < 64
    ensures acc + v * Pow2(bits) < Pow2(64)
    ensures Packing(o, acc + v * Pow2(bits), bits + w, n + Pow2(w * k) * v, w, k + 1)
  {
    hide Pow2, LeNat;
    Pow2Add(bits, w);
    HornerBound(acc, Pow2(bits), v, Pow2(w));
    assert v * Pow2(bits) == Pow2(bits) * v;
    Pow2Monotone(bits + w, 64);
    assert w * k == k * w && (k + 1) * w == k * w + w;
    Pow2Add(8 * |o|, bits);
    Spread(LeNat(o), Pow2(8 * |o|), acc, Pow2(bits), v, n, Pow2(w * k));
  }

  lemma {:induction false} Spread(lo: nat, p: nat, acc: nat, q: nat, v: nat, n: nat, t: nat)
    requires n == lo + p * acc && t == p * q
    ensures lo + p * (acc + v * q) == n + t * v
  {
    assert p * (acc + v * q) == p * acc + p * (v * q);
    assert p * (v * q) == (p * q) * v;
  }

  /** The accumulator overflows: one word goes out, the rest of the value stays. */
  lemma {:induction false} PackingSpills(o: seq<byte>, acc: nat, bits: nat, n: nat, w: nat, k: nat, v: nat, s: nat,
                                         word: nat, left: nat)
    requires Packing(o, acc, bits, n, w, k) && v < Pow2(w) && w <= 64 && bits + w >= 64
    requires s == acc + v * Pow2(bits) && word == s % Pow2(64) && left == s / Pow2(64)
    ensures Packing(o + LeBytes(word, 8), left, bits + w - 64, n + Pow2(w * k) * v, w, k + 1)
  {
    hide Pow2, LeNat, LeBytes;
    var p, t := Pow2(8 * |o|), Pow2(64);
    assert left < Pow2(bits + w - 64) by { SpilledBound(acc, bits, v, w); }
    assert 8 * |o| + 64 + (bits + w - 64) == (k + 1) * w by { assert (k + 1) * w == k * w + w; }
    assert LeNat(o + LeBytes(word, 8)) == LeNat(o) + p * word by {
      LeNatLeBytes(word, 8);
      LeNatConcat(o, LeBytes(word, 8));
    }
    assert Pow2(8 * |o| + 64) == p * t by { Pow2Add(8 * |o|, 64); }
    assert LeNat(o) + p * s == n + Pow2(w * k) * v by {
      assert w * k == k * w;
      Pow2Add(8 * |o|, bits);
      Spread(LeNat(o), p, acc, Pow2(bits), v, n, Pow2(w * k));
    }
    Spilled(LeNat(o), p, s, t, word, left);
    assert 8 * |o + LeBytes(word, 8)| == 8 * |o| + 64;
  }

  lemma {:induction false} Spilled(lo: nat, p: nat, s: nat, t: nat, word: nat, left: nat)
    requires t > 0 && word == s % t && left == s / t
    ensures lo + p * word + (p * t) * left == lo + p * s
  {
    Reassociate(lo, p, s, t);
  }

  lemma {:induction false} Reassociate(lo: nat, p: nat, s: nat, t: nat)
    requires t > 0
    ensures lo + p * (s % t) + (p * t) * (s / t) == lo + p * s
  {
    assert s == t * (s / t) + s % t;
    assert p * s == p * (t * (s / t)) + p * (s % t);
    MulAssoc(p, t, s / t);
  }

  lemma {:induction false} SpilledValue(acc: nat, bits: nat, v: nat, w: nat)
    requires bits < 64 && acc < Pow2(bits) && v < Pow2(w) && w <= 64
    ensures (acc + v * Pow2(bits)) / Pow2(64) == if bits > 0 then v / Pow2(64 - bits) else 0
  {
    hide Pow2;
    var s := acc + v * Pow2(bits);
    ConcatDivMod(s, Pow2(bits), v, acc);
    Pow2Add(bits, 64 - bits);
    DivDiv(s, Pow2(bits), Pow2(64 - bits));
    if bits == 0 {
      Pow2Monotone(w, 64);
      DivModUnique(v, Pow2(64), 0, v);
    }
  }

  lemma {:induction false} SpilledBound(acc: nat, bits: nat, v: nat, w: nat)
    requires acc < Pow2(bits) && v < Pow2(w) && bits + w >= 64
    ensures (acc + v * Pow2(bits)) / Pow2(64) < Pow2(bits + w - 64)
  {
    hide Pow2;
    HornerBound(acc, Pow2(bits), v, Pow2(w));
    Pow2Add(bits, w);
    Pow2Add(64, bits + w - 64);
    assert v * Pow2(bits) == Pow2(bits) * v;
    DivLess(acc + v * Pow2(bits), Pow2(64), Pow2(bits + w - 64));
  }

  lemma {:induction false} DivLess(n: nat, d: nat, q: nat)
    requires d > 0 && n < d * q
    ensures n / d < q
  {
    if n / d >= q {
      MulMono(q, n / d, d);
    }
  }

  /** Cutting the last word to the bytes that hold values loses nothing. */
  lemma {:induction false} PackingEnds(o: seq<byte>, acc: nat, bits: nat, vs: seq<nat>, w: nat)
    requires AllFit(vs, w) && Packing(o, acc, bits, PackNat(vs, w), w, |vs|)
    ensures |o| <= CeilDiv8(|vs| * w) <= |o| + 8
    ensures (o + LeBytes(acc, 8))[..CeilDiv8(|vs| * w)] == Packed(vs, w)
  {
    hide Pow2, LeNat, LeBytes, PackNat;
    var s := o + LeBytes(acc, 8);
    var total := CeilDiv8(|vs| * w);
    Pow2Monotone(bits, 64);
    LeNatLeBytes(acc, 8);
    LeNatConcat(o, LeBytes(acc, 8));
    LeNatDrop(s, total);
    PackedNat(vs, w);
    LeNatBound(Packed(vs, w));
    DivModUnique(LeNat(s), Pow2(8 * total), 0, LeNat(s));
    LeNatInjective(s[..total], Packed(vs, w));
  }

  /** columnar_encode.hpp:63-74: one value. */
  method PackValue(o: seq<byte>, acc: nat, bits: nat, w: nat, v: nat, ghost n: nat, ghost k: nat)
    returns (o': seq<byte>, acc': nat, bits': nat)
    requires Packing(o, acc, bits, n, w, k) && v < Pow2(w) && 1 <= w <= 64
    ensures Packing(o', acc', bits', n + Pow2(w * k) * v, w, k + 1)
  {
    hide Pow2, LeNat, LeBytes;
    var s := acc + v * Pow2(bits);
    var word := s % Pow2(64);
    if bits + w >= 64 {
      PackingSpills(o, acc, bits, n, w, k, v, s, word, s / Pow2(64));
      SpilledValue(acc, bits, v, w);
      o' := o + LeBytes(word, 8);
      acc' := if bits > 0 then v / Pow2(64 - bits) else 0;
      bits' := bits + w - 64;
    } else {
      PackingGrows(o, acc, bits, n, w, k, v);
      DivModUnique(s, Pow2(64), 0, s);
      o', acc', bits' := o, word, bits + w;
    }
  }

  /** columnar_encode.hpp:54-77: whole 64-bit words, then the cut. */
  method PackBits(values: seq<nat>, w: nat) returns (out: seq<byte>)
    requires w <= 64
    ensures out == Packed(Masked(values, w), w)
  {
    hide Pow2, LeNat, LeBytes, PackNat, Packing, AllFit, Masked;
    ghost var vs := Masked(values, w);
    if w == 0 || |values| == 0 {
      assert |vs| * w == 0;
      return [];
    }
    var total := CeilDiv8(|values| * w);
    var o: seq<byte>, acc: nat, bits: nat := [], 0, 0;
    PackingStart(w);
    for k := 0 to |values|
      invariant Packing(o, acc, bits, PackNat(vs[..k], w), w, k)
    {
      var v := Low(values[k], w);
      PackNatNext(vs, w, k);
      MaskedAt(values, w, k);
      o, acc, bits := PackValue(o, acc, bits, w, v, PackNat(vs[..k], w), k);
    }
    assert vs[..|values|] == vs;
    PackingEnds(o, acc, bits, vs, w);
    out := (o + LeBytes(acc, 8))[..total];
  }

  lemma {:induction false} PackNatNext(vs: seq<nat>, w: nat, k: nat)
    requires k < |vs|
    ensures PackNat(vs[..k + 1], w) == PackNat(vs[..k], w) + Pow2(w * k) * vs[k]
  {
    assert vs[..k + 1] == vs[..k] + [vs[k]];
    PackNatConcat(vs[..k], [vs[k]], w);
    assert [vs[k]][1..] == [];
    assert PackNat([vs[k]], w) == vs[k];
  }

  lemma {:induction false} PackingStart(w: nat)
    ensures Packing([], 0, 0, PackNat([], w), w, 0)
  {
  }

  lemma {:induction false} MaskedAt(vs: seq<nat>, w: nat, k: nat)
    requires k < |vs|
    ensures Masked(vs, w)[k] == Low(vs[k], w)
  {
  }
}
