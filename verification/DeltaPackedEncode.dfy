/** DELTA_BINARY_PACKED encoding: include/nanom/columnar_encode.hpp section 47. */
module DeltaPackedEncode {
  import opened Bytes
  import opened BitOps
  import opened Leb128
  import opened BitPacking
  import opened DeltaPacked

  // ------------------------------------------------------------------
  // The width of a miniblock
  // ------------------------------------------------------------------

  lemma {:induction false} OrBelow(a: nat, b: nat, k: nat)
    ensures Or(a, b) < Pow2(k) <==> a < Pow2(k) && b < Pow2(k)
    decreases a + b
  {
    if a == 0 && b == 0 {
    } else if k == 0 {
      OrBelow(a / 2, b / 2, 0);
    } else {
      OrBelow(a / 2, b / 2, k - 1);
    }
  }

  function OrAll(vs: seq<nat>): (r: nat) {
    if |vs| == 0 then 0 else Or(OrAll(vs[..|vs| - 1]), vs[|vs| - 1])
  }

  lemma {:induction false} OrAllBelow(vs: seq<nat>, k: nat)
    ensures OrAll(vs) < Pow2(k) <==> AllFit(vs, k)
  {
    hide Or, Pow2;
    if |vs| > 0 {
      var front, v := vs[..|vs| - 1], vs[|vs| - 1];
      OrAllBelow(front, k);
      OrBelow(OrAll(front), v, k);
      assert AllFit(vs, k) <==> AllFit(front, k) && v < Pow2(k) by {
        assert forall i :: 0 <= i < |front| ==> front[i] == vs[i];
      }
    }
  }

  function MiniWidth(vs: seq<nat>): (k: nat) {
    BitLen(OrAll(vs))
  }

  /** The width written is the least one all values of the miniblock fit. */
  lemma {:induction false} MiniWidthIsLeast(vs: seq<nat>, k: nat)
    ensures MiniWidth(vs) <= k <==> AllFit(vs, k)
  {
    BitLenIsLeast(OrAll(vs), k);
    OrAllBelow(vs, k);
  }

  // ------------------------------------------------------------------
  // What the encoder writes
  // ------------------------------------------------------------------

  const BLOCK := 128
  const PER_MINI := 32

  function Prior(last: nat, us: seq<nat>, k: nat): nat
    requires k < |us|
  {
    if k == 0 then last else us[k - 1]
  }

  /** The wrapped differences of us, the first against `last`. */
  function Deltas(last: nat, us: seq<nat>, w: nat): (ds: seq<nat>)
    ensures |ds| == |us| && AllFit(ds, w)
  {
    seq(|us|, k requires 0 <= k < |us| => Wrap(us[k] - Prior(last, us, k), w))
  }

  /** The least delta as a signed number; T's maximum when there is none. */
  function MinDelta(ds: seq<nat>, w: Width): (m: int)
    requires AllFit(ds, w)
    ensures IsSigned(m, w)
  {
    if |ds| == 0 then Pow2(w - 1) - 1
    else
      var d := ToSigned(ds[|ds| - 1], w);
      var m := MinDelta(ds[..|ds| - 1], w);
      if d < m then d else m
  }

  /** The differences above the minimum, zero-filled to a block. */
  function Adjusted(ds: seq<nat>, min: nat, w: nat): (vs: seq<nat>)
    requires |ds| <= BLOCK
    ensures |vs| == BLOCK && AllFit(vs, w)
  {
    seq(BLOCK, k requires 0 <= k < BLOCK => if k < |ds| then Wrap(ds[k] - min, w) else 0)
  }

  ghost function AdjOf(last: nat, us: seq<nat>, min: nat, w: nat): (vs: seq<nat>)
    requires |us| <= BLOCK
    ensures |vs| == BLOCK && AllFit(vs, w)
  {
    Adjusted(Deltas(last, us, w), min, w)
  }

  function Mini(adj: seq<nat>, m: nat): (vs: seq<nat>)
    requires |adj| == BLOCK && m < 4
    ensures |vs| == PER_MINI
  {
    adj[PER_MINI * m..PER_MINI * (m + 1)]
  }

  /** The miniblocks that hold values. */
  function UsedMinis(count: nat): (r: nat)
    ensures count <= BLOCK ==> r <= 4
  {
    (count + PER_MINI - 1) / PER_MINI
  }

  function MiniWidthOf(adj: seq<nat>, m: nat, w: Width): (k: byte)
    requires |adj| == BLOCK && AllFit(adj, w) && m < 4
    ensures k <= w
  {
    MiniWidthIsLeast(Mini(adj, m), w);
    MiniWidth(Mini(adj, m))
  }

  /** One width byte a miniblock; those past the values get 0. */
  function Widths(adj: seq<nat>, used: nat, w: Width): (ks: seq<byte>)
    requires |adj| == BLOCK && AllFit(adj, w)
    ensures |ks| == 4
  {
    seq(4, m requires 0 <= m < 4 => if m < used then MiniWidthOf(adj, m, w) else 0)
  }

  /** The packed miniblocks m .. used - 1. */
  function MiniBytes(adj: seq<nat>, m: nat, used: nat, w: Width): (s: seq<byte>)
    requires |adj| == BLOCK && AllFit(adj, w) && used <= 4
    decreases used - m
  {
    if m >= used then []
    else Packed(Mini(adj, m), MiniWidthOf(adj, m, w)) + MiniBytes(adj, m + 1, used, w)
  }

  function Zigzag64(x: int, w: Width): (u: nat)
    requires IsSigned(x, w)
    ensures u < Pow2(64)
  {
    Pow2Monotone(w - 1, 63);
    ZigzagEncode(x, 64)
  }

  /** A block of at most 128 values after `last`. */
  function BlockBytes(last: nat, us: seq<nat>, w: Width): (s: seq<byte>)
    requires |us| <= BLOCK
  {
    var ds := Deltas(last, us, w);
    var min := MinDelta(ds, w);
    var adj := Adjusted(ds, ToUnsigned(min, w), w);
    var used := UsedMinis(|us|);
    Uleb128(Zigzag64(min, w)) + Widths(adj, used, w) + MiniBytes(adj, 0, used, w)
  }

  function BlocksBytes(last: nat, us: seq<nat>, w: Width): (s: seq<byte>)
    decreases |us|
  {
    if |us| == 0 then []
    else
      var c := Min(BLOCK, |us|);
      BlockBytes(last, us[..c], w) + BlocksBytes(us[c - 1], us[c..], w)
  }

  ghost predicate AllSigned(vs: seq<int>, w: Width) {
    forall i :: 0 <= i < |vs| ==> IsSigned(vs[i], w)
  }

  function UnsignedAll(vs: seq<int>, w: Width): (us: seq<nat>)
    requires AllSigned(vs, w)
    ensures |us| == |vs| && AllFit(us, w)
  {
    seq<nat>(|vs|, i requires 0 <= i < |vs| => ToUnsigned(vs[i], w))
  }

  function StreamFirst(vs: seq<int>, w: Width): (u: nat)
    requires AllSigned(vs, w)
    ensures u < Pow2(64)
  {
    if |vs| == 0 then 0 else Zigzag64(vs[0], w)
  }

  function StreamBody(vs: seq<int>, w: Width): (s: seq<byte>)
    requires AllSigned(vs, w)
  {
    if |vs| <= 1 then []
    else
      var us := UnsignedAll(vs, w);
      BlocksBytes(us[0], us[1..], w)
  }

  function StreamHeader(vs: seq<int>, w: Width): (s: seq<byte>)
    requires AllSigned(vs, w)
  {
    Uleb128(BLOCK) + Uleb128(4) + Uleb128(|vs|) + Uleb128(StreamFirst(vs, w))
  }

  /** The whole stream for vs. */
  function StreamBytes(vs: seq<int>, w: Width): (s: seq<byte>)
    requires AllSigned(vs, w)
  {
    StreamHeader(vs, w) + StreamBody(vs, w)
  }

  // ------------------------------------------------------------------
  // The minimum delta leaves true distances
  // ------------------------------------------------------------------

  lemma {:induction false} MinDeltaIsLeast(ds: seq<nat>, w: Width)
    requires AllFit(ds, w)
    ensures forall i :: 0 <= i < |ds| ==> MinDelta(ds, w) <= ToSigned(ds[i], w)
    ensures |ds| > 0 ==> exists i :: 0 <= i < |ds| && MinDelta(ds, w) == ToSigned(ds[i], w)
  {
    hide Pow2, ToSigned;
    if |ds| > 0 {
      var front := ds[..|ds| - 1];
      MinDeltaIsLeast(front, w);
      if |front| == 0 {
        SignedTop(ds[0], w);
        assert MinDelta(ds, w) == ToSigned(ds[0], w);
      } else {
        var j :| 0 <= j < |front| && MinDelta(front, w) == ToSigned(front[j], w);
        assert front[j] == ds[j] && forall i :: 0 <= i < |front| ==> front[i] == ds[i];
        assert ToSigned(ds[|ds| - 1], w) == ToSigned(ds[|ds| - 1], w);
      }
    }
  }

  lemma {:induction false} SignedTop(u: nat, w: Width)
    requires u < Pow2(w)
    ensures ToSigned(u, w) <= Pow2(w - 1) - 1
  {
  }

  /** Subtracting the minimum never wraps: what is packed is how far a delta lies above the least. */
  lemma {:induction false} AdjustedIsDistance(ds: seq<nat>, w: Width, k: nat)
    requires AllFit(ds, w) && |ds| <= BLOCK && k < |ds|
    ensures Adjusted(ds, ToUnsigned(MinDelta(ds, w), w), w)[k] == ToSigned(ds[k], w) - MinDelta(ds, w)
  {
    hide Pow2, ToSigned, ToUnsigned, MinDelta, IsSigned, Wrap;
    MinDeltaIsLeast(ds, w);
    var d, m := ToSigned(ds[k], w), MinDelta(ds, w);
    SignedCases(d, w);
    SignedCases(m, w);
    WrapDistance(d, m, ds[k], ToUnsigned(m, w), Pow2(w), Pow2(w - 1));
    WrapIsMod(ds[k] - ToUnsigned(m, w), w);
  }

  lemma {:induction false} WrapIsMod(x: int, w: nat)
    ensures Wrap(x, w) == x % Pow2(w)
  {
  }

  lemma {:induction false} SignedCases(x: int, w: Width)
    requires IsSigned(x, w)
    ensures ToUnsigned(x, w) == x || ToUnsigned(x, w) == x + Pow2(w)
    ensures 0 - Pow2(w - 1) <= x < Pow2(w - 1) && Pow2(w) == 2 * Pow2(w - 1)
  {
  }

  lemma {:induction false} WrapDistance(d: int, m: int, du: int, mu: int, top: nat, half: nat)
    requires top == 2 * half && half > 0 && 0 - half <= m <= d < half
    requires (du == d || du == d + top) && (mu == m || mu == m + top)
    ensures (du - mu) % top == d - m
  {
    if du - mu == d - m {
      DivModUnique(du - mu, top, 0, d - m);
    } else if du - mu == d - m + top {
      DivModUnique(du - mu, top, 1, d - m);
    } else {
      DivModUnique(du - mu, top, -1, d - m);
    }
  }

  // ------------------------------------------------------------------
  // Decoding undoes encoding
  // ------------------------------------------------------------------

  lemma {:induction false} WrapUndo(u: nat, prev: nat, min: nat, w: nat)
    requires u < Pow2(w)
    ensures Wrap(prev + min + Wrap(Wrap(u - prev, w) - min, w), w) == u
  {
    hide Pow2;
    WrapUndoBy(u, prev, min, Pow2(w));
  }

  lemma {:induction false} WrapUndoBy(u: nat, prev: nat, min: nat, top: nat)
    requires u < top
    ensures (prev + min + ((u - prev) % top - min) % top) % top == u
  {
    var d := (u - prev) % top;
    var a := (d - min) % top;
    var k1, k2 := (u - prev) / top, (d - min) / top;
    assert u - prev == k1 * top + d;
    assert d - min == k2 * top + a;
    assert prev + min + a == u - k1 * top - k2 * top;
    assert (-k1 - k2) * top == -(k1 * top) - k2 * top;
    DivModUnique(prev + min + a, top, -k1 - k2, u);
  }

  /** Summing the adjusted differences from value a on gives the values back. */
  lemma {:induction false} SumsUndo(last: nat, us: seq<nat>, min: nat, a: nat, b: nat, w: nat)
    requires AllFit(us, w) && |us| <= BLOCK && a <= b <= |us|
    ensures Sums(LastOf(last, us[..a]), min, AdjOf(last, us, min, w)[a..b], w) == us[a..b]
    decreases b - a
  {
    hide Wrap, Pow2;
    var adj := AdjOf(last, us, min, w);
    if a < b {
      SumsUndo(last, us, min, a + 1, b, w);
      WrapUndo(us[a], Prior(last, us, a), min, w);
      assert adj[a..b][1..] == adj[a + 1..b];
      assert us[a..b] == [us[a]] + us[a + 1..b];
    }
  }

  lemma {:induction false} MiniSizes(mw: nat, need: nat)
    requires need <= PER_MINI
    ensures RunSize(need, mw) <= RunSize(PER_MINI, mw) == MiniSize(PER_MINI, mw)
  {
    MulMono(need, PER_MINI, mw);
  }

  lemma {:induction false} UnpackedPrefix(s: seq<byte>, p: nat, vs: seq<nat>, mw: nat, need: nat)
    requires AllFit(vs, mw) && need <= |vs| && At(s, p, Packed(vs, mw))
    ensures Unpacked(s[p..], mw, need) == vs[..need]
  {
    hide Field, Packed, AllFit;
    var tail := s[p + |Packed(vs, mw)|..];
    assert s[p..] == Packed(vs, mw) + tail;
    PackRoundTrip(vs, mw, tail);
    assert Unpacked(s[p..], mw, need) == Unpacked(s[p..], mw, |vs|)[..need];
  }

  /** The miniblocks from number m on give back the values they were made of. */
  lemma {:induction false} MinisDecode(s: seq<byte>, p: nat, last: nat, us: seq<nat>, min: nat, m: nat, prev: nat,
                                       left: nat, w: Width)
    requires |us| <= BLOCK && AllFit(us, w) && m <= 4
    requires left > 0 && m < 4 ==> 32 * m + Min(left, 128 - 32 * m) <= |us| && prev == LastOf(last, us[..32 * m])
    requires
      var adj := AdjOf(last, us, min, w);
      At(s, p, MiniBytes(adj, m, UsedMinis(|us|), w))
    ensures
      var adj := AdjOf(last, us, min, w);
      var used := UsedMinis(|us|);
      var r := Minis(s, p, Widths(adj, used, w)[m..], PER_MINI, left, prev, min, w);
      && r.Done?
      && r.values == (if left == 0 || m == 4 then [] else us[32 * m..32 * m + Min(left, 128 - 32 * m)])
      && (left >= |us| - 32 * m ==> r.at == p + |MiniBytes(adj, m, used, w)|)
    decreases 4 - m
  {
    hide Sums, AdjOf, Unpacked, RunSize, MiniSize, AllFit, Packed, MiniWidthOf, Mini, Minis, At, Widths, UsedMinis,
         MiniBytes, Before, LastOf;
    var adj := AdjOf(last, us, min, w);
    var used := UsedMinis(|us|);
    var ks := Widths(adj, used, w);
    AtSlice(s, p, MiniBytes(adj, m, used, w));
    UsedEnough(|us|, m);
    if left == 0 || m == 4 {
      MinisEnd(s, p, ks[m..], PER_MINI, left, prev, min, w);
      if m >= used {
        MiniBytesEnd(adj, m, used, w);
      }
    } else {
      var mw, need := MiniWidthOf(adj, m, w), Min(PER_MINI, left);
      WidthsAt(adj, used, m, w);
      var rest := MiniBytes(adj, m + 1, used, w);
      MiniBytesStep(adj, m, used, w);
      AtConcat(s, p, Packed(Mini(adj, m), mw), rest);
      MiniDecode(s, p, last, us, min, m, need, w);
      var next := p + MiniSize(PER_MINI, mw);
      var vals := us[32 * m..32 * m + need];
      MiniThenRest(s, p, ks, m, left, prev, min, w, mw, need, vals, next);
      LastOfSlice(last, prev, us, 32 * m, need);
      MinisDecode(s, next, last, us, min, m + 1, LastOf(prev, vals), left - need, w);
      var r := Minis(s, next, ks[m + 1..], PER_MINI, left - need, LastOf(prev, vals), min, w);
      BeforeDone(vals, r);
      assert left == need || m == 3 ==> vals + [] == us[32 * m..32 * m + Min(left, 128 - 32 * m)];
      if left > need && m < 3 {
        SliceJoin(us, 32 * m, 32 * m + need, 32 * m + Min(left, 128 - 32 * m));
      }
    }
  }

  lemma {:induction false} LastOfSlice(last: nat, prev: nat, us: seq<nat>, a: nat, need: nat)
    requires a + need <= |us| && need > 0
    ensures LastOf(prev, us[a..a + need]) == LastOf(last, us[..a + need])
  {
  }

  lemma {:induction false} SliceJoin(us: seq<nat>, a: nat, b: nat, c: nat)
    requires a <= b <= c <= |us|
    ensures us[a..b] + us[b..c] == us[a..c]
  {
  }

  lemma {:induction false} BeforeDone(vals: seq<nat>, r: Progress)
    requires r.Done?
    ensures Before(vals, r) == Done(vals + r.values, r.at)
  {
  }

  lemma {:induction false} MiniThenRest(s: seq<byte>, p: nat, ks: seq<byte>, m: nat, left: nat, prev: nat, min: nat,
                                        w: Width, mw: nat, need: nat, vals: seq<nat>, next: nat)
    requires p <= |s| && m < |ks| && mw == ks[m] <= w && left > 0 && need == Min(PER_MINI, left)
    requires RunSize(need, mw) <= MiniSize(PER_MINI, mw) <= |s| - p && next == p + MiniSize(PER_MINI, mw)
    requires vals == Sums(prev, min, Unpacked(s[p..], mw, need), w)
    ensures Minis(s, p, ks[m..], PER_MINI, left, prev, min, w) ==
            Before(vals, Minis(s, next, ks[m + 1..], PER_MINI, left - need, LastOf(prev, vals), min, w))
  {
    hide Sums, Unpacked, RunSize, MiniSize, AllFit, Minis;
    MinisStep(s, p, ks, m, PER_MINI, left, prev, min, w, [], mw, need);
    assert [] + vals == vals;
    BeforeNothing(Minis(s, p, ks[m..], PER_MINI, left, prev, min, w));
  }

  lemma {:induction false} MiniBytesStep(adj: seq<nat>, m: nat, used: nat, w: Width)
    requires |adj| == BLOCK && AllFit(adj, w) && m < used <= 4
    ensures MiniBytes(adj, m, used, w) ==
            Packed(Mini(adj, m), MiniWidthOf(adj, m, w)) + MiniBytes(adj, m + 1, used, w)
  {
  }

  lemma {:induction false} MiniBytesEnd(adj: seq<nat>, m: nat, used: nat, w: Width)
    requires |adj| == BLOCK && AllFit(adj, w) && used <= 4 && m >= used
    ensures MiniBytes(adj, m, used, w) == []
  {
  }

  lemma {:induction false} UsedEnough(count: nat, m: nat)
    ensures m < UsedMinis(count) <==> 32 * m < count
  {
  }

  lemma {:induction false} BeforeNothing(r: Progress)
    ensures Before([], r) == r
  {
    if r.Done? {
      assert [] + r.values == r.values;
    }
  }

  lemma {:induction false} WidthsAt(adj: seq<nat>, used: nat, m: nat, w: Width)
    requires |adj| == BLOCK && AllFit(adj, w) && m < used && m < 4
    ensures Widths(adj, used, w)[m] == MiniWidthOf(adj, m, w)
  {
  }

  lemma {:induction false} MiniDecode(s: seq<byte>, p: nat, last: nat, us: seq<nat>, min: nat, m: nat, need: nat,
                                      w: Width)
    requires |us| <= BLOCK && AllFit(us, w) && m < 4 && 32 * m + need <= |us| && need <= PER_MINI
    requires
      var adj := AdjOf(last, us, min, w);
      At(s, p, Packed(Mini(adj, m), MiniWidthOf(adj, m, w)))
    ensures
      var adj := AdjOf(last, us, min, w);
      var mw := MiniWidthOf(adj, m, w);
      && |Packed(Mini(adj, m), mw)| == MiniSize(PER_MINI, mw)
      && RunSize(need, mw) <= MiniSize(PER_MINI, mw) <= |s| - p
      && Sums(LastOf(last, us[..32 * m]), min, Unpacked(s[p..], mw, need), w) == us[32 * m..32 * m + need]
  {
    hide Sums, Deltas, Adjusted, Unpacked, MiniWidth, Packed;
    var adj := AdjOf(last, us, min, w);
    var mw := MiniWidthOf(adj, m, w);
    MiniSizes(mw, need);
    MiniWidthIsLeast(Mini(adj, m), mw);
    UnpackedPrefix(s, p, Mini(adj, m), mw, need);
    assert Mini(adj, m)[..need] == adj[32 * m..32 * m + need];
    SumsUndo(last, us, min, 32 * m, 32 * m + need, w);
  }

  /** One block: any number of values up to its own comes back, from the first. */
  lemma {:induction false} BlockDecode(s: seq<byte>, p: nat, last: nat, us: seq<nat>, left: nat, w: Width)
    requires |us| <= BLOCK && AllFit(us, w) && left > 0 && Min(left, BLOCK) <= |us|
    requires At(s, p, BlockBytes(last, us, w))
    ensures
      var z := Read(s, p, 64);
      && z.Value? && z.next + 4 <= |s|
      && var r := Minis(s, z.next + 4, s[z.next..z.next + 4], PER_MINI, left, last, Wrap(ZigzagDecode(z.v, 64), w), w);
      && r.Done? && r.values == us[..Min(left, BLOCK)]
      && (left >= |us| ==> r.at == p + |BlockBytes(last, us, w)|)
  {
    hide Deltas, Adjusted, AllFit, MiniBytes, Widths, Pow2, Zigzag64, ZigzagDecode, Wrap, Minis, Read, MinDelta,
         ToUnsigned, IsSigned, At, UsedMinis, BlockBytes;
    var ds := Deltas(last, us, w);
    var min := MinDelta(ds, w);
    var minU := ToUnsigned(min, w);
    var used := UsedMinis(|us|);
    var adj := Adjusted(ds, minU, w);
    var ks := Widths(adj, used, w);
    BlockParts(s, p, last, us, w);
    Zigzag64Undo(min, w);
    assert ks[0..] == ks && us[..0] == [];
    MinisDecode(s, Read(s, p, 64).next + 4, last, us, minU, 0, last, left, w);
  }

  /** Where the parts of a block stand. */
  lemma {:induction false} BlockParts(s: seq<byte>, p: nat, last: nat, us: seq<nat>, w: Width)
    requires |us| <= BLOCK && At(s, p, BlockBytes(last, us, w))
    ensures
      var ds := Deltas(last, us, w);
      var min := MinDelta(ds, w);
      var adj := Adjusted(ds, ToUnsigned(min, w), w);
      var used := UsedMinis(|us|);
      var body := MiniBytes(adj, 0, used, w);
      var z := Read(s, p, 64);
      && z.Value? && z.v == Zigzag64(min, w) && z.next + 4 <= |s|
      && s[z.next..z.next + 4] == Widths(adj, used, w)
      && At(s, z.next + 4, body) && p + |BlockBytes(last, us, w)| == z.next + 4 + |body|
  {
    hide Sums, Deltas, Adjusted, AllFit, MiniBytes, Widths, Pow2, Zigzag64, Uleb128, Read,
         MinDelta, ToUnsigned, IsSigned, At, UsedMinis;
    var ds := Deltas(last, us, w);
    var min := MinDelta(ds, w);
    var adj := Adjusted(ds, ToUnsigned(min, w), w);
    var used := UsedMinis(|us|);
    var z, ks, body := Uleb128(Zigzag64(min, w)), Widths(adj, used, w), MiniBytes(adj, 0, used, w);
    AtConcat(s, p, z + ks, body);
    AtConcat(s, p, z, ks);
    AtSlice(s, p, z);
    AtSlice(s, p + |z|, ks);
    UlebRoundTrip(s, p, Zigzag64(min, w), 64);
  }

  lemma {:induction false} SignedWider(x: int, w: Width)
    requires IsSigned(x, w)
    ensures IsSigned(x, 64)
  {
    Pow2Monotone(w - 1, 63);
  }

  lemma {:induction false} ToUnsignedIs(x: int, w: Width)
    requires IsSigned(x, w)
    ensures ToUnsigned(x, w) == if x >= 0 then x else x + Pow2(w)
  {
  }

  lemma {:induction false} Zigzag64Undo(x: int, w: Width)
    requires IsSigned(x, w)
    ensures Wrap(ZigzagDecode(Zigzag64(x, w), 64), w) == ToUnsigned(x, w)
  {
    hide Pow2, ZigzagDecode, ZigzagEncode, ToUnsigned, IsSigned;
    SignedWider(x, w);
    ZigzagRoundTrip(x, 64);
    SignedCases(x, w);
    ToUnsignedIs(x, w);
    DivModUnique(x, Pow2(w), if x >= 0 then 0 else -1, ToUnsigned(x, w));
  }

  lemma {:induction false} BlocksDecode(s: seq<byte>, p: nat, last: nat, us: seq<nat>, left: nat, w: Width)
    requires AllFit(us, w) && left <= |us| && At(s, p, BlocksBytes(last, us, w))
    ensures
      var r := Blocks(s, p, 4, PER_MINI, left, last, w);
      && r.Done? && r.values == us[..left]
      && (left == |us| ==> r.at == p + |BlocksBytes(last, us, w)|)
    decreases |us|
  {
    hide AllFit, BlockBytes, Pow2, ZigzagDecode, Wrap, Minis, Read, At, Blocks;
    AtSlice(s, p, BlocksBytes(last, us, w));
    if left == 0 {
      BlocksStop(s, p, last, w);
    } else {
      var c := Min(BLOCK, |us|);
      var front, rest := us[..c], us[c..];
      FitSplit(us, c, w);
      AtConcat(s, p, BlockBytes(last, front, w), BlocksBytes(us[c - 1], rest, w));
      BlockDecode(s, p, last, front, left, w);
      var k := Min(left, BLOCK);
      assert front[..k] == us[..k];
      var at := BlockEnd(s, p, left, last, w);
      if left > c {
        assert us[..k] == front;
        BlocksDecode(s, at, us[c - 1], rest, left - k, w);
        assert us[..left] == us[..k] + rest[..left - k];
      } else {
        assert us[..k] + [] == us[..left];
        if left == |us| {
          BlocksNone(us[c - 1], w);
        }
      }
      BlocksStep(s, p, left, last, us[..k], at, w);
      BlocksStop(s, at, LastOf(last, us[..k]), w);
    }
  }

  /** Where the block at s[p] ends. */
  ghost function BlockEnd(s: seq<byte>, p: nat, left: nat, last: nat, w: Width): nat
    requires p <= |s| && Read(s, p, 64).Value? && Read(s, p, 64).next + 4 <= |s|
  {
    var z := Read(s, p, 64);
    var r := Minis(s, z.next + 4, s[z.next..z.next + 4], PER_MINI, left, last, Wrap(ZigzagDecode(z.v, 64), w), w);
    if r.Done? then r.at else 0
  }

  lemma {:induction false} BlocksStep(s: seq<byte>, p: nat, left: nat, last: nat, vals: seq<nat>, at: nat, w: Width)
    requires p <= |s| && left > 0 && at <= |s| && 0 < |vals| <= left
    requires
      var z := Read(s, p, 64);
      && z.Value? && z.next + 4 <= |s|
      && Minis(s, z.next + 4, s[z.next..z.next + 4], PER_MINI, left, last, Wrap(ZigzagDecode(z.v, 64), w), w)
         == Done(vals, at)
    ensures Blocks(s, p, 4, PER_MINI, left, last, w) ==
            Before(vals, Blocks(s, at, 4, PER_MINI, left - |vals|, LastOf(last, vals), w))
  {
    hide Minis, Read, Wrap, ZigzagDecode;
  }

  lemma {:induction false} BlocksStop(s: seq<byte>, p: nat, last: nat, w: Width)
    requires p <= |s|
    ensures Blocks(s, p, 4, PER_MINI, 0, last, w) == Done([], p)
  {
  }

  lemma {:induction false} FitSplit(us: seq<nat>, c: nat, w: nat)
    requires AllFit(us, w) && c <= |us|
    ensures AllFit(us[..c], w) && AllFit(us[c..], w)
  {
  }

  /** The stream for vs, whatever follows it: every prefix of vs decodes to itself, and reading all of vs
      consumes exactly the bytes the encoder wrote. */
  lemma {:induction false} DeltaRoundTrip(vs: seq<int>, suffix: seq<byte>, n: nat, w: Width)
    requires AllSigned(vs, w) && n <= |vs| <= SIZE_MAX
    ensures
      var r := Decode(StreamBytes(vs, w) + suffix, n, w);
      && r.Decoded? && r.values == vs[..n]
      && (n == |vs| ==> r.used == |StreamBytes(vs, w)|)
  {
    hide AllFit, Pow2, ZigzagDecode, Wrap, Blocks, BlocksBytes, Zigzag64, UnsignedAll, IsSigned, SignedAll, ReadHeader,
         StreamHeader, ToUnsigned;
    var s := StreamBytes(vs, w) + suffix;
    var body := StreamBody(vs, w);
    var start := |StreamHeader(vs, w)|;
    assert At(s, 0, StreamHeader(vs, w) + body);
    AtConcat(s, 0, StreamHeader(vs, w), body);
    HeaderDecode(s, vs, w);
    if n > 0 {
      var us := UnsignedAll(vs, w);
      assert us[0] == ToUnsigned(vs[0], w) by { UnsignedAt(vs, 0, w); }
      Zigzag64Undo(vs[0], w);
      assert AllFit(us[1..], w) by { FitSplit(us, 1, w); }
      assert |us| == 1 ==> us[1..] == [] && BlocksBytes(us[0], us[1..], w) == [] by { BlocksNone(us[0], w); }
      BlocksDecode(s, start, us[0], us[1..], n - 1, w);
      assert [us[0]] + us[1..][..n - 1] == us[..n];
      SignedUndo(vs, n, w);
    }
  }

  lemma {:induction false} BlocksNone(last: nat, w: Width)
    ensures BlocksBytes(last, [], w) == []
  {
  }

  lemma {:induction false} UnsignedAt(vs: seq<int>, i: nat, w: Width)
    requires AllSigned(vs, w) && i < |vs|
    ensures UnsignedAll(vs, w)[i] == ToUnsigned(vs[i], w)
  {
  }

  lemma {:induction false} SignedUndo(vs: seq<int>, n: nat, w: Width)
    requires AllSigned(vs, w) && n <= |vs|
    ensures AllFit(UnsignedAll(vs, w)[..n], w) && SignedAll(UnsignedAll(vs, w)[..n], w) == vs[..n]
  {
    var us := UnsignedAll(vs, w);
    forall i | 0 <= i < n ensures ToSigned(us[i], w) == vs[i] {
    }
  }

  lemma {:induction false} HeaderDecode(s: seq<byte>, vs: seq<int>, w: Width)
    requires AllSigned(vs, w) && |vs| <= SIZE_MAX && At(s, 0, StreamHeader(vs, w))
    ensures ReadHeader(s) == Some(Header(BLOCK, 4, |vs|, StreamFirst(vs, w), |StreamHeader(vs, w)|))
  {
    hide Uleb128, Read, Pow2, StreamFirst;
    var a, b, c, d := Uleb128(BLOCK), Uleb128(4), Uleb128(|vs|), Uleb128(StreamFirst(vs, w));
    AtConcat(s, 0, a + b + c, d);
    AtConcat(s, 0, a + b, c);
    AtConcat(s, 0, a, b);
    Pow2Values();
    UlebRoundTrip(s, 0, BLOCK, 64);
    UlebRoundTrip(s, |a|, 4, 64);
    UlebRoundTrip(s, |a| + |b|, |vs|, 64);
    UlebRoundTrip(s, |a| + |b| + |c|, StreamFirst(vs, w), 64);
  }

  // ------------------------------------------------------------------
  // The encoder
  // ------------------------------------------------------------------

  /** The deltas of one block and the least of them (columnar_encode.hpp:205-210). */
  method BlockDeltas(values: seq<int>, start: nat, count: nat, w: Width) returns (ds: seq<nat>, min: int)
    requires AllSigned(values, w) && 1 <= start && start + count <= |values|
    ensures
      var us := UnsignedAll(values, w);
      ds == Deltas(us[start - 1], us[start..start + count], w)
    ensures min == MinDelta(ds, w)
  {
    hide Wrap, ToSigned, ToUnsigned, IsSigned, Deltas, AllFit, UnsignedAll;
    ds, min := [], Pow2(w - 1) - 1;
    ghost var us := UnsignedAll(values, w);
    ghost var goal := Deltas(us[start - 1], us[start..start + count], w);
    FitSplit(goal, 0, w);
    for k := 0 to count
      invariant ds == goal[..k] && AllFit(ds, w)
      invariant min == MinDelta(ds, w)
    {
      var d := Wrap(ToUnsigned(values[start + k], w) - ToUnsigned(values[start + k - 1], w), w);
      DeltaAt(values, start, count, k, w);
      FitSplit(goal, k + 1, w);
      assert goal[..k + 1] == ds + [d];
      assert (ds + [d])[..|ds|] == ds;
      ds := ds + [d];
      min := if ToSigned(d, w) < min then ToSigned(d, w) else min;
    }
  }

  lemma {:induction false} DeltaAt(values: seq<int>, start: nat, count: nat, k: nat, w: Width)
    requires AllSigned(values, w) && 1 <= start && start + count <= |values| && k < count
    ensures
      var us := UnsignedAll(values, w);
      Deltas(us[start - 1], us[start..start + count], w)[k] ==
      Wrap(ToUnsigned(values[start + k], w) - ToUnsigned(values[start + k - 1], w), w)
  {
    hide Wrap, ToUnsigned, IsSigned;
  }

  /** columnar_encode.hpp:211-212. */
  method AdjustBlock(ds: seq<nat>, min: nat, w: Width) returns (adj: seq<nat>)
    requires |ds| <= BLOCK
    ensures adj == Adjusted(ds, min, w)
  {
    hide Wrap;
    var adjusted := new nat[BLOCK];
    for k := 0 to |ds|
      invariant forall j :: 0 <= j < k ==> adjusted[j] == Wrap(ds[j] - min, w)
    {
      adjusted[k] := Wrap(ds[k] - min, w);
    }
    for k := |ds| to BLOCK
      invariant forall j :: 0 <= j < |ds| ==> adjusted[j] == Wrap(ds[j] - min, w)
      invariant forall j :: |ds| <= j < k ==> adjusted[j] == 0
    {
      adjusted[k] := 0;
    }
    adj := adjusted[..];
  }

  method OrMini(adj: seq<nat>, m: nat) returns (hi: nat)
    requires |adj| == BLOCK && m < 4
    ensures hi == OrAll(Mini(adj, m))
  {
    hide Or;
    ghost var vs := Mini(adj, m);
    hi := 0;
    for k := 0 to PER_MINI
      invariant hi == OrAll(vs[..k])
    {
      assert vs[..k + 1][..k] == vs[..k] && vs[k] == adj[PER_MINI * m + k];
      hi := Or(hi, adj[PER_MINI * m + k]);
    }
    assert vs[..PER_MINI] == vs;
  }

  /** columnar_encode.hpp:214-222. */
  method BlockWidths(adj: seq<nat>, used: nat, w: Width) returns (ks: seq<byte>)
    requires |adj| == BLOCK && AllFit(adj, w)
    ensures ks == Widths(adj, used, w)
  {
    hide AllFit, Mini, OrAll, BitLen;
    ks := [];
    for m := 0 to 4
      invariant ks == Widths(adj, used, w)[..m]
    {
      if m < used {
        var hi := OrMini(adj, m);
        MiniWidthBound(adj, m, w);
        ks := ks + [BitLen(hi)];
      } else {
        ks := ks + [0];
      }
    }
  }

  lemma {:induction false} MiniWidthBound(adj: seq<nat>, m: nat, w: Width)
    requires |adj| == BLOCK && AllFit(adj, w) && m < 4
    ensures BitLen(OrAll(Mini(adj, m))) == MiniWidthOf(adj, m, w)
  {
  }

  /** columnar_encode.hpp:223-224. */
  method PackMinis(adj: seq<nat>, ks: seq<byte>, used: nat, w: Width) returns (body: seq<byte>)
    requires |adj| == BLOCK && AllFit(adj, w) && used <= 4 && ks == Widths(adj, used, w)
    ensures body == MiniBytes(adj, 0, used, w)
  {
    hide AllFit, Packed, Masked, Mini, MiniWidthOf, Widths, MiniBytes;
    body := [];
    for m := 0 to used
      invariant body + MiniBytes(adj, m, used, w) == MiniBytes(adj, 0, used, w)
    {
      WidthsAt(adj, used, m, w);
      MiniBytesStep(adj, m, used, w);
      MiniUnmasked(adj, m, w);
      var packed := PackBits(Mini(adj, m), ks[m]);
      assert body + (packed + MiniBytes(adj, m + 1, used, w)) == body + packed + MiniBytes(adj, m + 1, used, w);
      body := body + packed;
    }
    MiniBytesEnd(adj, used, used, w);
    assert body + [] == body;
  }

  lemma {:induction false} MiniUnmasked(adj: seq<nat>, m: nat, w: Width)
    requires |adj| == BLOCK && AllFit(adj, w) && m < 4
    ensures Masked(Mini(adj, m), MiniWidthOf(adj, m, w)) == Mini(adj, m)
  {
    MiniWidthIsLeast(Mini(adj, m), MiniWidthOf(adj, m, w));
    MaskedFits(Mini(adj, m), MiniWidthOf(adj, m, w));
  }

  /** One pass of the block loop. */
  method EncodeBlock(values: seq<int>, start: nat, count: nat, w: Width) returns (bytes: seq<byte>)
    requires AllSigned(values, w) && 1 <= start && start + count <= |values| && count <= BLOCK
    ensures
      var us := UnsignedAll(values, w);
      bytes == BlockBytes(us[start - 1], us[start..start + count], w)
  {
    hide AllFit, Deltas, Adjusted, Widths, MiniBytes, UsedMinis, MinDelta, Pow2, IsSigned, ToUnsigned, ZigzagEncode, Uleb128;
    var ds, min := BlockDeltas(values, start, count, w);
    var adj := AdjustBlock(ds, ToUnsigned(min, w), w);
    var z := Uleb128Encode(Zigzag64(min, w));
    var used := UsedMinis(count);
    var ks := BlockWidths(adj, used, w);
    var body := PackMinis(adj, ks, used, w);
    bytes := z + ks + body;
  }

  /** include/nanom/columnar_encode.hpp:192-224: appends the stream to out. */
  method DeltaBinaryPackedEncode(values: seq<int>, w: Width, out: seq<byte>) returns (out': seq<byte>)
    requires AllSigned(values, w)
    ensures out' == out + StreamBytes(values, w)
  {
    hide AllFit, Uleb128, BlockBytes, UnsignedAll, IsSigned, Zigzag64, BlocksBytes;
    var a := Uleb128Encode(BLOCK);
    var b := Uleb128Encode(4);
    var c := Uleb128Encode(|values|);
    var d := Uleb128Encode(StreamFirst(values, w));
    var header := a + b + c + d;
    assert header == StreamHeader(values, w);
    if |values| <= 1 {
      assert header + [] == StreamBytes(values, w);
      return out + header;
    }
    ghost var us := UnsignedAll(values, w);
    var body: seq<byte> := [];
    var start := 1;
    while start < |values|
      invariant 1 <= start <= |values|
      invariant body + BlocksBytes(us[start - 1], us[start..], w) == BlocksBytes(us[0], us[1..], w)
    {
      var count := Min(BLOCK, |values| - start);
      var block := EncodeBlock(values, start, count, w);
      NextBlock(us, start, w);
      ghost var rest := BlocksBytes(us[start + count - 1], us[start + count..], w);
      assert body + (block + rest) == body + block + rest;
      body := body + block;
      start := start + count;
    }
    assert us[start..] == [];
    BlocksNone(us[start - 1], w);
    assert body + [] == body;
    out' := out + (header + body);
  }

  lemma {:induction false} NextBlock(us: seq<nat>, start: nat, w: Width)
    requires 1 <= start < |us|
    ensures
      var count := Min(BLOCK, |us| - start);
      BlocksBytes(us[start - 1], us[start..], w) ==
      BlockBytes(us[start - 1], us[start..start + count], w) +
      BlocksBytes(us[start + count - 1], us[start + count..], w)
  {
    hide BlockBytes;
    var count := Min(BLOCK, |us| - start);
    assert us[start..][..count] == us[start..start + count];
    assert us[start..][count..] == us[start + count..];
  }
}
