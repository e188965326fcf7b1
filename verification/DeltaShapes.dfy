/** DELTA_BINARY_PACKED streams of every shape the decoder admits: any block size and miniblock count, any block
    minimums (include/nanom/columnar.hpp:288-345). */
module DeltaShapes {
  import opened Bytes
  import opened Leb128
  import opened BitPacking
  import opened DeltaPacked
  import opened DeltaPackedEncode

  // ------------------------------------------------------------------
  // A writer for every shape
  // ------------------------------------------------------------------

  /** `minis` miniblocks of `per` values a block. */
  predicate Shape(minis: nat, per: nat) {
    minis > 0 && per > 0 && per % 32 == 0 && minis * per % 128 == 0 && minis * per <= 0x10_0000
  }

  /** The differences above `min`, the first against `last`. */
  function Diffs(last: nat, us: seq<nat>, min: nat, w: nat): (ds: seq<nat>)
    ensures |ds| == |us| && AllFit(ds, w)
  {
    seq(|us|, k requires 0 <= k < |us| => Wrap(Wrap(us[k] - Prior(last, us, k), w) - min, w))
  }

  /** The next miniblock's values, zero-filled. */
  function Chunk(ds: seq<nat>, per: nat): (vs: seq<nat>)
    ensures |vs| == per
  {
    seq(per, k requires 0 <= k < per => if k < |ds| then ds[k] else 0)
  }

  /** One width a miniblock that holds values. */
  function WidthBytes(ds: seq<nat>, per: nat, w: Width): (ks: seq<byte>)
    requires per > 0 && AllFit(ds, w)
    decreases |ds|
  {
    if |ds| == 0 then []
    else
      ChunkWidth(ds, per, w);
      [MiniWidth(Chunk(ds, per))] + WidthBytes(ds[Min(per, |ds|)..], per, w)
  }

  function MinisBytes(ds: seq<nat>, per: nat): (s: seq<byte>)
    requires per > 0
    decreases |ds|
  {
    if |ds| == 0 then []
    else Packed(Chunk(ds, per), MiniWidth(Chunk(ds, per))) + MinisBytes(ds[Min(per, |ds|)..], per)
  }

  lemma {:induction false} ChunkWidth(ds: seq<nat>, per: nat, w: Width)
    requires AllFit(ds, w)
    ensures MiniWidth(Chunk(ds, per)) <= w && AllFit(Chunk(ds, per), MiniWidth(Chunk(ds, per)))
  {
    hide MiniWidth, Pow2;
    Pow2Positive(w);
    MiniWidthIsLeast(Chunk(ds, per), w);
    MiniWidthIsLeast(Chunk(ds, per), MiniWidth(Chunk(ds, per)));
  }

  lemma {:induction false} Pow2Positive(w: nat)
    ensures Pow2(w) > 0
  {
  }

  function Zeros(n: nat): (s: seq<byte>)
    ensures |s| == n
  {
    seq(n, _ => 0)
  }

  /** A block of values after `last`, at most minis * per of them; miniblocks past the values get width 0. */
  function ShapedBlock(last: nat, us: seq<nat>, min: int, minis: nat, per: nat, w: Width): (s: seq<byte>)
    requires per > 0 && |us| <= minis * per && IsSigned(min, w)
  {
    var ds := Diffs(last, us, ToUnsigned(min, w), w);
    WidthCount(ds, per, w, minis);
    Uleb128(Zigzag64(min, w)) + (WidthBytes(ds, per, w) + Zeros(minis - |WidthBytes(ds, per, w)|) + MinisBytes(ds, per))
  }

  lemma {:induction false} WidthCount(ds: seq<nat>, per: nat, w: Width, minis: nat)
    requires per > 0 && AllFit(ds, w) && |ds| <= minis * per
    ensures |WidthBytes(ds, per, w)| <= minis
    ensures |ds| == minis * per ==> |WidthBytes(ds, per, w)| == minis
    decreases |ds|
  {
    hide Chunk, MiniWidth, Pow2;
    if |ds| > 0 {
      assert minis > 0 && (minis - 1) * per == minis * per - per;
      WidthCount(ds[Min(per, |ds|)..], per, w, minis - 1);
    } else if minis > 0 {
      MulMono(1, minis, per);
    }
  }

  /** The first block's minimum; 0 when none is given. */
  function MinOf(mins: seq<int>): int {
    if |mins| == 0 then 0 else mins[0]
  }

  function Later(mins: seq<int>): seq<int> {
    if |mins| == 0 then [] else mins[1..]
  }

  lemma {:induction false} MinSigned(mins: seq<int>, w: Width)
    requires AllSigned(mins, w)
    ensures IsSigned(MinOf(mins), w) && AllSigned(Later(mins), w)
  {
    Pow2Positive(w - 1);
  }

  function ShapedBlocks(last: nat, us: seq<nat>, mins: seq<int>, minis: nat, per: nat, w: Width): (s: seq<byte>)
    requires Shape(minis, per) && AllSigned(mins, w)
    decreases |us|
  {
    if |us| == 0 then []
    else
      MinSigned(mins, w);
      BlockPositive(minis, per);
      var c := Min(minis * per, |us|);
      ShapedBlock(last, us[..c], MinOf(mins), minis, per, w) +
      ShapedBlocks(us[c - 1], us[c..], Later(mins), minis, per, w)
  }

  lemma {:induction false} BlockPositive(minis: nat, per: nat)
    requires Shape(minis, per)
    ensures minis * per >= per > 0
  {
    MulMono(1, minis, per);
  }

  function ShapedHeader(vs: seq<int>, minis: nat, per: nat, w: Width): (s: seq<byte>)
    requires AllSigned(vs, w)
  {
    Uleb128(minis * per) + (Uleb128(minis) + (Uleb128(|vs|) + Uleb128(StreamFirst(vs, w))))
  }

  function ShapedBody(vs: seq<int>, mins: seq<int>, minis: nat, per: nat, w: Width): (s: seq<byte>)
    requires Shape(minis, per) && AllSigned(vs, w) && AllSigned(mins, w)
  {
    if |vs| <= 1 then []
    else
      var us := UnsignedAll(vs, w);
      ShapedBlocks(us[0], us[1..], mins, minis, per, w)
  }

  function ShapedStream(vs: seq<int>, mins: seq<int>, minis: nat, per: nat, w: Width): (s: seq<byte>)
    requires Shape(minis, per) && AllSigned(vs, w) && AllSigned(mins, w)
  {
    ShapedHeader(vs, minis, per, w) + ShapedBody(vs, mins, minis, per, w)
  }

  // ------------------------------------------------------------------
  // Miniblocks
  // ------------------------------------------------------------------

  lemma {:induction false} DiffsTail(last: nat, us: seq<nat>, min: nat, w: nat, c: nat)
    requires 0 < c <= |us|
    ensures Diffs(last, us, min, w)[c..] == Diffs(us[c - 1], us[c..], min, w)
  {
    hide Wrap;
  }

  lemma {:induction false} DiffsSum(last: nat, us: seq<nat>, min: nat, k: nat, w: nat)
    requires AllFit(us, w) && k <= |us|
    ensures Sums(last, min, Diffs(last, us, min, w)[..k], w) == us[..k]
    decreases k
  {
    hide Wrap, Pow2;
    if k > 0 {
      var ds := Diffs(last, us, min, w);
      WrapUndo(us[0], last, min, w);
      DiffsTail(last, us, min, w, 1);
      DiffsSum(us[0], us[1..], min, k - 1, w);
      assert ds[..k][1..] == Diffs(us[0], us[1..], min, w)[..k - 1];
      assert us[..k] == [us[0]] + us[1..][..k - 1];
    }
  }

  lemma {:induction false} WholeMini(per: nat, mw: nat, need: nat)
    requires per % 8 == 0 && need <= per
    ensures RunSize(need, mw) <= RunSize(per, mw) == MiniSize(per, mw)
  {
    MulMono(need, per, mw);
    assert per * mw == 8 * (per / 8 * mw) by { MulAssoc(8, per / 8, mw); }
  }

  /** The first miniblock of those for us, `need` values of it. */
  lemma {:induction false} FirstMini(s: seq<byte>, p: nat, last: nat, us: seq<nat>, min: nat, per: nat, need: nat,
                                     w: Width)
    requires AllFit(us, w) && per > 0 && per % 32 == 0 && need <= Min(per, |us|)
    requires
      var c := Chunk(Diffs(last, us, min, w), per);
      At(s, p, Packed(c, MiniWidth(c)))
    ensures
      var c := Chunk(Diffs(last, us, min, w), per);
      var mw := MiniWidth(c);
      && |Packed(c, mw)| == MiniSize(per, mw) && RunSize(need, mw) <= MiniSize(per, mw) <= |s| - p && mw <= w
      && Sums(last, min, Unpacked(s[p..], mw, need), w) == us[..need]
  {
    hide Sums, Diffs, Unpacked, MiniWidth, Packed, AllFit, Chunk, At;
    var ds := Diffs(last, us, min, w);
    var c := Chunk(ds, per);
    var mw := MiniWidth(c);
    ChunkWidth(ds, per, w);
    WholeMini(per, mw, need);
    AtSlice(s, p, Packed(c, mw));
    UnpackedPrefix(s, p, c, mw, need);
    ChunkIs(ds, per, need);
    DiffsSum(last, us, min, need, w);
  }

  lemma {:induction false} ChunkIs(ds: seq<nat>, per: nat, need: nat)
    requires need <= Min(per, |ds|)
    ensures Chunk(ds, per)[..need] == ds[..need]
  {
  }

  /** `left` of `count` values are asked for; more only of miniblocks that are all full and all of the block. */
  ghost predicate Asked(left: nat, count: nat, per: nat, full: nat, pad: seq<byte>) {
    left <= count || (pad == [] && count == full * per)
  }

  lemma {:induction false} AskedNext(left: nat, count: nat, per: nat, full: nat, pad: seq<byte>)
    requires Asked(left, count, per, full, pad) && left > 0 && count > 0 && per > 0
    ensures Min(per, left) <= count
    ensures left > per ==> count >= per && Asked(left - per, count - per, per, Less(full), pad)
    ensures left >= count > per ==> left > per
  {
    if left > count {
      if full > 0 {
        MulMono(1, full, per);
      }
      assert (full - 1) * per == full * per - per;
    }
  }

  ghost function Less(n: nat): nat {
    if n == 0 then 0 else n - 1
  }

  /** The miniblocks of a block give back its values, as many as are asked for. */
  lemma {:induction false} MinisBack(s: seq<byte>, p: nat, last: nat, us: seq<nat>, min: nat, pad: seq<byte>, per: nat,
                                     left: nat, full: nat, w: Width)
    requires AllFit(us, w) && per > 0 && per % 32 == 0 && Asked(left, |us|, per, full, pad)
    requires At(s, p, MinisBytes(Diffs(last, us, min, w), per))
    ensures
      var ds := Diffs(last, us, min, w);
      var r := Minis(s, p, WidthBytes(ds, per, w) + pad, per, left, last, min, w);
      && p <= |s| && r.Done? && r.values == us[..Min(left, |us|)]
      && (left >= |us| ==> r.at == p + |MinisBytes(ds, per)|)
    decreases |us|
  {
    hide Sums, Diffs, Unpacked, RunSize, MiniSize, AllFit, Packed, MiniWidth, Minis, At, Before, LastOf, Chunk, Asked,
         WidthBytes, MinisBytes, Less;
    var ds := Diffs(last, us, min, w);
    var ks := WidthBytes(ds, per, w) + pad;
    AtSlice(s, p, MinisBytes(ds, per));
    MinisParts(ds, per, w);
    if |us| == 0 || left == 0 {
      if |us| == 0 {
        AskedNone(left, |us|, per, full, pad);
      }
      MinisEnd(s, p, ks, per, left, last, min, w);
    } else {
      AskedNext(left, |us|, per, full, pad);
      var vs := Chunk(ds, per);
      var c, need, mw := Min(per, |us|), Min(per, left), MiniWidth(vs);
      AtConcat(s, p, Packed(vs, mw), MinisBytes(ds[c..], per));
      FirstMini(s, p, last, us, min, per, need, w);
      var next := p + MiniSize(per, mw);
      assert ks[1..] == WidthBytes(ds[c..], per, w) + pad;
      Turn(s, p, ks, per, left, last, min, w, mw, need, us[..need], next);
      if left == need {
        MinisEnd(s, next, ks[1..], per, 0, LastOf(last, us[..need]), min, w);
        BeforeDone(us[..need], Done([], next));
        assert us[..need] + [] == us[..Min(left, |us|)];
        MinisParts(ds[c..], per, w);
      } else {
        DiffsTail(last, us, min, w, c);
        FitSplit(us, c, w);
        LastIs(last, us, c);
        MinisBack(s, next, us[c - 1], us[c..], min, pad, per, left - c, Less(full), w);
        BeforeDone(us[..c], Minis(s, next, ks[1..], per, left - c, us[c - 1], min, w));
        TakeJoin(us, c, left);
      }
    }
  }

  lemma {:induction false} AskedNone(left: nat, count: nat, per: nat, full: nat, pad: seq<byte>)
    requires Asked(left, count, per, full, pad) && count == 0
    ensures left == 0 || pad == []
  {
  }

  lemma {:induction false} TakeJoin(us: seq<nat>, c: nat, left: nat)
    requires c <= |us| && c <= left
    ensures us[..c] + us[c..][..Min(left - c, |us[c..]|)] == us[..Min(left, |us|)]
  {
  }

  lemma {:induction false} MinisParts(ds: seq<nat>, per: nat, w: Width)
    requires per > 0 && AllFit(ds, w)
    ensures |ds| == 0 ==> WidthBytes(ds, per, w) == [] && MinisBytes(ds, per) == []
    ensures |ds| > 0 ==>
      var c, vs := Min(per, |ds|), Chunk(ds, per);
      && AllFit(ds[c..], w) && MiniWidth(vs) <= w
      && WidthBytes(ds, per, w) == [MiniWidth(vs)] + WidthBytes(ds[c..], per, w)
      && MinisBytes(ds, per) == Packed(vs, MiniWidth(vs)) + MinisBytes(ds[c..], per)
  {
    hide Chunk, MiniWidth, Packed, Pow2;
    if |ds| > 0 {
      ChunkWidth(ds, per, w);
    }
  }

  lemma {:induction false} LastIs(last: nat, us: seq<nat>, c: nat)
    requires 0 < c <= |us|
    ensures LastOf(last, us[..c]) == us[c - 1]
  {
  }

  lemma {:induction false} Turn(s: seq<byte>, p: nat, ks: seq<byte>, per: nat, left: nat, last: nat, min: nat, w: Width,
                                mw: nat, need: nat, vals: seq<nat>, next: nat)
    requires p <= |s| && |ks| > 0 && mw == ks[0] <= w && left > 0 && need == Min(per, left)
    requires RunSize(need, mw) <= MiniSize(per, mw) <= |s| - p && next == p + MiniSize(per, mw)
    requires vals == Sums(last, min, Unpacked(s[p..], mw, need), w)
    ensures Minis(s, p, ks, per, left, last, min, w) ==
            Before(vals, Minis(s, next, ks[1..], per, left - need, LastOf(last, vals), min, w))
  {
    hide Sums, Unpacked, RunSize, MiniSize, AllFit;
  }

  // ------------------------------------------------------------------
  // Blocks
  // ------------------------------------------------------------------

  ghost predicate Opens(s: seq<byte>, p: nat, minis: nat) {
    p <= |s| && Read(s, p, 64).Value? && Read(s, p, 64).next + minis <= |s|
  }

  /** The block at s[p]. */
  ghost function BlockAt(s: seq<byte>, p: nat, minis: nat, per: nat, left: nat, last: nat, w: Width): (r: Progress)
    requires Opens(s, p, minis)
    ensures r.Done? ==> r.at <= |s|
  {
    var z := Read(s, p, 64);
    Minis(s, z.next + minis, s[z.next..z.next + minis], per, left, last, Wrap(ZigzagDecode(z.v, 64), w), w)
  }

  lemma {:induction false} BlockBack(s: seq<byte>, p: nat, last: nat, us: seq<nat>, min: int, minis: nat, per: nat,
                                     left: nat, w: Width)
    requires AllFit(us, w) && Shape(minis, per) && |us| <= minis * per && IsSigned(min, w)
    requires 0 < left && (left <= |us| || |us| == minis * per)
    requires At(s, p, ShapedBlock(last, us, min, minis, per, w))
    ensures Opens(s, p, minis)
    ensures
      var r := BlockAt(s, p, minis, per, left, last, w);
      && r.Done? && r.values == us[..Min(left, |us|)]
      && (left >= |us| ==> r.at == p + |ShapedBlock(last, us, min, minis, per, w)|)
  {
    hide Diffs, AllFit, MinisBytes, WidthBytes, Pow2, Zigzag64, ZigzagDecode, Wrap, Minis, Read, ToUnsigned, IsSigned,
         At, ShapedBlock, Zeros, Asked, Shape;
    var minU := ToUnsigned(min, w);
    var ds := Diffs(last, us, minU, w);
    ShapeBound(minis, per);
    BlockParts(s, p, last, us, min, minis, per, w);
    var pad := Zeros(minis - |WidthBytes(ds, per, w)|);
    Zigzag64Undo(min, w);
    AskedHere(left, |us|, minis, per, pad);
    MinisBack(s, Read(s, p, 64).next + minis, last, us, minU, pad, per, left, minis, w);
  }

  lemma {:induction false} AskedHere(left: nat, count: nat, minis: nat, per: nat, pad: seq<byte>)
    requires left <= count || (count == minis * per && |pad| == 0)
    ensures Asked(left, count, per, minis, pad)
  {
  }

  /** Where the parts of a block stand. */
  lemma {:induction false} BlockParts(s: seq<byte>, p: nat, last: nat, us: seq<nat>, min: int, minis: nat, per: nat,
                                      w: Width)
    requires per > 0 && |us| <= minis * per && IsSigned(min, w)
    requires At(s, p, ShapedBlock(last, us, min, minis, per, w))
    ensures
      var ds := Diffs(last, us, ToUnsigned(min, w), w);
      var ks := WidthBytes(ds, per, w);
      var z := Read(s, p, 64);
      && |ks| <= minis && (|us| == minis * per ==> |ks| == minis)
      && z.Value? && z.v == Zigzag64(min, w) && z.next + minis <= |s|
      && s[z.next..z.next + minis] == ks + Zeros(minis - |ks|)
      && At(s, z.next + minis, MinisBytes(ds, per))
      && p + |ShapedBlock(last, us, min, minis, per, w)| == z.next + minis + |MinisBytes(ds, per)|
  {
    hide Diffs, AllFit, MinisBytes, WidthBytes, Pow2, Zigzag64, Read, ToUnsigned, IsSigned, At, Uleb128, Zeros;
    var ds := Diffs(last, us, ToUnsigned(min, w), w);
    WidthCount(ds, per, w, minis);
    var z, ks, body := Uleb128(Zigzag64(min, w)), WidthBytes(ds, per, w), MinisBytes(ds, per);
    var all := ks + Zeros(minis - |ks|);
    AtConcat(s, p, z, all + body);
    AtConcat(s, p + |z|, all, body);
    AtSlice(s, p, z);
    AtSlice(s, p + |z|, all);
    UlebRoundTrip(s, p, Zigzag64(min, w), 64);
  }

  lemma {:induction false} BlocksTurn(s: seq<byte>, p: nat, minis: nat, per: nat, left: nat, last: nat, vals: seq<nat>,
                                      at: nat, w: Width)
    requires left > 0 && at <= |s| && 0 < |vals| <= left && minis > 0 && per > 0
    requires Opens(s, p, minis) && BlockAt(s, p, minis, per, left, last, w) == Done(vals, at)
    ensures Blocks(s, p, minis, per, left, last, w) ==
            Before(vals, Blocks(s, at, minis, per, left - |vals|, LastOf(last, vals), w))
  {
    hide Minis, Read, Wrap, ZigzagDecode;
  }

  lemma {:induction false} BlocksOut(s: seq<byte>, p: nat, minis: nat, per: nat, last: nat, w: Width)
    requires p <= |s| && minis > 0 && per > 0
    ensures Blocks(s, p, minis, per, 0, last, w) == Done([], p)
  {
  }

  lemma {:induction false} ShapedSplit(last: nat, us: seq<nat>, mins: seq<int>, minis: nat, per: nat, w: Width)
    requires Shape(minis, per) && AllSigned(mins, w) && |us| > 0
    requires minis * per > 0 && IsSigned(MinOf(mins), w) && AllSigned(Later(mins), w)
    ensures
      var c := Min(minis * per, |us|);
      ShapedBlocks(last, us, mins, minis, per, w) ==
      ShapedBlock(last, us[..c], MinOf(mins), minis, per, w) +
      ShapedBlocks(us[c - 1], us[c..], Later(mins), minis, per, w)
  {
    hide ShapedBlock, Shape, AllSigned;
  }

  lemma {:induction false} BlocksBack(s: seq<byte>, p: nat, last: nat, us: seq<nat>, mins: seq<int>, minis: nat,
                                      per: nat, left: nat, w: Width)
    requires AllFit(us, w) && AllSigned(mins, w) && Shape(minis, per) && left <= |us|
    requires At(s, p, ShapedBlocks(last, us, mins, minis, per, w))
    ensures
      var r := Blocks(s, p, minis, per, left, last, w);
      && p <= |s| && r.Done? && r.values == us[..left]
      && (left == |us| ==> r.at == p + |ShapedBlocks(last, us, mins, minis, per, w)|)
    decreases |us|
  {
    hide AllFit, ShapedBlock, At, Blocks, AllSigned, IsSigned, MinOf, Later, LastOf, Before, Opens, BlockAt, Shape,
         ShapedBlocks;
    ShapeBound(minis, per);
    AtSlice(s, p, ShapedBlocks(last, us, mins, minis, per, w));
    if left == 0 {
      BlocksOut(s, p, minis, per, last, w);
      ShapedNone(last, mins, minis, per, w);
      assert |us| == 0 ==> us == [];
    } else {
      MinSigned(mins, w);
      BlockPositive(minis, per);
      var c := Min(minis * per, |us|);
      var front, rest, min := us[..c], us[c..], MinOf(mins);
      FitSplit(us, c, w);
      ShapedSplit(last, us, mins, minis, per, w);
      AtConcat(s, p, ShapedBlock(last, front, min, minis, per, w),
               ShapedBlocks(us[c - 1], rest, Later(mins), minis, per, w));
      BlockBack(s, p, last, front, min, minis, per, left, w);
      var k, at := Min(left, c), BlockAt(s, p, minis, per, left, last, w).at;
      assert front[..k] == us[..k];
      BlocksTurn(s, p, minis, per, left, last, us[..k], at, w);
      if left > c {
        LastIs(last, us, c);
        BlocksBack(s, at, us[c - 1], rest, Later(mins), minis, per, left - c, w);
        BeforeDone(us[..k], Blocks(s, at, minis, per, left - c, us[c - 1], w));
        assert us[..left] == us[..k] + rest[..left - k];
      } else {
        ShapedNone(us[c - 1], Later(mins), minis, per, w);
        assert left == |us| ==> rest == [];
        BlocksOut(s, at, minis, per, LastOf(last, us[..k]), w);
        BeforeDone(us[..k], Done([], at));
        assert us[..k] + [] == us[..left];
      }
    }
  }

  // ------------------------------------------------------------------
  // Streams
  // ------------------------------------------------------------------

  lemma {:induction false} ShapeIsOk(minis: nat, per: nat, h: Header)
    requires Shape(minis, per) && h.blockSize == minis * per && h.minis == minis
    ensures ShapeOk(h) && PerMini(h) == per && minis <= 0x10_0000
  {
    BlockPositive(minis, per);
    MulMono(1, per, minis);
    DivModUnique(minis * per, minis, per, 0);
  }

  lemma {:induction false} FourVarints(s: seq<byte>, a: nat, b: nat, c: nat, d: nat)
    requires a < Pow2(64) && b < Pow2(64) && c < Pow2(64) && d < Pow2(64)
    requires At(s, 0, Uleb128(a) + (Uleb128(b) + (Uleb128(c) + Uleb128(d))))
    ensures ReadHeader(s) ==
            Some(Header(a, b, c, d, |Uleb128(a) + (Uleb128(b) + (Uleb128(c) + Uleb128(d)))|))
  {
    hide Uleb128, Read, Pow2, At;
    var x, y, z := |Uleb128(a)|, |Uleb128(b)|, |Uleb128(c)|;
    AtConcat(s, 0, Uleb128(a), Uleb128(b) + (Uleb128(c) + Uleb128(d)));
    AtConcat(s, x, Uleb128(b), Uleb128(c) + Uleb128(d));
    AtConcat(s, x + y, Uleb128(c), Uleb128(d));
    VarintThere(s, 0, a);
    VarintThere(s, x, b);
    VarintThere(s, x + y, c);
    VarintThere(s, x + y + z, d);
  }

  lemma {:induction false} VarintThere(s: seq<byte>, p: nat, u: nat)
    requires u < Pow2(64) && At(s, p, Uleb128(u))
    ensures Read(s, p, 64) == Value(u, p + |Uleb128(u)|)
  {
    hide Uleb128, Read, Pow2;
    UlebRoundTrip(s, p, u, 64);
  }

  /** For every shape and every choice of block minimums, whatever follows: every prefix of the list decodes to itself,
      and reading all of it uses exactly the stream's bytes. */
  lemma {:induction false} ShapedRoundTrip(vs: seq<int>, mins: seq<int>, minis: nat, per: nat, suffix: seq<byte>,
                                           n: nat, w: Width)
    requires Shape(minis, per) && AllSigned(vs, w) && AllSigned(mins, w) && n <= |vs| <= SIZE_MAX
    ensures
      var s := ShapedStream(vs, mins, minis, per, w);
      var r := Decode(s + suffix, n, w);
      && r.Decoded? && r.values == vs[..n] && (n == |vs| ==> r.used == |s|)
  {
    hide AllFit, Pow2, ZigzagDecode, Wrap, Blocks, ShapedBlocks, Zigzag64, UnsignedAll, IsSigned, SignedAll, ReadHeader,
         ToUnsigned, Uleb128, ShapeOk, PerMini, AllSigned, Shape;
    var header, body := ShapedHeader(vs, minis, per, w), ShapedBody(vs, mins, minis, per, w);
    var s := header + body + suffix;
    assert At(s, 0, header + body);
    AtConcat(s, 0, header, body);
    var h := Header(minis * per, minis, |vs|, StreamFirst(vs, w), |header|);
    ShapeIsOk(minis, per, h);
    ShapeBound(minis, per);
    assert Pow2(64) == SIZE_MAX + 1 by { Pow2Values(); }
    FourVarints(s, minis * per, minis, |vs|, StreamFirst(vs, w));
    if n > 0 {
      var us := UnsignedAll(vs, w);
      SignedFirst(vs, w);
      UnsignedAt(vs, 0, w);
      Zigzag64Undo(vs[0], w);
      FitSplit(us, 1, w);
      ShapedNone(us[0], mins, minis, per, w);
      assert |us| == 1 ==> us[1..] == [];
      BlocksBack(s, |header|, us[0], us[1..], mins, minis, per, n - 1, w);
      assert [us[0]] + us[1..][..n - 1] == us[..n];
      SignedUndo(vs, n, w);
    }
  }

  lemma {:induction false} ShapeBound(minis: nat, per: nat)
    requires Shape(minis, per)
    ensures minis > 0 && per > 0 && per % 32 == 0 && minis * per <= 0x10_0000
  {
  }

  lemma {:induction false} SignedFirst(vs: seq<int>, w: Width)
    requires AllSigned(vs, w) && |vs| > 0
    ensures IsSigned(vs[0], w)
  {
  }

  lemma {:induction false} ShapedNone(last: nat, mins: seq<int>, minis: nat, per: nat, w: Width)
    requires Shape(minis, per) && AllSigned(mins, w)
    ensures ShapedBlocks(last, [], mins, minis, per, w) == []
  {
  }

  /** The decoder admits exactly these shapes. */
  lemma {:induction false} ShapesAdmitted(h: Header)
    ensures ShapeOk(h) <==> exists per :: Shape(h.minis, per) && h.minis * per == h.blockSize
  {
    if ShapeOk(h) {
      var per := h.blockSize / h.minis;
      assert h.minis * per == h.blockSize;
      assert Shape(h.minis, per);
    }
    if per :| Shape(h.minis, per) && h.minis * per == h.blockSize {
      ShapeIsOk(h.minis, per, h);
    }
  }
}
