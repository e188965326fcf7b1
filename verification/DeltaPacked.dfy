/** DELTA_BINARY_PACKED decoding: include/nanom/columnar.hpp section 28. */
module DeltaPacked {
  import opened Bytes
  import opened Leb128
  import opened BitPacking

  /** x on w-bit unsigned integers. */
  function Wrap(x: int, w: nat): (r: nat)
    ensures r < Pow2(w)
  {
    x % Pow2(w)
  }

  /** The values that follow `last`: each adds the minimum delta and one stored difference. */
  function Sums(last: nat, min: nat, us: seq<nat>, w: nat): (r: seq<nat>)
    ensures |r| == |us| && AllFit(r, w)
    decreases |us|
  {
    if |us| == 0 then []
    else
      var x := Wrap(last + min + us[0], w);
      [x] + Sums(x, min, us[1..], w)
  }

  function LastOf(last: nat, us: seq<nat>): nat {
    if |us| == 0 then last else us[|us| - 1]
  }

  lemma {:induction false} SumsSplit(last: nat, min: nat, us: seq<nat>, k: nat, w: nat)
    requires k <= |us|
    ensures Sums(last, min, us, w) ==
            Sums(last, min, us[..k], w) + Sums(LastOf(last, Sums(last, min, us[..k], w)), min, us[k..], w)
    decreases k
  {
    hide Wrap;
    if k == 0 {
      assert us[0..] == us;
    } else {
      var x := Wrap(last + min + us[0], w);
      SumsSplit(x, min, us[1..], k - 1, w);
      assert us[1..][..k - 1] == us[..k][1..];
      assert us[1..][k - 1..] == us[k..];
    }
  }

  // ------------------------------------------------------------------
  // What a stream says
  // ------------------------------------------------------------------

  datatype Progress =
    | Bad
    | Done(values: seq<nat>, at: nat)

  function Before(xs: seq<nat>, r: Progress): Progress {
    if r.Bad? then Bad else Done(xs + r.values, r.at)
  }

  /** The bytes n packed values need. */
  function RunSize(n: nat, mw: nat): nat {
    CeilDiv8(n * mw)
  }

  /** The bytes a whole miniblock occupies. */
  function MiniSize(perMini: nat, mw: nat): nat {
    perMini * mw / 8
  }

  /** The miniblocks of one block, their widths given, until `left` values are out. */
  function Minis(s: seq<byte>, p: nat, widths: seq<byte>, perMini: nat, left: nat, last: nat, min: nat, w: nat)
    : (r: Progress)
    requires p <= |s|
    ensures r.Done? ==> p <= r.at <= |s| && |r.values| <= left && AllFit(r.values, w)
    ensures r.Done? && |widths| > 0 && left > 0 && perMini > 0 ==> |r.values| > 0
    decreases |widths|
  {
    if |widths| == 0 || left == 0 then Done([], p)
    else
      var mw := widths[0];
      var need := Min(perMini, left);
      if mw > w || |s| - p < RunSize(need, mw) then Bad
      else
        var vals := Sums(last, min, Unpacked(s[p..], mw, need), w);
        var next := p + Min(MiniSize(perMini, mw), |s| - p);
        Before(vals, Minis(s, next, widths[1..], perMini, left - need, LastOf(last, vals), min, w))
  }

  /** The blocks from s[p] on, until `left` values are out. */
  function Blocks(s: seq<byte>, p: nat, minis: nat, perMini: nat, left: nat, last: nat, w: nat): (r: Progress)
    requires p <= |s| && minis > 0 && perMini > 0
    ensures r.Done? ==> p <= r.at <= |s| && |r.values| == left && AllFit(r.values, w)
    decreases left
  {
    hide Pow2, Read, Wrap, ZigzagDecode, Minis;
    if left == 0 then Done([], p)
    else
      match Read(s, p, 64)
      case Value(zz, q) =>
        if |s| - q < minis then Bad
        else
          var min := Wrap(ZigzagDecode(zz, 64), w);
          var block := Minis(s, q + minis, s[q..q + minis], perMini, left, last, min, w);
          if block.Bad? then Bad
          else
            Before(block.values,
                   Blocks(s, block.at, minis, perMini, left - |block.values|, LastOf(last, block.values), w))
      case _ => Bad
  }

  datatype Header = Header(blockSize: nat, minis: nat, total: nat, first: nat, next: nat)

  /** Blocks of a multiple of 128 values, miniblocks of a multiple of 32 (columnar.hpp:302-304). */
  predicate ShapeOk(h: Header)
    ensures ShapeOk(h) ==> h.minis > 0
  {
    && h.blockSize != 0 && h.blockSize % 128 == 0 && h.minis != 0 && h.blockSize % h.minis == 0
    && (h.blockSize / h.minis) % 32 == 0 && h.blockSize <= 0x10_0000
  }

  function PerMini(h: Header): (r: nat)
    requires ShapeOk(h)
    ensures r > 0
  {
    assert h.blockSize == h.minis * (h.blockSize / h.minis);
    h.blockSize / h.minis
  }

  /** The four varints a stream opens with. */
  function ReadHeader(s: seq<byte>): (r: Option<Header>)
    ensures r.Some? ==> r.value.next <= |s| && r.value.first < Pow2(64)
  {
    var a := Read(s, 0, 64);
    if !a.Value? then None
    else
      var b := Read(s, a.next, 64);
      if !b.Value? then None
      else
        var c := Read(s, b.next, 64);
        if !c.Value? then None
        else
          var d := Read(s, c.next, 64);
          if !d.Value? then None
          else Some(Header(a.v, b.v, c.v, d.v, d.next))
  }

  datatype Decoded =
    | Malformed
    | Decoded(values: seq<int>, used: nat)

  function SignedAll(us: seq<nat>, w: Width): (xs: seq<int>)
    requires AllFit(us, w)
    ensures |xs| == |us|
  {
    seq(|us|, i requires 0 <= i < |us| => ToSigned(us[i], w))
  }

  /** The first n values of the stream at the head of s, and the bytes read for them. */
  function Decode(s: seq<byte>, n: nat, w: Width): (r: Decoded)
    ensures r.Decoded? ==> |r.values| == n && r.used <= |s|
  {
    hide Pow2, ReadHeader, ShapeOk, Blocks, Wrap, ZigzagDecode, SignedAll;
    var hd := ReadHeader(s);
    if hd.None? || !ShapeOk(hd.value) || hd.value.total < n then Malformed
    else if n == 0 then Decoded([], hd.value.next)
    else
      var h := hd.value;
      var first := Wrap(ZigzagDecode(h.first, 64), w);
      match Blocks(s, h.next, h.minis, PerMini(h), n - 1, first, w)
      case Bad => Malformed
      case Done(values, at) => Decoded(SignedAll([first] + values, w), at)
  }

  // ------------------------------------------------------------------
  // The decoder
  // ------------------------------------------------------------------

  /** The running sum over one chunk of unpacked differences (columnar.hpp:334-337). */
  method AddChunk(unpacked: array<nat>, k: nat, last: nat, min: nat, out: array<int>, o: nat, w: Width)
    returns (last': nat)
    requires k <= unpacked.Length && o + k <= out.Length
    modifies out
    ensures out[o..o + k] == SignedAll(Sums(last, min, unpacked[..k], w), w)
    ensures forall j :: 0 <= j < out.Length && !(o <= j < o + k) ==> out[j] == old(out[j])
    ensures last' == LastOf(last, Sums(last, min, unpacked[..k], w))
  {
    hide Wrap, Sums, ToSigned, Pow2;
    last' := last;
    ghost var us := unpacked[..k];
    ghost var got: seq<nat> := [];
    SumsEmpty(last, min, w);
    for i := 0 to k
      invariant got == Sums(last, min, us[..i], w) && |got| == i && last' == LastOf(last, got)
      invariant forall j :: 0 <= j < i ==> out[o + j] == ToSigned(got[j], w)
      invariant forall j :: 0 <= j < out.Length && !(o <= j < o + k) ==> out[j] == old(out[j])
    {
      SumsNext(last, min, us, i, w);
      last' := Wrap(last' + min + unpacked[i], w);
      got := got + [last'];
      out[o + i] := ToSigned(last', w);
    }
    assert us[..k] == us;
  }

  lemma {:induction false} SumsEmpty(last: nat, min: nat, w: nat)
    ensures Sums(last, min, [], w) == []
  {
  }

  lemma {:induction false} SumsNext(last: nat, min: nat, us: seq<nat>, i: nat, w: nat)
    requires i < |us|
    ensures Sums(last, min, us[..i + 1], w) ==
            Sums(last, min, us[..i], w) + [Wrap(LastOf(last, Sums(last, min, us[..i], w)) + min + us[i], w)]
  {
    hide Wrap;
    SumsSplit(last, min, us[..i + 1], i, w);
    assert us[..i + 1][..i] == us[..i] && us[..i + 1][i..] == [us[i]];
    assert [us[i]][1..] == [];
  }

  /** One miniblock, unpacked in chunks of at most 1024 values (columnar.hpp:326-340). */
  method DecodeMini(s: seq<byte>, p: nat, mw: nat, need: nat, last: nat, min: nat, out: array<int>, o: nat, w: Width)
    returns (last': nat)
    requires p <= |s| && mw <= w && RunSize(need, mw) <= |s| - p && o + need <= out.Length
    modifies out
    ensures out[o..o + need] == SignedAll(Sums(last, min, Unpacked(s[p..], mw, need), w), w)
    ensures forall j :: 0 <= j < out.Length && !(o <= j < o + need) ==> out[j] == old(out[j])
    ensures last' == LastOf(last, Sums(last, min, Unpacked(s[p..], mw, need), w))
  {
    hide Wrap, Sums, ToSigned, Unpacked, RunSize, SignedAll, AllFit, Pow2;
    ghost var us := Unpacked(s[p..], mw, need);
    var unpacked := new nat[1024];
    var done := 0;
    last' := last;
    SumsEmpty(last, min, w);
    SignedEmpty(w);
    while done < need
      invariant done <= need && (done == need || done % 1024 == 0)
      invariant fresh(unpacked)
      invariant out[o..o + done] == SignedAll(Sums(last, min, us[..done], w), w)
      invariant last' == LastOf(last, Sums(last, min, us[..done], w))
      invariant forall j :: 0 <= j < out.Length && !(o <= j < o + done) ==> out[j] == old(out[j])
    {
      var k := Min(1024, need - done);
      UnpackChunk(s, p, mw, unpacked, done, k, need);
      ghost var before := out[o..o + done];
      ghost var mid := last';
      last' := AddChunk(unpacked, k, last', min, out, o + done, w);
      assert out[o..o + (done + k)] == out[o..o + done] + out[o + done..o + done + k];
      assert out[o..o + done] == before;
      SumsChunk(last, min, us, done, k, w);
      SignedConcat(Sums(last, min, us[..done], w), Sums(mid, min, us[done..done + k], w), w);
      done := done + k;
    }
    assert us[..need] == us;
  }

  lemma {:induction false} SignedEmpty(w: Width)
    ensures SignedAll([], w) == []
  {
  }

  lemma {:induction false} SignedConcat(a: seq<nat>, b: seq<nat>, w: Width)
    requires AllFit(a, w) && AllFit(b, w)
    ensures AllFit(a + b, w) && SignedAll(a + b, w) == SignedAll(a, w) + SignedAll(b, w)
  {
  }

  lemma {:induction false} SumsChunk(last: nat, min: nat, us: seq<nat>, done: nat, k: nat, w: nat)
    requires done + k <= |us|
    ensures
      var a := Sums(last, min, us[..done], w);
      var b := Sums(LastOf(last, a), min, us[done..done + k], w);
      && Sums(last, min, us[..done + k], w) == a + b
      && LastOf(last, a + b) == LastOf(LastOf(last, a), b)
  {
    hide Sums;
    SumsSplit(last, min, us[..done + k], done, w);
    assert us[..done + k][..done] == us[..done] && us[..done + k][done..] == us[done..done + k];
  }

  method UnpackChunk(s: seq<byte>, p: nat, mw: nat, unpacked: array<nat>, done: nat, k: nat, need: nat)
    requires p <= |s| && mw <= 64 && RunSize(need, mw) <= |s| - p
    requires done % 1024 == 0 && done + k <= need && k <= unpacked.Length
    modifies unpacked
    ensures unpacked[..k] == Unpacked(s[p..], mw, need)[done..done + k]
  {
    hide Unpacked, CeilDiv8;
    var off := done * mw / 8;
    ChunkFits(done / 8, k, need, mw);
    var ok := UnpackBits(s[p + off..], mw, 64, unpacked, 0, k);
    assert ok;
    ChunkValues(s, p, off, mw, done, k, need);
  }

  /** Chunks start on a byte: done is a multiple of 8. */
  lemma {:induction false} ChunkFits(g: nat, k: nat, need: nat, mw: nat)
    requires 8 * g + k <= need
    ensures 8 * g * mw == 8 * (g * mw) && 8 * g * mw / 8 == g * mw
    ensures g * mw + CeilDiv8(k * mw) <= CeilDiv8(need * mw)
  {
    MulAssoc(8, g, mw);
    MulMono(8 * g + k, need, mw);
    assert (8 * g + k) * mw == 8 * g * mw + k * mw;
  }

  lemma {:induction false} ChunkValues(s: seq<byte>, p: nat, off: nat, mw: nat, done: nat, k: nat, need: nat)
    requires p + off <= |s| && 8 * off == done * mw && done + k <= need
    ensures Unpacked(s[p + off..], mw, k) == Unpacked(s[p..], mw, need)[done..done + k]
  {
    hide Bits, LeNat;
    var a, b := Unpacked(s[p + off..], mw, k), Unpacked(s[p..], mw, need)[done..done + k];
    forall i | 0 <= i < k ensures a[i] == b[i] {
      assert s[p + off..] == s[p..][off..];
      BitsOfSuffix(s[p..], off, i * mw, mw);
      assert (done + i) * mw == done * mw + i * mw;
    }
  }

  /** The values out so far, as the stream defines them, stand in out[..|got|]. */
  ghost predicate Written(out: seq<int>, got: seq<nat>, w: Width) {
    AllFit(got, w) && |got| <= |out| && out[..|got|] == SignedAll(got, w)
  }

  lemma {:induction false} WrittenMore(before: seq<int>, after: seq<int>, got: seq<nat>, more: seq<nat>, w: Width)
    requires Written(before, got, w) && AllFit(more, w) && |got| + |more| <= |after|
    requires |before| == |after| && forall j :: 0 <= j < |got| ==> after[j] == before[j]
    requires after[|got|..|got| + |more|] == SignedAll(more, w)
    ensures Written(after, got + more, w)
  {
    hide AllFit, SignedAll;
    SignedConcat(got, more, w);
    assert after[..|got| + |more|] == after[..|got|] + after[|got|..|got| + |more|];
    assert after[..|got|] == before[..|got|];
  }

  /** One turn of the miniblock loop, `more` already out. */
  lemma {:induction false} MinisStep(s: seq<byte>, p: nat, widths: seq<byte>, m: nat, perMini: nat, left: nat,
                                     last: nat, min: nat, w: nat, more: seq<nat>, mw: nat, need: nat)
    requires p <= |s| && m < |widths| && left > 0 && mw == widths[m] && need == Min(perMini, left)
    ensures
      var r := Minis(s, p, widths[m..], perMini, left, last, min, w);
      if mw > w || |s| - p < RunSize(need, mw) then r.Bad?
      else
        var vals := Sums(last, min, Unpacked(s[p..], mw, need), w);
        Before(more, r) ==
        Before(more + vals, Minis(s, p + Min(MiniSize(perMini, mw), |s| - p), widths[m + 1..], perMini, left - need,
                                  LastOf(last, vals), min, w))
  {
    hide Sums, Unpacked, RunSize, MiniSize, LastOf, AllFit, Before;
    assert widths[m..][1..] == widths[m + 1..];
    if mw <= w && |s| - p >= RunSize(need, mw) {
      var vals := Sums(last, min, Unpacked(s[p..], mw, need), w);
      BeforeTwice(more, vals,
                  Minis(s, p + Min(MiniSize(perMini, mw), |s| - p), widths[m + 1..], perMini, left - need,
                        LastOf(last, vals), min, w));
    }
  }

  /** The miniblocks of one block (columnar.hpp:318-343). */
  method DecodeBlock(s: seq<byte>, q: nat, minis: nat, perMini: nat, last: nat, min: nat,
                     out: array<int>, o: nat, n: nat, w: Width, ghost got: seq<nat>)
    returns (ok: bool, at: nat, produced: nat, last': nat, ghost more: seq<nat>)
    requires q + minis <= |s| && minis > 0 && perMini > 0 && o < n <= out.Length
    requires |got| == o && Written(out[..], got, w)
    modifies out
    ensures forall j :: n <= j < out.Length ==> out[j] == old(out[j])
    ensures
      var r := Minis(s, q + minis, s[q..q + minis], perMini, n - o, last, min, w);
      && ok == r.Done?
      && (ok ==> r == Done(more, at) && Written(out[..], got + more, w) && produced == o + |more| <= n
                 && last' == LastOf(last, more))
  {
    hide Wrap, Sums, ToSigned, Unpacked, RunSize, SignedAll, MiniSize, Written, AllFit, Minis;
    at, produced, last', more := q + minis, o, last, [];
    ghost var widths := s[q..q + minis];
    var m := 0;
    assert widths[0..] == widths && got + [] == got;
    ghost var goal := Minis(s, q + minis, widths, perMini, n - o, last, min, w);
    while m < minis && produced < n
      invariant m <= minis && at <= |s| && produced == o + |more| <= n
      invariant Written(out[..], got + more, w) && last' == LastOf(last, more)
      invariant forall j :: n <= j < out.Length ==> out[j] == old(out[j])
      invariant goal == Before(more, Minis(s, at, widths[m..], perMini, n - produced, last', min, w))
    {
      var mw := s[q + m];
      var need := Min(perMini, n - produced);
      MinisStep(s, at, widths, m, perMini, n - produced, last', min, w, more, mw, need);
      if mw > w {
        return false, at, produced, last', more;
      }
      if |s| - at < RunSize(need, mw) {
        return false, at, produced, last', more;
      }
      ghost var vals := Sums(last', min, Unpacked(s[at..], mw, need), w);
      ghost var before := out[..];
      last' := DecodeMini(s, at, mw, need, last', min, out, produced, w);
      WrittenMore(before, out[..], got + more, vals, w);
      at := at + Min(MiniSize(perMini, mw), |s| - at);
      assert got + more + vals == got + (more + vals);
      more := more + vals;
      m := m + 1;
      produced := produced + need;
    }
    MinisEnd(s, at, widths[m..], perMini, n - produced, last', min, w);
    assert more + [] == more;
    ok := true;
  }

  lemma {:induction false} MinisEnd(s: seq<byte>, p: nat, widths: seq<byte>, perMini: nat, left: nat, last: nat,
                                    min: nat, w: nat)
    requires p <= |s| && (|widths| == 0 || left == 0)
    ensures Minis(s, p, widths, perMini, left, last, min, w) == Done([], p)
  {
  }

  lemma {:induction false} BeforeTwice(a: seq<nat>, b: seq<nat>, r: Progress)
    ensures Before(a, Before(b, r)) == Before(a + b, r)
  {
    if r.Done? {
      assert a + (b + r.values) == a + b + r.values;
    }
  }

  lemma {:induction false} WrittenFirst(out: seq<int>, first: nat, w: Width)
    requires first < Pow2(w) && |out| > 0 && out[0] == ToSigned(first, w)
    ensures Written(out, [first], w)
  {
  }

  lemma {:induction false} WrittenAll(out: seq<int>, got: seq<nat>, w: Width)
    requires Written(out, got, w)
    ensures AllFit(got, w) && |got| <= |out| && SignedAll(got, w) == out[..|got|]
  {
  }

  method OpenStream(s: seq<byte>) returns (r: Option<Header>)
    ensures r == ReadHeader(s)
  {
    hide Read;
    var a := ReadUleb128(s, 0, 64);
    if !a.Value? { return None; }
    var b := ReadUleb128(s, a.next, 64);
    if !b.Value? { return None; }
    var c := ReadUleb128(s, b.next, 64);
    if !c.Value? { return None; }
    var d := ReadUleb128(s, c.next, 64);
    if !d.Value? { return None; }
    return Some(Header(a.v, b.v, c.v, d.v, d.next));
  }

  /** include/nanom/columnar.hpp:288-345. */
  method DeltaBinaryPacked(s: seq<byte>, out: array<int>, n: nat, w: Width) returns (r: Option<nat>)
    modifies out
    ensures r.Some? <==> n <= out.Length && Decode(s, n, w).Decoded?
    ensures r.Some? ==> Decode(s, n, w) == Decoded(out[..n], r.value)
    ensures forall j :: n <= j < out.Length ==> out[j] == old(out[j])
  {
    hide Wrap, ToSigned, Minis, Pow2, Written, SignedAll, ShapeOk, PerMini, ReadHeader, Read, ZigzagDecode, AllFit;
    if out.Length < n {
      return None;
    }
    var hd := OpenStream(s);
    if hd.None? || !ShapeOk(hd.value) || hd.value.total < n {
      return None;
    }
    var h := hd.value;
    if n == 0 {
      return Some(h.next);
    }
    var perMini := PerMini(h);
    var first := Wrap(ZigzagDecode(h.first, 64), w);
    out[0] := ToSigned(first, w);
    var at: nat, produced: nat, last: nat := h.next, 1, first;
    ghost var got := [first];
    ghost var goal := Blocks(s, h.next, h.minis, perMini, n - 1, first, w);
    WrittenFirst(out[..], first, w);
    while produced < n
      invariant produced == |got| <= n && at <= |s| && Written(out[..], got, w)
      invariant forall j :: n <= j < out.Length ==> out[j] == old(out[j])
      invariant Before([first], goal) == Before(got, Blocks(s, at, h.minis, perMini, n - produced, last, w))
    {
      var zz := ReadUleb128(s, at, 64);
      if !zz.Value? {
        return None;
      }
      var min := Wrap(ZigzagDecode(zz.v, 64), w);
      if |s| - zz.next < h.minis {
        return None;
      }
      var ok, at', produced', last';
      ghost var more;
      ok, at', produced', last', more := DecodeBlock(s, zz.next, h.minis, perMini, last, min, out, produced, n, w, got);
      if !ok {
        return None;
      }
      BeforeTwice(got, more, Blocks(s, at', h.minis, perMini, n - produced', last', w));
      got := got + more;
      at, produced, last := at', produced', last';
    }
    assert got + [] == got;
    assert out[..][..n] == out[..n];
    WrittenAll(out[..], got, w);
    return Some(at);
  }
}
