/** Writing the RLE / bit-packed hybrid: include/nanom/columnar_encode.hpp section 46, and the round
    trip through the decoder. */
module RleHybridEncode {
  import opened Bytes
  import opened Leb128
  import opened BitPacking
  import opened RleHybrid

  /** What the encoder writes: runs of at least 8 equal values, and whole groups of 8. */
  datatype Chunk = Rle(count: nat, value: nat) | Literal(values: seq<nat>)

  /** No span holds more elements. */
  const LIST_MAX := 0x7FFF_FFFF_FFFF_FFFF

  ghost predicate ChunkOk(c: Chunk, w: nat) {
    match c
    case Rle(count, value) => 8 <= count <= LIST_MAX && value < Pow2(w)
    case Literal(values) =>
      1 <= |values| <= LIST_MAX + 7 && |values| % 8 == 0 && AllFit(values, w) && (w == 0 ==> |values| <= RUN_CAP)
  }

  /** A run the decoder does not cut short. */
  predicate Whole(c: Chunk) {
    c.Rle? ==> c.count <= RUN_CAP
  }

  ghost predicate AllWhole(cs: seq<Chunk>) {
    forall i :: 0 <= i < |cs| ==> Whole(cs[i])
  }

  /** What the decoder gives for a chunk: it takes at most RUN_CAP values from an RLE run. */
  function Kept(c: Chunk): (vs: seq<nat>) {
    match c
    case Rle(count, value) => Repeat(value, Min(count, RUN_CAP))
    case Literal(values) => values
  }

  function AllKept(cs: seq<Chunk>): (vs: seq<nat>) {
    if |cs| == 0 then [] else Kept(cs[0]) + AllKept(cs[1..])
  }

  function ChunkValues(c: Chunk): (vs: seq<nat>) {
    match c
    case Rle(count, value) => Repeat(value, count)
    case Literal(values) => values
  }

  function ChunkBytes(c: Chunk, w: nat): (s: seq<byte>)
    ensures |s| >= 1
  {
    match c
    case Rle(count, value) => Uleb128(2 * count) + LeBytes(value, (w + 7) / 8)
    case Literal(values) => Uleb128(2 * (|values| / 8) + 1) + Packed(values, w)
  }

  ghost predicate ChunksOk(cs: seq<Chunk>, w: nat) {
    forall i :: 0 <= i < |cs| ==> ChunkOk(cs[i], w)
  }

  function ChunksValues(cs: seq<Chunk>): (vs: seq<nat>) {
    if |cs| == 0 then [] else ChunkValues(cs[0]) + ChunksValues(cs[1..])
  }

  function ChunksBytes(cs: seq<Chunk>, w: nat): (s: seq<byte>) {
    if |cs| == 0 then [] else ChunkBytes(cs[0], w) + ChunksBytes(cs[1..], w)
  }

  /** Nothing is lost exactly when no run is cut short. */
  lemma {:induction false} KeptIffWhole(cs: seq<Chunk>)
    ensures AllKept(cs) == ChunksValues(cs) <==> AllWhole(cs)
    ensures |AllKept(cs)| <= |ChunksValues(cs)| && (|AllKept(cs)| == |ChunksValues(cs)| ==> AllWhole(cs))
  {
    hide Repeat;
    if |cs| > 0 {
      KeptIffWhole(cs[1..]);
      assert AllWhole(cs) <==> Whole(cs[0]) && AllWhole(cs[1..]);
    }
  }

  lemma {:induction false} ValuesAppend(cs: seq<Chunk>, c: Chunk)
    ensures ChunksValues(cs + [c]) == ChunksValues(cs) + ChunkValues(c)
  {
    hide ChunkValues;
    if |cs| == 0 {
      assert cs + [c] == [c] && [c][1..] == [];
      assert ChunksValues([c]) == ChunkValues(c) + [];
    } else {
      assert (cs + [c])[1..] == cs[1..] + [c];
      ValuesAppend(cs[1..], c);
    }
  }

  lemma {:induction false} BytesAppend(cs: seq<Chunk>, c: Chunk, w: nat)
    ensures ChunksBytes(cs + [c], w) == ChunksBytes(cs, w) + ChunkBytes(c, w)
  {
    hide ChunkBytes;
    if |cs| == 0 {
      assert cs + [c] == [c] && [c][1..] == [];
      assert ChunksBytes([c], w) == ChunkBytes(c, w) + [];
    } else {
      assert (cs + [c])[1..] == cs[1..] + [c];
      BytesAppend(cs[1..], c, w);
    }
  }

  // ------------------------------------------------------------------
  // What is written decodes
  // ------------------------------------------------------------------

  lemma {:induction false} VarintAt(data: seq<byte>, p: nat, v: nat, body: seq<byte>)
    requires v < 0x1_0000_0000_0000_0000
    requires p + |Uleb128(v)| + |body| <= |data| && data[p..p + |Uleb128(v)| + |body|] == Uleb128(v) + body
    ensures Read(data, p, 64) == Value(v, p + |Uleb128(v)|)
    ensures data[p + |Uleb128(v)|..p + |Uleb128(v)| + |body|] == body
  {
    hide Uleb128, Pow2, Read;
    SliceConcat(data, p, Uleb128(v), body);
    Pow2Values();
    UlebRoundTrip(data, p, v, 64);
  }

  lemma {:induction false} HeadOfRle(data: seq<byte>, p: nat, count: nat, value: nat, w: nat)
    requires w <= 32 && count <= LIST_MAX && value < Pow2(w)
    requires p + |ChunkBytes(Rle(count, value), w)| <= |data|
    requires data[p..p + |ChunkBytes(Rle(count, value), w)|] == ChunkBytes(Rle(count, value), w)
    ensures NextHead(data, p, w) == RleRun(value, Min(count, RUN_CAP), p + |ChunkBytes(Rle(count, value), w)|)
  {
    hide LeNat, LeBytes, Pow2, Uleb128, Read, PackedHead;
    var vb := (w + 7) / 8;
    VarintAt(data, p, 2 * count, LeBytes(value, vb));
    Pow2Monotone(w, 8 * vb);
    LeNatLeBytes(value, vb);
  }

  lemma {:induction false} HeadOfLiteral(data: seq<byte>, p: nat, values: seq<nat>, w: nat)
    requires w <= 32 && ChunkOk(Literal(values), w)
    requires p + |ChunkBytes(Literal(values), w)| <= |data|
    requires data[p..p + |ChunkBytes(Literal(values), w)|] == ChunkBytes(Literal(values), w)
    ensures var start := p + |Uleb128(2 * (|values| / 8) + 1)|;
            && start + |Packed(values, w)| == p + |ChunkBytes(Literal(values), w)|
            && NextHead(data, p, w) == PackedRun(start, |Packed(values, w)|, |values|, start + |Packed(values, w)|)
            && RunFields(data, start, |Packed(values, w)|, w, 0, |values|) == values
  {
    hide LeNat, LeBytes, Pow2, Uleb128, Packed, PackedHead, RunFields, AllFit, NextHead, Read;
    var g := |values| / 8;
    var body := Packed(values, w);
    var start := p + |Uleb128(2 * g + 1)|;
    VarintAt(data, p, 2 * g + 1, body);
    PackedNext(data, p, g, start, w);
    GroupBytes(g, w, |values|);
    WholeGroups(data, start, g, w, |body|);
    PackRoundTrip(values, w, []);
    assert body + [] == body;
    FieldsOfPacked(data, start, body, w, values);
  }

  lemma {:induction false} PackedNext(data: seq<byte>, p: nat, g: nat, start: nat, w: nat)
    requires p < |data| && Read(data, p, 64) == Value(2 * g + 1, start)
    ensures NextHead(data, p, w) == PackedHead(data, start, g, w)
  {
    hide Read, PackedHead;
  }

  lemma {:induction false} GroupBytes(g: nat, w: nat, n: nat)
    requires n == 8 * g
    ensures CeilDiv8(n * w) == g * w
  {
    assert n * w == 8 * (g * w);
  }

  lemma {:induction false} WholeGroups(data: seq<byte>, start: nat, g: nat, w: nat, len: nat)
    requires len == g * w && start + len <= |data| && 8 * g <= LIST_MAX + 7 && (w == 0 ==> 8 * g <= RUN_CAP)
    ensures PackedHead(data, start, g, w) == PackedRun(start, len, 8 * g, start + len)
  {
    if w > 0 {
      WholeGroupsBy(g, w, len);
    }
  }

  lemma {:induction false} WholeGroupsBy(g: nat, w: nat, len: nat)
    requires w > 0 && len == g * w
    ensures g <= len && len * 8 / w == 8 * g
  {
    MulMono(1, w, g);
    assert len * 8 == (8 * g) * w;
    DivModUnique(len * 8, w, 8 * g, 0);
  }

  lemma {:induction false} FieldsOfPacked(data: seq<byte>, start: nat, body: seq<byte>, w: nat, values: seq<nat>)
    requires start + |body| <= |data| && data[start..start + |body|] == body
    requires Unpacked(body, w, |values|) == values
    ensures RunFields(data, start, |body|, w, 0, |values|) == values
  {
    hide Field;
    forall i | 0 <= i < |values| ensures RunFields(data, start, |body|, w, 0, |values|)[i] == values[i] {
      assert Unpacked(body, w, |values|)[i] == Field(body, w, i);
    }
  }

  lemma {:induction false} DecodeOfChunks(data: seq<byte>, p: nat, cs: seq<Chunk>, w: nat)
    requires w <= 32 && p <= |data| && ChunksOk(cs, w) && data[p..] == ChunksBytes(cs, w)
    ensures Decode(data, p, w) == Stream(AllKept(cs), false)
    decreases |cs|
  {
    hide ChunkBytes, NextHead, RunFields, Repeat, ChunkOk;
    if |cs| == 0 {
      assert NextHead(data, p, w) == End by { HeadAtEnd(data, p, w); }
    } else {
      var code := ChunkBytes(cs[0], w);
      assert data[p..|data|] == data[p..];
      SliceConcat(data, p, code, ChunksBytes(cs[1..], w));
      assert data[p + |code|..|data|] == data[p + |code|..];
      DecodeOfChunks(data, p + |code|, cs[1..], w);
      assert ChunkOk(cs[0], w);
      match cs[0]
      case Rle(count, value) =>
        RleFacts(count, value, w);
        HeadOfRle(data, p, count, value, w);
      case Literal(values) =>
        HeadOfLiteral(data, p, values, w);
    }
  }

  lemma {:induction false} HeadAtEnd(data: seq<byte>, p: nat, w: nat)
    requires p == |data|
    ensures NextHead(data, p, w) == End
  {
  }

  lemma {:induction false} RleFacts(count: nat, value: nat, w: nat)
    requires ChunkOk(Rle(count, value), w)
    ensures 8 <= count <= LIST_MAX && value < Pow2(w)
  {
  }

  // ------------------------------------------------------------------
  // The encoder
  // ------------------------------------------------------------------

  /** out holds the chunks cs, which spell values[..upTo]; if one is cut short, what is kept departs from values. */
  ghost predicate Written(values: seq<nat>, w: nat, out: seq<byte>, cs: seq<Chunk>, upTo: nat)
    requires upTo <= |values|
  {
    && ChunksOk(cs, w) && out == ChunksBytes(cs, w) && ChunksValues(cs) == values[..upTo]
    && (AllWhole(cs) || exists p :: Departs(values, AllKept(cs), upTo, p))
  }

  /** Kept values, then values[upTo], differ from values at p or end there. */
  ghost predicate Departs(values: seq<nat>, kept: seq<nat>, upTo: nat, p: nat)
    requires upTo <= |values|
  {
    && p < upTo && p <= |kept|
    && if p < |kept| then kept[p] != values[p] else upTo < |values| ==> values[upTo] != values[p]
  }

  lemma {:induction false} KeptAppend(cs: seq<Chunk>, c: Chunk)
    ensures AllKept(cs + [c]) == AllKept(cs) + Kept(c)
  {
    hide Kept;
    if |cs| == 0 {
      assert cs + [c] == [c] && [c][1..] == [];
      assert AllKept([c]) == Kept(c) + [];
    } else {
      assert (cs + [c])[1..] == cs[1..] + [c];
      KeptAppend(cs[1..], c);
    }
  }

  /** A departure stays when a chunk that begins with values[upTo] follows. */
  lemma {:induction false} StillDeparts(values: seq<nat>, kept: seq<nat>, upTo: nat, p: nat, more: seq<nat>, end: nat)
    requires upTo < |values| && upTo <= end <= |values| && Departs(values, kept, upTo, p)
    requires |more| > 0 && more[0] == values[upTo]
    ensures Departs(values, kept + more, end, p) && p < |kept + more|
  {
  }

  /** The first run that is cut short, ended by another value or by the list. */
  lemma {:induction false} CutDeparts(values: seq<nat>, kept: seq<nat>, upTo: nat, c: Chunk, end: nat)
    requires c.Rle? && !Whole(c) && upTo + c.count == end <= |values| && kept == values[..upTo]
    requires ChunkValues(c) == values[upTo..end] && (end < |values| ==> values[end] != c.value)
    ensures Departs(values, kept + Kept(c), end, upTo + RUN_CAP)
  {
    assert values[upTo + RUN_CAP] == values[upTo..end][RUN_CAP] == c.value;
  }

  lemma {:induction false} FirstKept(c: Chunk, w: nat)
    requires ChunkOk(c, w)
    ensures |Kept(c)| > 0 && |ChunkValues(c)| > 0 && Kept(c)[0] == ChunkValues(c)[0]
  {
  }

  lemma {:induction false} WriteMore(values: seq<nat>, w: nat, out: seq<byte>, cs: seq<Chunk>, upTo: nat, c: Chunk)
    requires upTo + |ChunkValues(c)| <= |values| && Written(values, w, out, cs, upTo) && ChunkOk(c, w)
    requires
      var end := upTo + |ChunkValues(c)|;
      ChunkValues(c) == values[upTo..end] && (c.Rle? && end < |values| ==> values[end] != c.value)
    ensures Written(values, w, out + ChunkBytes(c, w), cs + [c], upTo + |ChunkValues(c)|)
  {
    hide ChunkBytes, ChunkValues, ChunkOk, Kept, AllKept, AllWhole, Departs, Whole;
    ValuesAppend(cs, c);
    BytesAppend(cs, c, w);
    KeptAppend(cs, c);
    WholeMore(cs, c);
    FirstKept(c, w);
    var end := upTo + |ChunkValues(c)|;
    assert values[..end] == values[..upTo] + values[upTo..end];
    if !AllWhole(cs) {
      var p :| Departs(values, AllKept(cs), upTo, p);
      StillDeparts(values, AllKept(cs), upTo, p, Kept(c), end);
    } else if !Whole(c) {
      KeptIffWhole(cs);
      RunSize(c);
      CutDeparts(values, AllKept(cs), upTo, c, end);
    }
  }

  lemma {:induction false} RunSize(c: Chunk)
    requires !Whole(c)
    ensures c.Rle? && |ChunkValues(c)| == c.count
  {
  }

  method EncodeLiteral(values: seq<nat>, w: nat) returns (s: seq<byte>)
    requires w <= 32 && ChunkOk(Literal(values), w)
    ensures s == ChunkBytes(Literal(values), w)
  {
    var header := Uleb128Encode(2 * (|values| / 8) + 1);
    var body := PackBits(values, w);
    MaskedFits(values, w);
    s := header + body;
  }

  method EncodeRle(count: nat, value: nat, w: nat) returns (s: seq<byte>)
    ensures s == ChunkBytes(Rle(count, value), w)
  {
    var header := Uleb128Encode(2 * count);
    s := header + LeBytes(value, (w + 7) / 8);
  }

  method RunEnd(values: seq<nat>, i: nat) returns (j: nat)
    requires i < |values|
    ensures i < j <= |values| && forall k :: i <= k < j ==> values[k] == values[i]
    ensures j < |values| ==> values[j] != values[i]
  {
    j := i + 1;
    while j < |values| && values[j] == values[i]
      invariant i < j <= |values| && forall k :: i <= k < j ==> values[k] == values[i]
    {
      j := j + 1;
    }
  }

  function Zeros(n: nat): (z: seq<nat>)
    ensures |z| == n
  {
    seq(n, i => 0)
  }

  /** The length of the run of equal values at i. */
  function RunLength(values: seq<nat>, i: nat): (n: nat)
    requires i < |values|
    ensures 1 <= n <= |values| - i
    decreases |values| - i
  {
    if i + 1 < |values| && values[i + 1] == values[i] then 1 + RunLength(values, i + 1) else 1
  }

  lemma {:induction false} RunLengthIs(values: seq<nat>, i: nat, j: nat)
    requires i < j <= |values| && (forall k :: i <= k < j ==> values[k] == values[i])
    requires j < |values| ==> values[j] != values[i]
    ensures RunLength(values, i) == j - i
    decreases j - i
  {
    if i + 1 < j {
      RunLengthIs(values, i + 1, j);
    }
  }

  /** How many values of a run of n fill up the pending group. */
  function Stolen(n: nat, pending: nat): (k: nat)
    ensures k <= n && k < 8
  {
    if n >= 8 && pending % 8 != 0 then 8 - pending % 8 else 0
  }

  /** From i on, `pending` literal values waiting: no run, less what fills the pending group, is longer than the
      decoder takes from one RLE run. */
  ghost predicate RunsFit(values: seq<nat>, i: nat, pending: nat)
    requires i <= |values|
    decreases |values| - i
  {
    i < |values| ==>
      var n := RunLength(values, i);
      var rest := n - Stolen(n, pending);
      if n >= 8 && rest >= 8 then rest <= RUN_CAP && RunsFit(values, i + n, 0)
      else RunsFit(values, i + n, pending + n)
  }

  /** columnar_encode.hpp:89-137. Each literal chunk is whole groups, so only the last can hold padding: fewer than
      8 zeros. The stream decodes to the values and that padding exactly when no run is too long. */
  method Encode(values: seq<nat>, w: nat) returns (out: seq<byte>, ghost cs: seq<Chunk>)
    requires w <= 32 && AllFit(values, w) && |values| <= LIST_MAX
    ensures ChunksOk(cs, w) && out == ChunksBytes(cs, w)
    ensures exists pad :: 0 <= pad < 8 && ChunksValues(cs) == values + Zeros(pad)
    ensures Decode(out, 0, w) == Stream(AllKept(cs), false)
    ensures RunsFit(values, 0, 0) <==> values <= Decode(out, 0, w).values
    ensures RunsFit(values, 0, 0) ==> Decode(out, 0, w).values == ChunksValues(cs)
  {
    hide ChunkBytes, ChunkOk, ChunkValues, ChunksOk, AllFit, Decode, Written, RunsFit, AllWhole, AllKept, RunLength, Zeros;
    var n := |values|;
    out, cs := [], [];
    var litBegin: nat, litEnd: nat, i: nat := 0, 0, 0;
    WrittenNothing(values, w);
    NoneCut();
    while i < n
      invariant litBegin <= litEnd == i <= n
      invariant Written(values, w, out, cs, litBegin)
      invariant RunsFit(values, 0, 0) <==> AllWhole(cs) && RunsFit(values, i, litEnd - litBegin)
      invariant w == 0 ==> if i == 0 then litBegin == 0 else i == n && n - litBegin < 8
    {
      var j := RunEnd(values, i);
      RunLengthIs(values, i, j);
      RunsFitStep(values, i, litEnd - litBegin);
      if w == 0 {
        AllZero(values, i, j);
      }
      var run := j - i;
      if run >= 8 {
        var pending := litEnd - litBegin;
        if pending % 8 != 0 {
          var steal := 8 - pending % 8;
          litEnd := litEnd + steal;
          i := i + steal;
          run := run - steal;
        }
        if run >= 8 {
          out, cs := FlushRun(values, w, out, cs, litBegin, i, j);
          litBegin, litEnd := j, j;
        } else {
          litEnd := j;
        }
      } else {
        if litBegin == litEnd {
          litBegin := i;
        }
        litEnd := j;
      }
      i := j;
    }
    RunsFitEnd(values, litEnd - litBegin);
    out, cs := Finish(values, w, out, cs, litBegin);
    assert out[0..] == out;
    DecodeOfChunks(out, 0, cs, w);
    KeptIffWhole(cs);
  }

  /** The pending literal values, whole groups of them, and the run after them (columnar_encode.hpp:122-127). */
  method FlushRun(values: seq<nat>, w: nat, out: seq<byte>, ghost cs: seq<Chunk>, litBegin: nat, i: nat, j: nat)
    returns (out': seq<byte>, ghost cs': seq<Chunk>)
    requires w <= 32 && AllFit(values, w) && |values| <= LIST_MAX && litBegin <= i && i + 8 <= j <= |values|
    requires (i - litBegin) % 8 == 0 && (w == 0 ==> i == litBegin)
    requires Written(values, w, out, cs, litBegin) && forall k :: i <= k < j ==> values[k] == values[i]
    requires j < |values| ==> values[j] != values[i]
    ensures Written(values, w, out', cs', j) && (AllWhole(cs') <==> AllWhole(cs) && j - i <= RUN_CAP)
  {
    hide ChunkBytes, ChunkOk, ChunkValues, AllFit, Written, AllWhole;
    out', cs' := out, cs;
    if i > litBegin {
      LiteralOk(values, w, litBegin, i);
      var s := EncodeLiteral(values[litBegin..i], w);
      WriteMore(values, w, out, cs, litBegin, Literal(values[litBegin..i]));
      WholeMore(cs, Literal(values[litBegin..i]));
      out', cs' := out + s, cs + [Literal(values[litBegin..i])];
    }
    RleOk(values, w, i, j);
    var s := EncodeRle(j - i, values[i], w);
    WriteMore(values, w, out', cs', i, Rle(j - i, values[i]));
    WholeMore(cs', Rle(j - i, values[i]));
    out', cs' := out' + s, cs' + [Rle(j - i, values[i])];
  }

  lemma {:induction false} RunsFitStep(values: seq<nat>, i: nat, pending: nat)
    requires i < |values|
    ensures
      var n := RunLength(values, i);
      var rest := n - Stolen(n, pending);
      RunsFit(values, i, pending) <==>
      if n >= 8 && rest >= 8 then rest <= RUN_CAP && RunsFit(values, i + n, 0)
      else RunsFit(values, i + n, pending + n)
  {
  }

  lemma {:induction false} RunsFitEnd(values: seq<nat>, pending: nat)
    ensures RunsFit(values, |values|, pending)
  {
  }

  lemma {:induction false} NoneCut()
    ensures AllWhole([])
  {
  }

  lemma {:induction false} WholeMore(cs: seq<Chunk>, c: Chunk)
    ensures AllWhole(cs + [c]) <==> AllWhole(cs) && Whole(c)
  {
    assert (cs + [c])[|cs|] == c;
    assert forall i :: 0 <= i < |cs| ==> (cs + [c])[i] == cs[i];
  }

  /** Values of no bits are one run. */
  lemma {:induction false} AllZero(values: seq<nat>, i: nat, j: nat)
    requires AllFit(values, 0) && i < j <= |values| && (j < |values| ==> values[j] != values[i])
    ensures j == |values|
  {
  }

  /** columnar_encode.hpp:94-107 with last = true. */
  method Finish(values: seq<nat>, w: nat, out: seq<byte>, ghost cs: seq<Chunk>, litBegin: nat)
    returns (out': seq<byte>, ghost cs': seq<Chunk>)
    requires w <= 32 && AllFit(values, w) && |values| <= LIST_MAX && litBegin <= |values|
    requires Written(values, w, out, cs, litBegin) && (w == 0 ==> |values| - litBegin < 8)
    ensures ChunksOk(cs', w) && out' == ChunksBytes(cs', w) && (AllWhole(cs') <==> AllWhole(cs))
    ensures exists pad :: 0 <= pad < 8 && ChunksValues(cs') == values + Zeros(pad)
    ensures AllWhole(cs') || !(values <= AllKept(cs'))
  {
    hide ChunkBytes, ChunkOk, AllFit, AllWhole, Departs, AllKept;
    var count := |values| - litBegin;
    if count == 0 {
      assert values[..litBegin] == values == values + Zeros(0);
      if !AllWhole(cs) {
        ghost var p :| Departs(values, AllKept(cs), litBegin, p);
        DepartsEnd(values, AllKept(cs), p);
      }
      return out, cs;
    }
    var pad := (count + 7) / 8 * 8 - count;
    var last := values[litBegin..] + Zeros(pad);
    LastOk(values, w, litBegin, pad);
    var s := EncodeLiteral(last, w);
    ValuesAppend(cs, Literal(last));
    BytesAppend(cs, Literal(last), w);
    WholeMore(cs, Literal(last));
    KeptAppend(cs, Literal(last));
    if !AllWhole(cs) {
      ghost var p :| Departs(values, AllKept(cs), litBegin, p);
      StillDeparts(values, AllKept(cs), litBegin, p, last, |values|);
      DepartsEnd(values, AllKept(cs) + last, p);
    }
    out', cs' := out + s, cs + [Literal(last)];
    assert values[..litBegin] + last == values + Zeros(pad);
  }

  lemma {:induction false} DepartsEnd(values: seq<nat>, kept: seq<nat>, p: nat)
    requires Departs(values, kept, |values|, p)
    ensures !(values <= kept)
  {
  }

  /** Whatever is pending: lists without a run longer than RUN_CAP fit, and a run of RUN_CAP + 8 never does. */
  lemma {:induction false} ShortRunsFit(values: seq<nat>, i: nat, pending: nat)
    requires i <= |values| && forall k :: i <= k < |values| ==> RunLength(values, k) <= RUN_CAP
    ensures RunsFit(values, i, pending)
    decreases |values| - i
  {
    hide RunLength;
    if i < |values| {
      var n := RunLength(values, i);
      ShortRunsFit(values, i + n, 0);
      ShortRunsFit(values, i + n, pending + n);
    }
  }

  lemma {:induction false} LongRunCut(values: seq<nat>, i: nat, pending: nat, k: nat)
    requires i <= k < |values| && RunLength(values, k) >= RUN_CAP + 8
    ensures !RunsFit(values, i, pending)
    decreases |values| - i
  {
    var n := RunLength(values, i);
    RunLengthFrom(values, i, k);
    if k >= i + n {
      LongRunCut(values, i + n, 0, k);
      LongRunCut(values, i + n, pending + n, k);
    }
  }

  lemma {:induction false} RunLengthFrom(values: seq<nat>, i: nat, k: nat)
    requires i <= k < |values|
    ensures k < i + RunLength(values, i) ==> RunLength(values, k) <= RunLength(values, i)
    decreases k - i
  {
    if i < k && k < i + RunLength(values, i) {
      RunLengthFrom(values, i + 1, k);
    }
  }

  /** A list the round trip loses: one run of RUN_CAP + 1 zeros, written as one RLE run, of which the decoder gives
      RUN_CAP. */
  lemma {:induction false} OneRunTooLong()
    ensures AllFit(Zeros(RUN_CAP + 1), 1) && !RunsFit(Zeros(RUN_CAP + 1), 0, 0)
    ensures
      var got := Decode(ChunkBytes(Rle(RUN_CAP + 1, 0), 1), 0, 1);
      got == Stream(Zeros(RUN_CAP), false) && !(Zeros(RUN_CAP + 1) <= got.values)
  {
    hide RunLength, Decode, ChunkBytes;
    var values, c := Zeros(RUN_CAP + 1), Rle(RUN_CAP + 1, 0);
    RunLengthIs(values, 0, |values|);
    var out := ChunkBytes(c, 1);
    assert ChunkOk(c, 1) && ChunksOk([c], 1);
    assert out[0..] == out && ChunksBytes([c], 1) == out + ChunksBytes([c][1..], 1) == out;
    DecodeOfChunks(out, 0, [c], 1);
    assert AllKept([c]) == Kept(c) + AllKept([c][1..]) == Zeros(RUN_CAP);
  }

  lemma {:induction false} WrittenNothing(values: seq<nat>, w: nat)
    ensures Written(values, w, [], [], 0)
  {
  }

  lemma {:induction false} LiteralOk(values: seq<nat>, w: nat, a: nat, b: nat)
    requires AllFit(values, w) && a < b <= |values| <= LIST_MAX && (b - a) % 8 == 0 && w > 0
    ensures ChunkOk(Literal(values[a..b]), w) && ChunkValues(Literal(values[a..b])) == values[a..b]
  {
  }

  lemma {:induction false} RleOk(values: seq<nat>, w: nat, i: nat, j: nat)
    requires AllFit(values, w) && i + 8 <= j <= |values| <= LIST_MAX
    requires forall k :: i <= k < j ==> values[k] == values[i]
    ensures ChunkOk(Rle(j - i, values[i]), w) && ChunkValues(Rle(j - i, values[i])) == values[i..j]
  {
    assert Repeat(values[i], j - i) == values[i..j];
  }

  lemma {:induction false} LastOk(values: seq<nat>, w: nat, a: nat, pad: nat)
    requires AllFit(values, w) && a < |values| <= LIST_MAX && pad < 8 && (|values| - a + pad) % 8 == 0
    requires w == 0 ==> |values| - a < 8
    ensures ChunkOk(Literal(values[a..] + Zeros(pad)), w)
  {
    assert RUN_CAP % 8 == 0;
  }

  // ------------------------------------------------------------------
  // Any schedule of reads
  // ------------------------------------------------------------------

  datatype Request = Get(n: nat) | NextRun(n: nat) | Skip(n: nat)

  /** The values all[from..to] are the answer to one request: a batch or a skip advances as far as
      asked or to the end, a run is non-empty wherever one is asked for and left. */
  ghost predicate Served(q: Request, all: seq<nat>, from: nat, to: nat, answer: seq<nat>) {
    && from <= to <= |all|
    && match q
       case Get(n) => to == from + Min(n, |all| - from) && answer == all[from..to]
       case NextRun(n) => to <= from + n && answer == all[from..to] && (to == from <==> n == 0 || from == |all|)
       case Skip(n) => to == from + Min(n, |all| - from) && answer == []
  }

  /** Every request of a schedule, answered in turn from the position the one before it left. */
  ghost predicate AllServed(schedule: seq<Request>, all: seq<nat>, at: seq<nat>, answers: seq<seq<nat>>) {
    && |answers| == |schedule| && |at| == |schedule| + 1 && at[0] == 0
    && forall i :: 0 <= i < |schedule| ==> Served(schedule[i], all, at[i], at[i + 1], answers[i])
  }

  /** A reader that mixes batches, whole runs and skips in any way is answered with the stream's values, each at its
      place: the list and the zeros that fill the last group, unless a run is cut short. */
  method Follow(values: seq<nat>, w: nat, schedule: seq<Request>)
    returns (out: seq<byte>, at: seq<nat>, answers: seq<seq<nat>>)
    requires w <= 32 && AllFit(values, w) && |values| <= LIST_MAX
    ensures AllServed(schedule, Decode(out, 0, w).values, at, answers)
    ensures RunsFit(values, 0, 0) <==> values <= Decode(out, 0, w).values
    ensures RunsFit(values, 0, 0) ==> exists pad :: 0 <= pad < 8 && Decode(out, 0, w).values == values + Zeros(pad)
  {
    hide AllFit, ChunkBytes, ChunksOk, Decode, AllServed, RleBpDecoder.Remaining, RleBpDecoder.Bad, RleBpDecoder.Valid;
    ghost var cs;
    out, cs := Encode(values, w);
    var d := new RleBpDecoder(out, w);
    at, answers := ServeAll(d, schedule, d.Remaining());
  }

  method ServeAll(d: RleBpDecoder, schedule: seq<Request>, ghost all: seq<nat>)
    returns (at: seq<nat>, answers: seq<seq<nat>>)
    requires d.Valid() && d.Remaining() == all
    modifies d
    ensures AllServed(schedule, all, at, answers)
  {
    hide Served, AllServed, RleBpDecoder.Remaining, RleBpDecoder.Valid;
    assert all[0..] == all;
    at, answers := [0], [];
    NoneServed(all);
    for i := 0 to |schedule|
      invariant d.Valid() && AllServed(schedule[..i], all, at, answers) && |at| == i + 1
      invariant at[i] <= |all| && d.Remaining() == all[at[i]..]
    {
      var to, answer := Serve(d, schedule[i], at[i], all);
      MoreServed(schedule[..i], schedule[i], all, at, answers, to, answer);
      at, answers := at + [to], answers + [answer];
      assert schedule[..i + 1] == schedule[..i] + [schedule[i]];
    }
    assert schedule[..|schedule|] == schedule;
  }

  lemma {:induction false} NoneServed(all: seq<nat>)
    ensures AllServed([], all, [0], [])
  {
  }

  lemma {:induction false} MoreServed(schedule: seq<Request>, q: Request, all: seq<nat>, at: seq<nat>,
                                      answers: seq<seq<nat>>, to: nat, answer: seq<nat>)
    requires AllServed(schedule, all, at, answers) && Served(q, all, at[|schedule|], to, answer)
    ensures AllServed(schedule + [q], all, at + [to], answers + [answer])
  {
    hide Served;
  }

  /** One request. */
  method Serve(d: RleBpDecoder, q: Request, from: nat, ghost all: seq<nat>) returns (to: nat, answer: seq<nat>)
    requires d.Valid() && from <= |all| && d.Remaining() == all[from..]
    modifies d
    ensures d.Valid() && to <= |all| && Served(q, all, from, to, answer) && d.Remaining() == all[to..]
  {
    hide RunValues, RleBpDecoder.Remaining, RleBpDecoder.Bad, RleBpDecoder.Valid;
    to, answer := from, [];
    match q
    case Get(n) =>
      var buf := new nat[n];
      var k := d.Get(buf, 0, n);
      Piece(all, from, k);
      to, answer := from + k, buf[..k];
    case NextRun(n) =>
      var r := d.NextRun(n);
      if r.Some? {
        Piece(all, from, r.value.count);
        to, answer := from + r.value.count, RunValues(r.value, d.width);
      }
    case Skip(n) =>
      var k := d.Skip(n);
      Piece(all, from, k);
      to := from + k;
  }

  lemma {:induction false} Piece(all: seq<nat>, from: nat, k: nat)
    requires from + k <= |all|
    ensures all[from..][..k] == all[from..from + k] && all[from..][k..] == all[from + k..]
  {
  }
}
