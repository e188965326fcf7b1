/** The pcapng blocks as a grammar of its own, in either byte order, and the totals of a whole file told from its
    blocks: include/nanom_shark/pcap.hpp:34-56, bench/streaming_pcapng_parse.hpp:109-196. */
module PcapngFormat {
  import opened Bytes
  import opened Pcapng

  // ------------------------------------------------------------------
  // The format
  // ------------------------------------------------------------------

  /** An option's value is padded to four bytes. */
  datatype Opt = Opt(code: nat, value: seq<byte>, pad: seq<byte>)

  /** A section header sets the byte order of the blocks after it. A packet has its captured bytes, padded, its options
      and perhaps bytes that make no option; an overrun one declares more than its block holds. */
  datatype Block =
    | Section(little: bool, rest: seq<byte>)
    | Packet(iface: nat, ts: nat, data: seq<byte>, pad: seq<byte>, origlen: nat, opts: seq<Opt>, tail: seq<byte>)
    | Overrun(iface: nat, ts: nat, caplen: nat, origlen: nat, rest: seq<byte>)
    | Other(kind: nat, body: seq<byte>)

  const U32 := 0x1_0000_0000

  function Word(x: nat, little: bool): (s: seq<byte>)
    ensures |s| == 4
  {
    if little then LeBytes(x, 4) else BeBytes(x, 4)
  }

  function Half(x: nat, little: bool): (s: seq<byte>)
    ensures |s| == 2
  {
    if little then LeBytes(x, 2) else BeBytes(x, 2)
  }

  predicate Padded(bytes: seq<byte>, pad: seq<byte>) {
    |pad| < 4 && (|bytes| + |pad|) % 4 == 0
  }

  predicate OptOk(o: Opt) {
    o.code < 0x1_0000 && |o.value| < 0x1_0000 && Padded(o.value, o.pad)
  }

  /** No whole option starts here. */
  predicate NoOption(tail: seq<byte>, little: bool) {
    |tail| < 4 || 4 + Pad4(Uint(tail, 2, 2, little)) > |tail|
  }

  predicate BlockOk(b: Block, little: bool) {
    match b
    case Section(_, rest) => |rest| % 4 == 0 && |rest| + 16 < U32
    case Packet(iface, ts, data, pad, origlen, opts, tail) =>
      && iface < U32 && ts < U32 * U32 && origlen < U32 && Padded(data, pad)
      && (forall i :: 0 <= i < |opts| ==> OptOk(opts[i])) && |tail| % 4 == 0 && NoOption(tail, little)
      && |Body(b, little)| + 12 < U32
    case Overrun(iface, ts, caplen, origlen, rest) =>
      && iface < U32 && ts < U32 * U32 && caplen < U32 && origlen < U32
      && |rest| % 4 == 0 && |rest| + 32 < U32 && Pad4(caplen) + 4 > |rest|
    case Other(kind, body) =>
      kind < U32 && kind != SHB && |body| % 4 == 0 && |body| + 12 < U32 && (kind == EPB ==> |body| < 16)
  }

  function OptBytes(o: Opt, little: bool): (s: seq<byte>) {
    Half(o.code, little) + (Half(|o.value|, little) + (o.value + o.pad))
  }

  function OptsBytes(opts: seq<Opt>, little: bool): (s: seq<byte>) {
    if |opts| == 0 then [] else OptBytes(opts[0], little) + OptsBytes(opts[1..], little)
  }

  function Fixed(iface: nat, ts: nat, caplen: nat, origlen: nat, little: bool): (s: seq<byte>)
    ensures |s| == 20
  {
    Word(iface, little) +
    (Word(ts / U32, little) + (Word(ts % U32, little) + (Word(caplen, little) + Word(origlen, little))))
  }

  /** Between the type and length in front and the length at the end. */
  function Body(b: Block, little: bool): (s: seq<byte>) {
    match b
    case Section(order, rest) => Word(BYTE_ORDER_MAGIC, order) + rest
    case Packet(iface, ts, data, pad, origlen, opts, tail) =>
      Fixed(iface, ts, |data|, origlen, little) + (data + pad + (OptsBytes(opts, little) + tail))
    case Overrun(iface, ts, caplen, origlen, rest) => Fixed(iface, ts, caplen, origlen, little) + rest
    case Other(_, body) => body
  }

  function Kind(b: Block): nat {
    match b
    case Section(_, _) => SHB
    case Other(kind, _) => kind
    case _ => EPB
  }

  /** The byte order from this block on. */
  function Order(b: Block, little: bool): bool {
    if b.Section? then b.little else little
  }

  function BlockBytes(b: Block, little: bool): (s: seq<byte>) {
    var order, body := Order(b, little), Body(b, Order(b, little));
    Word(Kind(b), order) + (Word(|body| + 12, order) + (body + Word(|body| + 12, order)))
  }

  predicate FileOk(bs: seq<Block>, little: bool) {
    |bs| > 0 ==> BlockOk(bs[0], Order(bs[0], little)) && FileOk(bs[1..], Order(bs[0], little))
  }

  function FileBytes(bs: seq<Block>, little: bool): (s: seq<byte>) {
    if |bs| == 0 then [] else BlockBytes(bs[0], little) + FileBytes(bs[1..], Order(bs[0], little))
  }

  function LastOrder(bs: seq<Block>, little: bool): bool {
    if |bs| == 0 then little else LastOrder(bs[1..], Order(bs[0], little))
  }

  // ------------------------------------------------------------------
  // The totals of a file
  // ------------------------------------------------------------------

  predicate IsPacket(b: Block) {
    b.Packet? || b.Overrun?
  }

  function Captured(b: Block): nat {
    match b
    case Packet(_, _, data, _, _, _, _) => |data|
    case Overrun(_, _, caplen, _, _) => caplen
    case _ => 0
  }

  function Original(b: Block): nat {
    if IsPacket(b) then b.origlen else 0
  }

  function OptionsOf(b: Block): nat {
    if b.Packet? then |b.opts| else 0
  }

  function Packets(bs: seq<Block>): nat {
    if |bs| == 0 then 0 else (if IsPacket(bs[0]) then 1 else 0) + Packets(bs[1..])
  }

  function CapturedIn(bs: seq<Block>): nat {
    if |bs| == 0 then 0 else Captured(bs[0]) + CapturedIn(bs[1..])
  }

  function OriginalIn(bs: seq<Block>): nat {
    if |bs| == 0 then 0 else Original(bs[0]) + OriginalIn(bs[1..])
  }

  function OptionsIn(bs: seq<Block>): nat {
    if |bs| == 0 then 0 else OptionsOf(bs[0]) + OptionsIn(bs[1..])
  }

  function ByteWords(b: seq<byte>): (ws: seq<nat>)
    ensures |ws| == |b|
  {
    seq(|b|, i requires 0 <= i < |b| => b[i] as nat)
  }

  /** The words the checksum takes from an option: its code, its length, its bytes. */
  function OptWords(o: Opt): seq<nat> {
    [o.code, |o.value|] + ByteWords(o.value)
  }

  function OptsWords(opts: seq<Opt>): seq<nat> {
    if |opts| == 0 then [] else OptWords(opts[0]) + OptsWords(opts[1..])
  }

  /** From a packet: its time, its two lengths, its options. */
  function Words(b: Block): seq<nat> {
    if b.Packet? then [b.ts, |b.data|, b.origlen] + OptsWords(b.opts)
    else if b.Overrun? then [b.ts, b.caplen, b.origlen]
    else []
  }

  function WordsIn(bs: seq<Block>): seq<nat> {
    if |bs| == 0 then [] else Words(bs[0]) + WordsIn(bs[1..])
  }

  function MixAll(h: nat, ws: seq<nat>, mix: Mix): nat
    decreases |ws|
  {
    if |ws| == 0 then h else MixAll(mix(h, ws[0]), ws[1..], mix)
  }

  /** The totals after the blocks: 64-bit sums, and the words folded in order. */
  function Total(bs: seq<Block>, mix: Mix, a: Agg): Agg {
    Agg(Add64(a.packets, Packets(bs)), Add64(a.sumCaplen, CapturedIn(bs)), Add64(a.sumOriglen, OriginalIn(bs)),
        Add64(a.opts, OptionsIn(bs)), MixAll(a.checksum, WordsIn(bs), mix))
  }

  predicate AggOk(a: Agg) {
    a.packets < U32 * U32 && a.sumCaplen < U32 * U32 && a.sumOriglen < U32 * U32 && a.opts < U32 * U32
  }

  lemma {:induction false} AddTwice(a: nat, b: nat, c: nat)
    ensures Add64(Add64(a, b), c) == Add64(a, b + c)
  {
  }

  lemma {:induction false} MixConcat(h: nat, a: seq<nat>, b: seq<nat>, mix: Mix)
    ensures MixAll(h, a + b, mix) == MixAll(MixAll(h, a, mix), b, mix)
    decreases |a|
  {
    if |a| == 0 {
      assert a + b == b;
    } else {
      assert (a + b)[1..] == a[1..] + b;
      MixConcat(mix(h, a[0]), a[1..], b, mix);
    }
  }

  lemma {:induction false} MixBytesWords(h: nat, b: seq<byte>, mix: Mix)
    ensures MixBytes(h, b, mix) == MixAll(h, ByteWords(b), mix)
    decreases |b|
  {
    if |b| > 0 {
      assert ByteWords(b)[1..] == ByteWords(b[1..]);
      MixBytesWords(mix(h, b[0]), b[1..], mix);
    }
  }

  lemma {:induction false} TotalNext(bs: seq<Block>, mix: Mix, a: Agg)
    requires |bs| > 0
    ensures Total(bs[1..], mix, Total([bs[0]], mix, a)) == Total(bs, mix, a)
  {
    hide Add64, MixAll, Words, Captured, Original, OptionsOf;
    var one, rest := [bs[0]], bs[1..];
    assert one[1..] == [];
    assert WordsIn(bs) == WordsIn(one) + WordsIn(rest);
    assert Packets(bs) == Packets(one) + Packets(rest);
    assert CapturedIn(bs) == CapturedIn(one) + CapturedIn(rest);
    assert OriginalIn(bs) == OriginalIn(one) + OriginalIn(rest);
    assert OptionsIn(bs) == OptionsIn(one) + OptionsIn(rest);
    AddTwice(a.packets, Packets(one), Packets(rest));
    AddTwice(a.sumCaplen, CapturedIn(one), CapturedIn(rest));
    AddTwice(a.sumOriglen, OriginalIn(one), OriginalIn(rest));
    AddTwice(a.opts, OptionsIn(one), OptionsIn(rest));
    MixConcat(a.checksum, WordsIn(one), WordsIn(rest), mix);
  }

  // ------------------------------------------------------------------
  // Reading the fields back
  // ------------------------------------------------------------------

  lemma {:induction false} WordBack(s: seq<byte>, p: nat, x: nat, little: bool)
    requires At(s, p, Word(x, little)) && x < U32
    ensures p + 4 <= |s| && Uint(s, p, 4, little) == x
  {
    hide LeNat, BeNat, LeBytes, BeBytes;
    assert Pow2(8 * 4) == U32 by { Pow2Values(); }
    LeNatLeBytes(x, 4);
    BeNatBeBytes(x, 4);
  }

  lemma {:induction false} HalfBack(s: seq<byte>, p: nat, x: nat, little: bool)
    requires At(s, p, Half(x, little)) && x < 0x1_0000
    ensures p + 2 <= |s| && Uint(s, p, 2, little) == x
  {
    hide LeNat, BeNat, LeBytes, BeBytes;
    assert Pow2(8 * 2) == 0x1_0000 by { Pow2Values(); }
    LeNatLeBytes(x, 2);
    BeNatBeBytes(x, 2);
  }

  lemma {:induction false} PaddedIs(bytes: seq<byte>, pad: seq<byte>)
    requires Padded(bytes, pad)
    ensures |bytes| + |pad| == Pad4(|bytes|)
  {
  }

  /** One option. */
  lemma {:induction false} OptionBack(block: seq<byte>, at: nat, end: nat, little: bool, mix: Mix, a: Agg, o: Opt)
    requires OptOk(o) && At(block, at, OptBytes(o, little)) && at + |OptBytes(o, little)| <= end <= |block|
    ensures Pcapng.Options(block, at, end, little, mix, a) ==
            Pcapng.Options(block, at + |OptBytes(o, little)|, end, little, mix,
                           a.(checksum := MixAll(a.checksum, OptWords(o), mix), opts := Add64(a.opts, 1)))
  {
    hide At, Half, Uint, Add64, MixBytes, Pcapng.Options, Pad4, MixAll;
    AtConcat(block, at, Half(o.code, little), Half(|o.value|, little) + (o.value + o.pad));
    AtConcat(block, at + 2, Half(|o.value|, little), o.value + o.pad);
    AtConcat(block, at + 4, o.value, o.pad);
    AtSlice(block, at + 4, o.value);
    HalfBack(block, at, o.code, little);
    HalfBack(block, at + 2, |o.value|, little);
    PaddedIs(o.value, o.pad);
    OptionsStep(block, at, end, little, mix, a);
    MixBytesWords(mix(mix(a.checksum, o.code), |o.value|), o.value, mix);
    MixTwo(a.checksum, o.code, |o.value|, ByteWords(o.value), mix);
  }

  lemma {:induction false} MixTwo(h: nat, x: nat, y: nat, ws: seq<nat>, mix: Mix)
    ensures MixAll(h, [x, y] + ws, mix) == MixAll(mix(mix(h, x), y), ws, mix)
  {
    MixConcat(h, [x, y], ws, mix);
    assert [x, y][1..] == [y] && [y][1..] == [];
  }

  lemma {:induction false} OptionsBack(block: seq<byte>, at: nat, end: nat, little: bool, mix: Mix, a: Agg,
                                       opts: seq<Opt>, tail: seq<byte>)
    requires (forall i :: 0 <= i < |opts| ==> OptOk(opts[i])) && NoOption(tail, little) && a.opts < U32 * U32
    requires At(block, at, OptsBytes(opts, little) + tail) && end <= |block|
    requires at + |OptsBytes(opts, little) + tail| == end
    ensures Pcapng.Options(block, at, end, little, mix, a) ==
            a.(checksum := MixAll(a.checksum, OptsWords(opts), mix), opts := Add64(a.opts, |opts|))
    decreases |opts|
  {
    hide At, OptBytes, Pcapng.Options, NoOption, OptWords, OptOk, Add64;
    if |opts| == 0 {
      assert OptsBytes(opts, little) + tail == tail;
      TailBack(block, at, end, little, mix, a, tail);
      assert Add64(a.opts, 0) == a.opts by { AddNone(a.opts); }
    } else {
      var first, rest := OptBytes(opts[0], little), OptsBytes(opts[1..], little) + tail;
      assert OptsBytes(opts, little) + tail == first + rest;
      AtConcat(block, at, first, rest);
      OptionBack(block, at, end, little, mix, a, opts[0]);
      var a' := a.(checksum := MixAll(a.checksum, OptWords(opts[0]), mix), opts := Add64(a.opts, 1));
      AddBelow(a.opts, 1);
      OptionsBack(block, at + |first|, end, little, mix, a', opts[1..], tail);
      MixConcat(a.checksum, OptWords(opts[0]), OptsWords(opts[1..]), mix);
      AddTwice(a.opts, 1, |opts| - 1);
    }
  }

  lemma {:induction false} AddNone(x: nat)
    requires x < U32 * U32
    ensures Add64(x, 0) == x
  {
  }

  lemma {:induction false} AddBelow(x: nat, y: nat)
    ensures Add64(x, y) < U32 * U32
  {
  }

  lemma {:induction false} Inside(s: seq<byte>, p: nat, x: seq<byte>)
    requires At(s, p, x) && |x| >= 4
    ensures s[p + 2..p + 4] == x[2..4]
  {
    assert x[2] == s[p + 2] && x[3] == s[p + 3];
  }

  /** Bytes that make no option end the options. */
  lemma {:induction false} TailBack(block: seq<byte>, at: nat, end: nat, little: bool, mix: Mix, a: Agg,
                                    tail: seq<byte>)
    requires NoOption(tail, little) && At(block, at, tail) && at + |tail| == end <= |block|
    ensures Pcapng.Options(block, at, end, little, mix, a) == a
  {
    hide Add64, MixBytes, Pcapng.Options, Pad4;
    if |tail| < 4 {
      OptionsEnd(block, at, end, little, mix, a);
    } else {
      Inside(block, at, tail);
      OptionsStep(block, at, end, little, mix, a);
    }
  }

  // ------------------------------------------------------------------
  // Block by block
  // ------------------------------------------------------------------

  /** The parts of a block, at their places. */
  lemma {:induction false} Framed(s: seq<byte>, b: Block, little: bool)
    requires s == BlockBytes(b, little) && BlockOk(b, Order(b, little))
    ensures
      var order, body := Order(b, little), Body(b, Order(b, little));
      && |s| == |body| + 12 < U32 && |s| % 4 == 0
      && At(s, 0, Word(Kind(b), order)) && Uint(s, 0, 4, order) == Kind(b)
      && Uint(s, 4, 4, order) == |s| && At(s, 8, body)
  {
    hide At, Word, Uint, Body, BlockOk;
    var order, body := Order(b, little), Body(b, Order(b, little));
    BodySize(b, order);
    var n := Word(|body| + 12, order);
    AtWhole(s);
    AtConcat(s, 0, Word(Kind(b), order), n + (body + n));
    AtConcat(s, 4, n, body + n);
    AtConcat(s, 8, body, n);
    WordBack(s, 0, Kind(b), order);
    WordBack(s, 4, |body| + 12, order);
  }

  lemma {:induction false} AtWhole(s: seq<byte>)
    ensures At(s, 0, s)
  {
  }

  lemma {:induction false} BodySize(b: Block, order: bool)
    requires BlockOk(b, order)
    ensures |Body(b, order)| + 12 < U32 && |Body(b, order)| % 4 == 0 && Kind(b) < U32
  {
    hide OptOk, NoOption, Fixed;
    if b.Packet? {
      OptsSize(b.opts, order);
    }
  }

  lemma {:induction false} OptsSize(opts: seq<Opt>, little: bool)
    requires forall i :: 0 <= i < |opts| ==> OptOk(opts[i])
    ensures |OptsBytes(opts, little)| % 4 == 0
    decreases |opts|
  {
    if |opts| > 0 {
      OptsSize(opts[1..], little);
    }
  }

  /** The head of a block, under whatever byte order was in force. */
  lemma {:induction false} HeadBack(s: seq<byte>, b: Block, little: bool)
    requires s == BlockBytes(b, little) && BlockOk(b, Order(b, little))
    ensures HeadOf(s, little) == Head(Kind(b), |s|, Order(b, little)) && LengthOk(|s|)
  {
    hide BlockOk, Body, BlockBytes, At;
    Framed(s, b, little);
    if b.Section? {
      ShbPalindrome(s[0..4]);
      MagicBack(s, b);
    } else {
      assert Kind(b) != SHB by { NotSection(b, little); }
    }
  }

  lemma {:induction false} NotSection(b: Block, little: bool)
    requires BlockOk(b, little) && !b.Section?
    ensures Kind(b) != SHB
  {
  }

  lemma {:induction false} MagicBack(s: seq<byte>, b: Block)
    requires b.Section? && At(s, 8, Body(b, b.little))
    ensures |s| >= 12 && (LeNat(s[8..12]) == BYTE_ORDER_MAGIC <==> b.little)
  {
    hide At, LeNat, BeNat, LeBytes, BeBytes;
    AtConcat(s, 8, Word(BYTE_ORDER_MAGIC, b.little), b.rest);
    AtSlice(s, 8, Word(BYTE_ORDER_MAGIC, b.little));
    assert Pow2(8 * 4) == U32 by { Pow2Values(); }
    LeNatLeBytes(BYTE_ORDER_MAGIC, 4);
    if !b.little {
      BeNatBeBytes(BYTE_ORDER_MAGIC, 4);
      LeFour(s[8..12]);
      BeFour(s[8..12]);
    }
  }

  /** The fixed part of a packet block's body. */
  lemma {:induction false} FixedBack(s: seq<byte>, iface: nat, ts: nat, caplen: nat, origlen: nat, little: bool)
    requires ts < U32 * U32 && caplen < U32 && origlen < U32 && At(s, 8, Fixed(iface, ts, caplen, origlen, little))
    ensures |s| >= 28 && Uint(s, 12, 4, little) * 0x1_0000_0000 + Uint(s, 16, 4, little) == ts
    ensures Uint(s, 20, 4, little) == caplen && Uint(s, 24, 4, little) == origlen
  {
    hide At, Word, Uint;
    var high, low := Word(ts / U32, little), Word(ts % U32, little);
    var cap, orig := Word(caplen, little), Word(origlen, little);
    AtConcat(s, 8, Word(iface, little), high + (low + (cap + orig)));
    AtConcat(s, 12, high, low + (cap + orig));
    AtConcat(s, 16, low, cap + orig);
    AtConcat(s, 20, cap, orig);
    WordBack(s, 12, ts / U32, little);
    WordBack(s, 16, ts % U32, little);
    WordBack(s, 20, caplen, little);
    WordBack(s, 24, origlen, little);
  }

  /** What a packet's fixed fields add. */
  function Counted(ts: nat, caplen: nat, origlen: nat, mix: Mix, a: Agg): Agg {
    Agg(Add64(a.packets, 1), Add64(a.sumCaplen, caplen), Add64(a.sumOriglen, origlen), a.opts,
        mix(mix(mix(a.checksum, ts), caplen), origlen))
  }

  lemma {:induction false} EpbIs(s: seq<byte>, ts: nat, caplen: nat, origlen: nat, little: bool, mix: Mix, a: Agg)
    requires |s| >= 28 && Uint(s, 12, 4, little) * 0x1_0000_0000 + Uint(s, 16, 4, little) == ts
    requires Uint(s, 20, 4, little) == caplen && Uint(s, 24, 4, little) == origlen
    ensures EpbAgg(s, little, mix, a) ==
            Pcapng.Options(s, 28 + Pad4(caplen), |s| - 4, little, mix, Counted(ts, caplen, origlen, mix, a))
  {
    hide Uint, Pcapng.Options, Pad4, Add64;
  }

  lemma {:induction false} MixThree(h: nat, x: nat, y: nat, z: nat, ws: seq<nat>, mix: Mix)
    ensures MixAll(h, [x, y, z] + ws, mix) == MixAll(mix(mix(mix(h, x), y), z), ws, mix)
  {
    assert [x, y, z] + ws == [x] + ([y, z] + ws);
    MixConcat(h, [x], [y, z] + ws, mix);
    assert [x][1..] == [];
    MixTwo(mix(h, x), y, z, ws, mix);
  }

  lemma {:induction false} PacketBack(s: seq<byte>, b: Block, little: bool, mix: Mix, a: Agg)
    requires b.Packet? && BlockOk(b, little) && AggOk(a) && |s| == |Body(b, little)| + 12 && At(s, 8, Body(b, little))
    ensures EpbAgg(s, little, mix, a) == Total([b], mix, a)
  {
    hide At, Fixed, Uint, EpbAgg, OptsBytes, NoOption, OptOk, Pad4, MixAll, Add64, OptsWords;
    var fixed := Fixed(b.iface, b.ts, |b.data|, b.origlen, little);
    var bytes, opts := b.data + b.pad, OptsBytes(b.opts, little) + b.tail;
    AtConcat(s, 8, fixed, bytes + opts);
    AtConcat(s, 28, bytes, opts);
    FixedBack(s, b.iface, b.ts, |b.data|, b.origlen, little);
    EpbIs(s, b.ts, |b.data|, b.origlen, little, mix, a);
    PaddedIs(b.data, b.pad);
    var a' := Counted(b.ts, |b.data|, b.origlen, mix, a);
    OptionsBack(s, 28 + Pad4(|b.data|), |s| - 4, little, mix, a', b.opts, b.tail);
    MixThree(a.checksum, b.ts, |b.data|, b.origlen, OptsWords(b.opts), mix);
    TotalOne(b, mix, a);
  }

  lemma {:induction false} TotalOne(b: Block, mix: Mix, a: Agg)
    ensures Total([b], mix, a) ==
            Agg(Add64(a.packets, if IsPacket(b) then 1 else 0), Add64(a.sumCaplen, Captured(b)),
                Add64(a.sumOriglen, Original(b)), Add64(a.opts, OptionsOf(b)), MixAll(a.checksum, Words(b), mix))
  {
    hide Add64, MixAll, Words, Captured, Original, OptionsOf;
    var one := [b];
    assert one[1..] == [];
    assert WordsIn(one) == Words(b);
    assert Packets(one) == if IsPacket(b) then 1 else 0;
    assert CapturedIn(one) == Captured(b);
    assert OriginalIn(one) == Original(b);
    assert OptionsIn(one) == OptionsOf(b);
  }

  lemma {:induction false} OverrunBack(s: seq<byte>, b: Block, little: bool, mix: Mix, a: Agg)
    requires b.Overrun? && BlockOk(b, little) && AggOk(a) && |s| == |Body(b, little)| + 12 && At(s, 8, Body(b, little))
    ensures EpbAgg(s, little, mix, a) == Total([b], mix, a)
  {
    hide At, Fixed, Uint, EpbAgg, Pad4, MixAll, Add64, Pcapng.Options;
    var fixed := Fixed(b.iface, b.ts, b.caplen, b.origlen, little);
    AtConcat(s, 8, fixed, b.rest);
    FixedBack(s, b.iface, b.ts, b.caplen, b.origlen, little);
    EpbIs(s, b.ts, b.caplen, b.origlen, little, mix, a);
    OptionsEnd(s, 28 + Pad4(b.caplen), |s| - 4, little, mix, Counted(b.ts, b.caplen, b.origlen, mix, a));
    MixThree(a.checksum, b.ts, b.caplen, b.origlen, [], mix);
    assert [b.ts, b.caplen, b.origlen] + [] == [b.ts, b.caplen, b.origlen];
    MixNone(mix(mix(mix(a.checksum, b.ts), b.caplen), b.origlen), mix);
    AddNone(a.opts);
    TotalOne(b, mix, a);
  }

  lemma {:induction false} MixNone(h: nat, mix: Mix)
    ensures MixAll(h, [], mix) == h
  {
  }

  lemma {:induction false} OtherBack(s: seq<byte>, b: Block, little: bool, mix: Mix, a: Agg)
    requires !IsPacket(b) && BlockOk(b, little) && AggOk(a) && |s| == |Body(b, little)| + 12
    ensures (if Kind(b) == EPB then EpbAgg(s, little, mix, a) else a) == Total([b], mix, a)
  {
    hide MixAll, Add64;
    AddNone(a.packets);
    AddNone(a.sumCaplen);
    AddNone(a.sumOriglen);
    AddNone(a.opts);
    MixNone(a.checksum, mix);
    TotalOne(b, mix, a);
  }

  lemma {:induction false} TotalBelow(bs: seq<Block>, mix: Mix, a: Agg)
    ensures AggOk(Total(bs, mix, a))
  {
    hide MixAll, Packets, CapturedIn, OriginalIn, OptionsIn, WordsIn;
  }

  ghost predicate Fit(bs: seq<Block>, little: bool, cap: nat) {
    |bs| > 0 ==> |BlockBytes(bs[0], little)| <= cap && Fit(bs[1..], Order(bs[0], little), cap)
  }

  /** One block of a file, whatever follows it. */
  lemma {:induction false} BlockBack(data: seq<byte>, q: nat, b: Block, little: bool, mix: Mix, a: Agg, cap: nat)
    requires At(data, q, BlockBytes(b, little)) && BlockOk(b, Order(b, little)) && AggOk(a)
    requires |BlockBytes(b, little)| <= cap
    ensures
      var next := q + |BlockBytes(b, little)|;
      && next <= |data|
      && Parse(data, q, little, mix, a, cap) == Parse(data, next, Order(b, little), mix, Total([b], mix, a), cap)
      && StopAt(data, q, little, cap) == StopAt(data, next, Order(b, little), cap)
  {
    hide HeadOf, EpbAgg, BlockBytes, BlockOk, Body, Total, Parse, StopAt, LengthOk, AggOk;
    var s, order := BlockBytes(b, little), Order(b, little);
    Framed(s, b, little);
    HeadBack(s, b, little);
    assert s <= data[q..];
    HeadOfPrefix(s, data[q..], little);
    ParseStep(data, q, little, mix, a, cap);
    if b.Packet? {
      PacketBack(s, b, order, mix, a);
    } else if b.Overrun? {
      OverrunBack(s, b, order, mix, a);
    } else {
      OtherBack(s, b, order, mix, a);
    }
  }

  /** A file of any blocks in any byte orders, and whatever follows it. */
  lemma {:induction false} FileBack(data: seq<byte>, q: nat, bs: seq<Block>, little: bool, mix: Mix, a: Agg, cap: nat)
    requires At(data, q, FileBytes(bs, little)) && FileOk(bs, little) && AggOk(a) && Fit(bs, little, cap)
    ensures
      var next, order := q + |FileBytes(bs, little)|, LastOrder(bs, little);
      && next <= |data|
      && Parse(data, q, little, mix, a, cap) == Parse(data, next, order, mix, Total(bs, mix, a), cap)
      && StopAt(data, q, little, cap) == StopAt(data, next, order, cap)
    decreases |bs|
  {
    hide At, BlockBytes, BlockOk, Total, Parse, StopAt, AggOk, Order;
    AtSlice(data, q, FileBytes(bs, little));
    if |bs| == 0 {
      assert Total(bs, mix, a) == a by { TotalNone(mix, a); }
    } else {
      var first := BlockBytes(bs[0], little);
      AtConcat(data, q, first, FileBytes(bs[1..], Order(bs[0], little)));
      BlockBack(data, q, bs[0], little, mix, a, cap);
      TotalBelow([bs[0]], mix, a);
      FileBack(data, q + |first|, bs[1..], Order(bs[0], little), mix, Total([bs[0]], mix, a), cap);
      TotalNext(bs, mix, a);
    }
  }

  lemma {:induction false} TotalNone(mix: Mix, a: Agg)
    requires AggOk(a)
    ensures Total([], mix, a) == a
  {
    AddNone(a.packets);
    AddNone(a.sumCaplen);
    AddNone(a.sumOriglen);
    AddNone(a.opts);
  }

  /** Parsing a file whose blocks fit the window counts its packets, adds up their captured and original lengths, counts
      their options, and folds those fields and the option bytes into the checksum, to the end of the file. */
  lemma {:induction false} ParsesFile(bs: seq<Block>, mix: Mix, h: nat, cap: nat)
    requires FileOk(bs, true) && Fit(bs, true, cap)
    ensures
      var r := Parse(FileBytes(bs, true), 0, true, mix, Agg(0, 0, 0, 0, h), cap);
      && r.packets == Packets(bs) % (U32 * U32)
      && r.sumCaplen == CapturedIn(bs) % (U32 * U32) && r.sumOriglen == OriginalIn(bs) % (U32 * U32)
      && r.opts == OptionsIn(bs) % (U32 * U32)
      && r.checksum == MixAll(h, WordsIn(bs), mix)
    ensures StopAt(FileBytes(bs, true), 0, true, cap) == |FileBytes(bs, true)|
  {
    hide FileBytes, FileOk, Fit, Parse, StopAt, MixAll, WordsIn, Packets, CapturedIn, OriginalIn, OptionsIn;
    var data, a := FileBytes(bs, true), Agg(0, 0, 0, 0, h);
    AtWhole(data);
    FileBack(data, 0, bs, true, mix, a, cap);
    NothingLeft(data, LastOrder(bs, true), mix, Total(bs, mix, a), cap);
  }

  lemma {:induction false} NothingLeft(data: seq<byte>, little: bool, mix: Mix, a: Agg, cap: nat)
    ensures Parse(data, |data|, little, mix, a, cap) == a && StopAt(data, |data|, little, cap) == |data|
  {
  }
}
