/** The sliding-window pcapng parse: bench/streaming_pcapng_parse.hpp:84-196, with the block layout of
    include/nanom_shark/pcap.hpp. */
module Pcapng {
  import opened Bytes

  const SHB := 0x0A0D_0D0A
  const EPB := 6
  const BYTE_ORDER_MAGIC := 0x1A2B_3C4D

  /** The running totals; the checksum is folded with some mixing function of two words. */
  datatype Agg = Agg(packets: nat, sumCaplen: nat, sumOriglen: nat, opts: nat, checksum: nat)

  type Mix = (nat, nat) -> nat

  function Add64(a: nat, b: nat): nat {
    (a + b) % 0x1_0000_0000_0000_0000
  }

  function Pad4(n: nat): (r: nat)
    ensures r >= n
  {
    (n + 3) / 4 * 4
  }

  /** An unsigned field in the section's byte order. */
  function Uint(s: seq<byte>, at: nat, size: nat, little: bool): nat
    requires at + size <= |s|
  {
    if little then LeNat(s[at..at + size]) else BeNat(s[at..at + size])
  }

  // ------------------------------------------------------------------
  // One enhanced packet block
  // ------------------------------------------------------------------

  function MixBytes(h: nat, b: seq<byte>, mix: Mix): nat
    decreases |b|
  {
    if |b| == 0 then h else MixBytes(mix(h, b[0]), b[1..], mix)
  }

  /** The options from `at` on, up to `end` (streaming_pcapng_parse.hpp:171-191). */
  function Options(block: seq<byte>, at: nat, end: nat, little: bool, mix: Mix, a: Agg): Agg
    requires end <= |block|
    decreases end - at
  {
    if at + 4 > end then a
    else
      var code, olen := Uint(block, at, 2, little), Uint(block, at + 2, 2, little);
      if at + 4 + Pad4(olen) > end then a
      else
        var h := MixBytes(mix(mix(a.checksum, code), olen), block[at + 4..at + 4 + olen], mix);
        Options(block, at + 4 + Pad4(olen), end, little, mix, a.(checksum := h, opts := Add64(a.opts, 1)))
  }

  function EpbAgg(block: seq<byte>, little: bool, mix: Mix, a: Agg): Agg
    requires |block| >= 12
  {
    if |block| - 8 < 20 then a
    else
      var high, low := Uint(block, 12, 4, little), Uint(block, 16, 4, little);
      var caplen, origlen := Uint(block, 20, 4, little), Uint(block, 24, 4, little);
      var h := mix(mix(mix(a.checksum, high * 0x1_0000_0000 + low), caplen), origlen);
      var a' := Agg(Add64(a.packets, 1), Add64(a.sumCaplen, caplen), Add64(a.sumOriglen, origlen), a.opts, h);
      Options(block, 28 + Pad4(caplen), |block| - 4, little, mix, a')
  }

  // ------------------------------------------------------------------
  // The parse without a window
  // ------------------------------------------------------------------

  /** The block at the head of `rest`: too short to tell, or its kind, length and the section's byte order. */
  datatype Head = Short | Head(kind: nat, total: nat, little: bool)

  function HeadOf(rest: seq<byte>, little: bool): Head {
    if |rest| < 8 then Short
    else if Uint(rest, 0, 4, little) == SHB then
      if |rest| < 12 then Short
      else
        var order := LeNat(rest[8..12]) == BYTE_ORDER_MAGIC;
        Head(Uint(rest, 0, 4, order), Uint(rest, 4, 4, order), order)
    else Head(Uint(rest, 0, 4, little), Uint(rest, 4, 4, little), little)
  }

  predicate LengthOk(total: nat) {
    total >= 12 && total % 4 == 0
  }

  /** The whole parse from byte q on, up to a block that is incomplete, ill-formed or longer than cap; no
      complete block is longer than |data|. */
  function Parse(data: seq<byte>, q: nat, little: bool, mix: Mix, a: Agg, cap: nat): Agg
    requires q <= |data|
    decreases |data| - q
  {
    match HeadOf(data[q..], little)
    case Short => a
    case Head(kind, total, order) =>
      if !LengthOk(total) || total > |data| - q || total > cap then a
      else
        Parse(data, q + total, order, mix, if kind == EPB then EpbAgg(data[q..q + total], order, mix, a) else a, cap)
  }

  /** Where that parse stops. */
  function StopAt(data: seq<byte>, q: nat, little: bool, cap: nat): (end: nat)
    requires q <= |data|
    ensures q <= end <= |data|
    decreases |data| - q
  {
    match HeadOf(data[q..], little)
    case Short => q
    case Head(kind, total, order) =>
      if !LengthOk(total) || total > |data| - q || total > cap then q else StopAt(data, q + total, order, cap)
  }

  /** Every complete block from byte q on fits in cap bytes. */
  predicate CapHolds(data: seq<byte>, q: nat, little: bool, cap: nat)
    requires q <= |data|
    decreases |data| - q
  {
    match HeadOf(data[q..], little)
    case Short => true
    case Head(kind, total, order) =>
      LengthOk(total) && total <= |data| - q ==> total <= cap && CapHolds(data, q + total, order, cap)
  }

  /** A cap that holds every complete block gives the totals of no cap at all; any other stops short. */
  lemma {:induction false} CapEnough(data: seq<byte>, q: nat, little: bool, mix: Mix, a: Agg, cap: nat)
    requires q <= |data|
    ensures CapHolds(data, q, little, cap) ==>
              Parse(data, q, little, mix, a, cap) == Parse(data, q, little, mix, a, |data|)
    ensures CapHolds(data, q, little, cap) <==> StopAt(data, q, little, cap) == StopAt(data, q, little, |data|)
    decreases |data| - q
  {
    hide HeadOf, EpbAgg;
    match HeadOf(data[q..], little)
    case Short =>
    case Head(kind, total, order) =>
      if LengthOk(total) && total <= |data| - q {
        var a' := if kind == EPB then EpbAgg(data[q..q + total], order, mix, a) else a;
        CapEnough(data, q + total, order, mix, a', cap);
      }
  }

  /** The section header's type reads the same in both byte orders. */
  lemma {:induction false} ShbPalindrome(b: seq<byte>)
    requires |b| == 4
    ensures LeNat(b) == SHB <==> BeNat(b) == SHB
  {
    LeFour(b);
    BeFour(b);
    assert LeNat(b) == SHB <==> b[0] == 0x0A && b[1] == 0x0D && b[2] == 0x0D && b[3] == 0x0A;
  }

  lemma {:induction false} LeFour(b: seq<byte>)
    requires |b| == 4
    ensures LeNat(b) == b[0] + 0x100 * b[1] as int + 0x1_0000 * b[2] as int + 0x100_0000 * b[3] as int
  {
    var b1 := b[1..];
    var b2 := b1[1..];
    var b3 := b2[1..];
    assert b3[1..] == [];
    assert LeNat(b3) == b3[0];
    assert LeNat(b2) == b2[0] + 256 * LeNat(b3);
    assert LeNat(b1) == b1[0] + 256 * LeNat(b2);
  }

  lemma {:induction false} BeFour(b: seq<byte>)
    requires |b| == 4
    ensures BeNat(b) == b[3] + 0x100 * b[2] as int + 0x1_0000 * b[1] as int + 0x100_0000 * b[0] as int
  {
    var b1 := b[..3];
    var b2 := b1[..2];
    var b3 := b2[..1];
    assert b3[..0] == [];
    assert BeNat(b3) == b3[0];
    assert BeNat(b2) == 256 * BeNat(b3) + b2[1];
    assert BeNat(b1) == 256 * BeNat(b2) + b1[2];
  }

  /** A head once read reads the same with the byte order it settled. */
  lemma {:induction false} HeadSettled(rest: seq<byte>, little: bool)
    requires HeadOf(rest, little).Head?
    ensures HeadOf(rest, HeadOf(rest, little).little) == HeadOf(rest, little)
  {
    ShbPalindrome(rest[0..4]);
  }

  /** A prefix long enough to show the head shows the same head. */
  lemma {:induction false} HeadOfPrefix(w: seq<byte>, rest: seq<byte>, little: bool)
    requires w <= rest
    ensures HeadOf(w, little).Head? ==> HeadOf(rest, little) == HeadOf(w, little)
    ensures |w| >= 12 ==> HeadOf(w, little).Head?
  {
    hide LeNat, BeNat;
    if |w| >= 8 {
      assert w[0..4] == rest[0..4] && w[4..8] == rest[4..8];
      if |w| >= 12 {
        assert w[8..12] == rest[8..12];
      }
    }
  }

  // ------------------------------------------------------------------
  // The window
  // ------------------------------------------------------------------

  /** buf[pos..have] holds the source bytes just before src. */
  ghost predicate Window(buf: seq<byte>, pos: nat, have: nat, data: seq<byte>, src: nat) {
    && pos <= have <= |buf| && src <= |data| && have - pos <= src
    && buf[pos..have] == data[src - (have - pos)..src]
  }

  /** refill: the unparsed bytes move to the front and as many more as fit follow. */
  method Refill(buf: array<byte>, pos: nat, have: nat, data: seq<byte>, src: nat)
    returns (more: bool, have': nat, src': nat)
    requires Window(buf[..], pos, have, data, src)
    modifies buf
    ensures Window(buf[..], 0, have', data, src') && src' - have' == src - (have - pos)
    ensures more <==> src' > src
    ensures !more ==> src == |data| || have - pos == buf.Length
  {
    ghost var before := buf[..];
    var left := have - pos;
    if pos > 0 {
      MoveDown(buf, pos, left);
    }
    assert buf[..left] == before[pos..have];
    var n := Min(buf.Length - left, |data| - src);
    more, have', src' := n > 0, left + n, src + n;
    CopyIn(buf, left, data[src..src + n]);
    WindowGrown(buf[..], before, pos, have, data, src, n);
  }

  method CopyIn(buf: array<byte>, at: nat, bytes: seq<byte>)
    requires at + |bytes| <= buf.Length
    modifies buf
    ensures buf[..at] == old(buf[..at]) && buf[at..at + |bytes|] == bytes
  {
    for i := 0 to |bytes|
      invariant buf[..at] == old(buf[..at]) && buf[at..at + i] == bytes[..i]
    {
      buf[at + i] := bytes[i];
    }
  }

  method MoveDown(buf: array<byte>, pos: nat, n: nat)
    requires pos + n <= buf.Length
    modifies buf
    ensures buf[..n] == old(buf[pos..pos + n])
  {
    for i := 0 to n
      invariant forall j :: 0 <= j < i ==> buf[j] == old(buf[pos + j])
      invariant forall j :: i <= j < buf.Length ==> buf[j] == old(buf[j])
    {
      buf[i] := buf[pos + i];
    }
  }

  lemma {:induction false} WindowGrown(buf: seq<byte>, before: seq<byte>, pos: nat, have: nat, data: seq<byte>,
                                       src: nat, n: nat)
    requires Window(before, pos, have, data, src) && src + n <= |data| && have - pos + n <= |buf|
    requires buf[..have - pos] == before[pos..have]
    requires buf[have - pos..have - pos + n] == data[src..src + n]
    ensures Window(buf, 0, have - pos + n, data, src + n)
  {
    var left, q := have - pos, src - (have - pos);
    assert buf[0..left + n] == buf[..left] + buf[left..left + n];
    assert data[q..src + n] == data[q..src] + data[src..src + n];
  }

  // ------------------------------------------------------------------
  // The loops
  // ------------------------------------------------------------------

  method MixInto(h: nat, b: seq<byte>, mix: Mix) returns (r: nat)
    ensures r == MixBytes(h, b, mix)
  {
    r := h;
    assert b[0..] == b;
    for k := 0 to |b|
      invariant MixBytes(r, b[k..], mix) == MixBytes(h, b, mix)
    {
      assert b[k..][1..] == b[k + 1..];
      r := mix(r, b[k]);
    }
  }

  method CountEpb(block: seq<byte>, little: bool, mix: Mix, a: Agg) returns (r: Agg)
    requires |block| >= 12
    ensures r == EpbAgg(block, little, mix, a)
  {
    hide Uint, Add64, MixBytes, Options, Pad4;
    if |block| - 8 < 20 {
      return a;
    }
    var high, low := Uint(block, 12, 4, little), Uint(block, 16, 4, little);
    var caplen, origlen := Uint(block, 20, 4, little), Uint(block, 24, 4, little);
    var h := mix(mix(mix(a.checksum, high * 0x1_0000_0000 + low), caplen), origlen);
    r := Agg(Add64(a.packets, 1), Add64(a.sumCaplen, caplen), Add64(a.sumOriglen, origlen), a.opts, h);
    var at, end := 28 + Pad4(caplen), |block| - 4;
    while at + 4 <= end
      invariant Options(block, at, end, little, mix, r) == EpbAgg(block, little, mix, a)
      decreases end - at
    {
      OptionsStep(block, at, end, little, mix, r);
      var code, olen := Uint(block, at, 2, little), Uint(block, at + 2, 2, little);
      if at + 4 + Pad4(olen) > end {
        return;
      }
      var sum := MixInto(mix(mix(r.checksum, code), olen), block[at + 4..at + 4 + olen], mix);
      r := r.(checksum := sum, opts := Add64(r.opts, 1));
      at := at + 4 + Pad4(olen);
    }
    OptionsEnd(block, at, end, little, mix, r);
  }

  lemma {:induction false} OptionsStep(block: seq<byte>, at: nat, end: nat, little: bool, mix: Mix, a: Agg)
    requires at + 4 <= end <= |block|
    ensures
      var code, olen := Uint(block, at, 2, little), Uint(block, at + 2, 2, little);
      Options(block, at, end, little, mix, a) ==
      if at + 4 + Pad4(olen) > end then a
      else
        Options(block, at + 4 + Pad4(olen), end, little, mix,
                a.(checksum := MixBytes(mix(mix(a.checksum, code), olen), block[at + 4..at + 4 + olen], mix),
                   opts := Add64(a.opts, 1)))
  {
    hide Uint, Add64, MixBytes, Pad4;
  }

  lemma {:induction false} OptionsEnd(block: seq<byte>, at: nat, end: nat, little: bool, mix: Mix, a: Agg)
    requires end <= |block| && at + 4 > end
    ensures Options(block, at, end, little, mix, a) == a
  {
  }

  /** The bytes left to parse begin with the window. */
  lemma {:induction false} WindowIsPrefix(buf: seq<byte>, pos: nat, have: nat, data: seq<byte>, src: nat)
    requires Window(buf, pos, have, data, src)
    ensures buf[pos..have] <= data[src - (have - pos)..]
    ensures src == |data| ==> buf[pos..have] == data[src - (have - pos)..]
  {
    var q := src - (have - pos);
    assert data[q..][..have - pos] == data[q..src];
  }

  /** streaming_pcapng_parse::parse: for every input and window size, what a reader of the whole input computes
      that gives up at a block longer than the window. */
  method ParseWindowed(data: seq<byte>, cap: nat, mix: Mix, start: Agg) returns (a: Agg, ghost end: nat)
    ensures a == Parse(data, 0, true, mix, start, cap) && end == StopAt(data, 0, true, cap)
  {
    hide HeadOf, EpbAgg, Window, Parse, StopAt, LengthOk;
    a, end := start, 0;
    if cap == 0 {
      TooSmall(data, 0, true, mix, a, cap);
      return;
    }
    var buf := new byte[cap];
    var src: nat, pos: nat, have: nat, little := 0, 0, 0, true;
    WindowEmpty(buf[..], data);
    while true
      invariant buf.Length == cap && Window(buf[..], pos, have, data, src) && fresh(buf)
      invariant 0 <= pos <= have <= cap && have - pos <= src <= |data| && end == src - (have - pos)
      invariant Parse(data, end, little, mix, a, cap) == Parse(data, 0, true, mix, start, cap)
      invariant StopAt(data, end, little, cap) == StopAt(data, 0, true, cap)
      decreases |data| - end, |data| - src
    {
      var w := buf[pos..have];
      WindowIsPrefix(buf[..], pos, have, data, src);
      assert buf[..][pos..have] == w;
      HeadOfPrefix(w, data[end..], little);
      var head := HeadOf(w, little);
      ParseStep(data, end, little, mix, a, cap);
      if head.Short? {
        var more, have', src' := Refill(buf, pos, have, data, src);
        WindowBounds(buf[..], 0, have', data, src');
        if !more {
          if cap < 12 {
            TooSmall(data, end, little, mix, a, cap);
          }
          return;
        }
        pos, have, src := 0, have', src';
        continue;
      }
      HeadSettled(data[end..], little);
      SameFromHere(data, end, little, head.little, mix, a, cap);
      ParseStep(data, end, head.little, mix, a, cap);
      little := head.little;
      if !LengthOk(head.total) {
        return;
      }
      if head.total > cap {
        return;
      }
      if head.total > have - pos {
        var more, have', src' := Refill(buf, pos, have, data, src);
        WindowBounds(buf[..], 0, have', data, src');
        if !more {
          return;
        }
        pos, have, src := 0, have', src';
        continue;
      }
      if head.kind == EPB {
        BlockIs(buf[..], pos, have, data, src, head.total);
        assert buf[..][pos..pos + head.total] == buf[pos..pos + head.total];
        a := CountEpb(buf[pos..pos + head.total], little, mix, a);
      }
      WindowAdvance(buf[..], pos, have, data, src, head.total);
      pos := pos + head.total;
      end := end + head.total;
    }
  }

  /** The window does not show: two sizes that hold every complete block give the same totals. */
  lemma {:induction false} WindowDoesNotShow(data: seq<byte>, mix: Mix, start: Agg, cap: nat, cap': nat)
    requires CapHolds(data, 0, true, cap) && CapHolds(data, 0, true, cap')
    ensures Parse(data, 0, true, mix, start, cap) == Parse(data, 0, true, mix, start, cap')
  {
    CapEnough(data, 0, true, mix, start, cap);
    CapEnough(data, 0, true, mix, start, cap');
  }

  /** One step of the parse. */
  lemma {:induction false} ParseStep(data: seq<byte>, q: nat, little: bool, mix: Mix, a: Agg, cap: nat)
    requires q <= |data|
    ensures
      match HeadOf(data[q..], little)
      case Short => Parse(data, q, little, mix, a, cap) == a && StopAt(data, q, little, cap) == q
      case Head(kind, total, order) =>
        if !LengthOk(total) || total > |data| - q || total > cap then
          Parse(data, q, little, mix, a, cap) == a && StopAt(data, q, little, cap) == q
        else
          && total > 0 && StopAt(data, q, little, cap) == StopAt(data, q + total, order, cap)
          && |data[q..q + total]| >= 12
          && Parse(data, q, little, mix, a, cap) ==
             Parse(data, q + total, order, mix, if kind == EPB then EpbAgg(data[q..q + total], order, mix, a) else a, cap)
  {
    hide HeadOf, EpbAgg;
  }

  /** No block is shorter than 12 bytes. */
  lemma {:induction false} TooSmall(data: seq<byte>, q: nat, little: bool, mix: Mix, a: Agg, cap: nat)
    requires q <= |data| && cap < 12
    ensures Parse(data, q, little, mix, a, cap) == a && StopAt(data, q, little, cap) == q
  {
    hide HeadOf, EpbAgg;
  }

  lemma {:induction false} WindowEmpty(buf: seq<byte>, data: seq<byte>)
    ensures Window(buf, 0, 0, data, 0)
  {
  }

  lemma {:induction false} WindowBounds(buf: seq<byte>, pos: nat, have: nat, data: seq<byte>, src: nat)
    requires Window(buf, pos, have, data, src)
    ensures pos <= have <= |buf| && have - pos <= src <= |data|
  {
  }

  lemma {:induction false} WindowAdvance(buf: seq<byte>, pos: nat, have: nat, data: seq<byte>, src: nat, n: nat)
    requires Window(buf, pos, have, data, src) && n <= have - pos
    ensures Window(buf, pos + n, have, data, src)
  {
    var q := src - (have - pos);
    DropMore(buf, pos, have, n);
    DropMore(data, q, src, n);
  }

  lemma {:induction false} DropMore(s: seq<byte>, a: nat, b: nat, n: nat)
    requires a + n <= b <= |s|
    ensures s[a + n..b] == s[a..b][n..]
  {
  }

  lemma {:induction false} TakeFirst(s: seq<byte>, a: nat, b: nat, n: nat)
    requires a + n <= b <= |s|
    ensures s[a..b][..n] == s[a..a + n]
  {
  }

  lemma {:induction false} BlockIs(buf: seq<byte>, pos: nat, have: nat, data: seq<byte>, src: nat, n: nat)
    requires Window(buf, pos, have, data, src) && n <= have - pos
    ensures
      var q := src - (have - pos);
      buf[pos..pos + n] == data[q..q + n]
  {
    var q := src - (have - pos);
    TakeFirst(buf, pos, have, n);
    TakeFirst(data, q, src, n);
  }

  /** The parse from here does not change when the byte order the head settles is already in force. */
  lemma {:induction false} SameFromHere(data: seq<byte>, q: nat, little: bool, order: bool, mix: Mix, a: Agg, cap: nat)
    requires q <= |data| && HeadOf(data[q..], order) == HeadOf(data[q..], little)
    ensures Parse(data, q, order, mix, a, cap) == Parse(data, q, little, mix, a, cap)
    ensures StopAt(data, q, order, cap) == StopAt(data, q, little, cap)
  {
    hide HeadOf, EpbAgg;
  }
}
