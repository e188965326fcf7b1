/** DELTA_LENGTH_BYTE_ARRAY and DELTA_BYTE_ARRAY: include/nanom/values.hpp section 38 and
    include/nanom/columnar_encode.hpp section 48. */
module DeltaStrings {
  import opened Bytes
  import opened DeltaPacked
  import opened DeltaPackedEncode

  const INT32_MAX := 0x7FFF_FFFF

  type Text = seq<byte>

  /** The kernel_fail messages of the two decoders. */
  datatype Fault = OutputTooSmall | MalformedStream | OutOfRange | TooLarge

  datatype Strings =
    | Failed(fault: Fault)
    | Texts(values: seq<Text>)

  function Cons(v: Text, r: Strings): Strings {
    if r.Failed? then r else Texts([v] + r.values)
  }

  // ------------------------------------------------------------------
  // DELTA_LENGTH_BYTE_ARRAY
  // ------------------------------------------------------------------

  /** Consecutive slices of s from p on, of the given lengths. */
  function Slices(s: seq<byte>, p: nat, ls: seq<int>): (r: Strings)
    requires p <= |s|
    ensures r.Texts? ==> |r.values| == |ls|
    decreases |ls|
  {
    if |ls| == 0 then Texts([])
    else if ls[0] < 0 || ls[0] > |s| - p then Failed(OutOfRange)
    else Cons(s[p..p + ls[0]], Slices(s, p + ls[0], ls[1..]))
  }

  function LengthTexts(s: seq<byte>, n: nat): (r: Strings)
    ensures r.Texts? ==> |r.values| == n
  {
    match Decode(s, n, 32)
    case Malformed => Failed(MalformedStream)
    case Decoded(ls, used) => Slices(s, used, ls)
  }

  /** A view into some buffer: where it starts and how long it is. */
  datatype View = View(at: nat, len: nat)

  ghost predicate Shows(buf: seq<byte>, views: seq<View>, texts: seq<Text>) {
    && |views| == |texts|
    && forall i :: 0 <= i < |views| ==> views[i].at + views[i].len <= |buf| && buf[views[i].at..views[i].at + views[i].len] == texts[i]
  }

  ghost predicate Agrees(st: Option<Fault>, r: Strings) {
    if r.Failed? then st == Some(r.fault) else st == None
  }

  /** include/nanom/values.hpp:444-458. */
  method DeltaLengthViews(s: seq<byte>, n: nat, out: array<View>) returns (st: Option<Fault>)
    modifies out
    ensures out.Length < n ==> st == Some(OutputTooSmall)
    ensures out.Length >= n ==> Agrees(st, LengthTexts(s, n))
    ensures st == None ==> Shows(s, out[..n], LengthTexts(s, n).values)
    ensures forall j :: n <= j < out.Length ==> out[j] == old(out[j])
  {
    hide Decode, Slices;
    if out.Length < n {
      return Some(OutputTooSmall);
    }
    var lengths := new int[n];
    var used := DeltaBinaryPacked(s, lengths, n, 32);
    if used.None? {
      return Some(MalformedStream);
    }
    var ls := lengths[..];
    assert lengths[..n] == ls;
    var p: nat := used.value;
    ghost var got: seq<Text> := [];
    assert ls[0..] == ls;
    for i := 0 to n
      invariant p <= |s| && |got| == i
      invariant Joined(got, Slices(s, p, ls[i..])) == Slices(s, used.value, ls)
      invariant Shows(s, out[..i], got)
      invariant forall j :: n <= j < out.Length ==> out[j] == old(out[j])
    {
      SlicesStep(s, p, ls, i, got);
      if ls[i] < 0 || ls[i] > |s| - p {
        return Some(OutOfRange);
      }
      out[i] := View(p, ls[i]);
      got := got + [s[p..p + ls[i]]];
      p := p + ls[i];
    }
    SlicesDone(s, p, ls[n..], got);
    st := None;
  }

  function Joined(got: seq<Text>, r: Strings): Strings {
    if r.Failed? then r else Texts(got + r.values)
  }

  lemma {:induction false} SlicesStep(s: seq<byte>, p: nat, ls: seq<int>, i: nat, got: seq<Text>)
    requires p <= |s| && i < |ls|
    ensures
      if ls[i] < 0 || ls[i] > |s| - p then Slices(s, p, ls[i..]) == Failed(OutOfRange)
      else Joined(got, Slices(s, p, ls[i..])) ==
           Joined(got + [s[p..p + ls[i]]], Slices(s, p + ls[i], ls[i + 1..]))
  {
    assert ls[i..][1..] == ls[i + 1..];
    if 0 <= ls[i] <= |s| - p {
      var r := Slices(s, p + ls[i], ls[i + 1..]);
      if r.Texts? {
        assert got + ([s[p..p + ls[i]]] + r.values) == got + [s[p..p + ls[i]]] + r.values;
      }
    }
  }

  lemma {:induction false} SlicesDone(s: seq<byte>, p: nat, ls: seq<int>, got: seq<Text>)
    requires p <= |s| && |ls| == 0
    ensures Joined(got, Slices(s, p, ls)) == Texts(got)
  {
    assert got + [] == got;
  }

  ghost predicate AllShort(values: seq<Text>) {
    forall i :: 0 <= i < |values| ==> |values[i]| <= INT32_MAX
  }

  function Lengths(values: seq<Text>): (ls: seq<int>)
    ensures |ls| == |values|
  {
    seq(|values|, i requires 0 <= i < |values| => |values[i]|)
  }

  lemma {:induction false} LengthsSigned(values: seq<Text>)
    requires AllShort(values)
    ensures AllSigned(Lengths(values), 32)
  {
    Pow2Values();
    assert Pow2(32) == 2 * Pow2(31);
  }

  function LengthBytes(values: seq<Text>): (s: seq<byte>)
    requires AllShort(values)
  {
    LengthsSigned(values);
    StreamBytes(Lengths(values), 32) + Flat(values)
  }

  /** include/nanom/columnar_encode.hpp:263-278. */
  method DeltaLengthEncode(values: seq<Text>, out: seq<byte>) returns (ok: bool, out': seq<byte>)
    ensures ok <==> AllShort(values)
    ensures out' == if AllShort(values) then out + LengthBytes(values) else out
  {
    hide StreamBytes, AllSigned;
    var lengths: seq<int> := [];
    for i := 0 to |values|
      invariant lengths == Lengths(values)[..i]
      invariant forall k :: 0 <= k < i ==> |values[k]| <= INT32_MAX
    {
      if |values[i]| > INT32_MAX {
        return false, out;
      }
      lengths := lengths + [|values[i]|];
    }
    LengthsSigned(values);
    assert lengths == Lengths(values);
    out' := DeltaBinaryPackedEncode(lengths, 32, out);
    ghost var start := out';
    assert start + Flat(values) == out + LengthBytes(values);
    assert values[0..] == values;
    for i := 0 to |values|
      invariant out' + Flat(values[i..]) == start + Flat(values)
    {
      assert values[i..][1..] == values[i + 1..];
      assert out' + (values[i] + Flat(values[i + 1..])) == out' + values[i] + Flat(values[i + 1..]);
      out' := out' + values[i];
    }
    ok := true;
  }

  lemma {:induction false} SlicesUndo(s: seq<byte>, p: nat, values: seq<Text>)
    requires At(s, p, Flat(values))
    ensures Slices(s, p, Lengths(values)) == Texts(values)
    decreases |values|
  {
    if |values| > 0 {
      AtConcat(s, p, values[0], Flat(values[1..]));
      SlicesUndo(s, p + |values[0]|, values[1..]);
      assert Lengths(values)[1..] == Lengths(values[1..]);
      assert [values[0]] + values[1..] == values;
    }
  }

  /** Every list the encoder accepts comes back, whatever follows it on the page. */
  lemma {:induction false} LengthRoundTrip(values: seq<Text>, suffix: seq<byte>)
    requires AllShort(values) && |values| <= SIZE_MAX
    ensures LengthTexts(LengthBytes(values) + suffix, |values|) == Texts(values)
  {
    hide StreamBytes, Decode, Slices, Flat, AllSigned;
    var ls := Lengths(values);
    LengthsSigned(values);
    var head := StreamBytes(ls, 32);
    var s := LengthBytes(values) + suffix;
    assert s == head + (Flat(values) + suffix);
    DeltaRoundTrip(ls, Flat(values) + suffix, |values|, 32);
    assert ls[..|values|] == ls;
    assert At(s, |head|, Flat(values));
    SlicesUndo(s, |head|, values);
  }

  // ------------------------------------------------------------------
  // DELTA_BYTE_ARRAY
  // ------------------------------------------------------------------

  /** Texts i, i+1, ... rebuilt one from another: `prev` is text i - 1, `total` the size of all before i. */
  function Rebuild(rest: seq<byte>, p: nat, pre: seq<int>, suf: seq<int>, i: nat, prev: Text, total: nat, max: nat)
    : (r: Strings)
    requires p <= |rest| && |pre| == |suf| && i <= |pre|
    ensures r.Texts? ==> |r.values| == |pre| - i
    decreases |pre| - i
  {
    if i == |pre| then Texts([])
    else if pre[i] < 0 || suf[i] < 0 || pre[i] > |prev| || suf[i] > |rest| - p then Failed(OutOfRange)
    else
      var v := prev[..pre[i]] + rest[p..p + suf[i]];
      if total + |v| > max then Failed(TooLarge)
      else Cons(v, Rebuild(rest, p + suf[i], pre, suf, i + 1, v, total + |v|, max))
  }

  function PrefixTexts(s: seq<byte>, n: nat, max: nat): (r: Strings)
    ensures r.Texts? ==> |r.values| == n
  {
    match Decode(s, n, 32)
    case Malformed => Failed(MalformedStream)
    case Decoded(pre, u1) =>
      var rest := s[u1..];
      match Decode(rest, n, 32)
      case Malformed => Failed(MalformedStream)
      case Decoded(suf, u2) => Rebuild(rest, u2, pre, suf, 0, [], 0, max)
  }

  /** The size of texts i, i+1, ... together. */
  function TotalFrom(values: seq<Text>, i: nat): (t: nat)
    requires i <= |values|
    decreases |values| - i
  {
    if i == |values| then 0 else |values[i]| + TotalFrom(values, i + 1)
  }

  /** One text of a list that rebuilds: its parts are in range and the rest rebuilds from it. */
  lemma {:induction false} RebuildNext(rest: seq<byte>, p: nat, pre: seq<int>, suf: seq<int>, i: nat, prev: Text,
                                       total: nat, max: nat)
    requires p <= |rest| && |pre| == |suf| && i < |pre|
    requires Rebuild(rest, p, pre, suf, i, prev, total, max).Texts?
    ensures 0 <= pre[i] <= |prev| && 0 <= suf[i] <= |rest| - p
    ensures
      var vs := Rebuild(rest, p, pre, suf, i, prev, total, max).values;
      && vs[0] == prev[..pre[i]] + rest[p..p + suf[i]]
      && Rebuild(rest, p + suf[i], pre, suf, i + 1, vs[0], total + |vs[0]|, max) == Texts(vs[1..])
  {
    var vs := Rebuild(rest, p, pre, suf, i, prev, total, max).values;
    var r := Rebuild(rest, p + suf[i], pre, suf, i + 1, prev[..pre[i]] + rest[p..p + suf[i]], total + pre[i] + suf[i], max);
    assert ([vs[0]] + r.values)[1..] == r.values;
  }

  lemma {:induction false} RebuildStep(rest: seq<byte>, p: nat, pre: seq<int>, suf: seq<int>, i: nat, prev: Text,
                                       total: nat, max: nat, got: seq<Text>)
    requires p <= |rest| && |pre| == |suf| && i < |pre|
    requires 0 <= pre[i] <= |prev| && 0 <= suf[i] <= |rest| - p && total + pre[i] + suf[i] <= max
    ensures
      var v := prev[..pre[i]] + rest[p..p + suf[i]];
      Joined(got, Rebuild(rest, p, pre, suf, i, prev, total, max)) ==
      Joined(got + [v], Rebuild(rest, p + suf[i], pre, suf, i + 1, v, total + |v|, max))
  {
    var v := prev[..pre[i]] + rest[p..p + suf[i]];
    var r := Rebuild(rest, p + suf[i], pre, suf, i + 1, v, total + |v|, max);
    if r.Texts? {
      assert got + ([v] + r.values) == got + [v] + r.values;
    }
  }

  /** The sizing pass (values.hpp:476-484): it follows lengths only, and finds the first fault. */
  method SizeArena(rest: seq<byte>, start: nat, pre: seq<int>, suf: seq<int>, max: nat)
    returns (st: Option<Fault>, total: nat)
    requires start <= |rest| && |pre| == |suf|
    ensures Agrees(st, Rebuild(rest, start, pre, suf, 0, [], 0, max))
    ensures st == None ==> total == TotalFrom(Rebuild(rest, start, pre, suf, 0, [], 0, max).values, 0)
  {
    hide Rebuild, TotalFrom;
    total := 0;
    var prev: nat, p: nat := 0, start;
    ghost var text: Text, got: seq<Text> := [], [];
    ghost var goal := Rebuild(rest, start, pre, suf, 0, [], 0, max);
    BoundsStep(rest, start, pre, suf, 0, [], 0, max);
    assert goal.Texts? ==> [] + goal.values == goal.values;
    TotalNone();
    for i := 0 to |pre|
      invariant p <= |rest| && |text| == prev && total <= max
      invariant goal == Joined(got, Rebuild(rest, p, pre, suf, i, text, total, max))
      invariant total == TotalFrom(got, 0)
    {
      BoundsStep(rest, p, pre, suf, i, text, total, max);
      if pre[i] < 0 || suf[i] < 0 || pre[i] > prev || suf[i] > |rest| - p {
        return Some(OutOfRange), total;
      }
      ghost var v := text[..pre[i]] + rest[p..p + suf[i]];
      prev := pre[i] + suf[i];
      if prev > max || total > max - prev {
        return Some(TooLarge), total;
      }
      RebuildStep(rest, p, pre, suf, i, text, total, max, got);
      TotalMore(got, v);
      p := p + suf[i];
      total := total + prev;
      text, got := v, got + [v];
    }
    BoundsStep(rest, p, pre, suf, |pre|, text, total, max);
    assert got + [] == got;
    st := None;
  }

  lemma {:induction false} BoundsStep(rest: seq<byte>, p: nat, pre: seq<int>, suf: seq<int>, i: nat, prev: Text,
                                      total: nat, max: nat)
    requires p <= |rest| && |pre| == |suf| && i <= |pre|
    ensures
      var r := Rebuild(rest, p, pre, suf, i, prev, total, max);
      if i == |pre| then r == Texts([])
      else if pre[i] < 0 || suf[i] < 0 || pre[i] > |prev| || suf[i] > |rest| - p then r == Failed(OutOfRange)
      else total + pre[i] + suf[i] > max ==> r == Failed(TooLarge)
  {
  }

  lemma {:induction false} TotalNone()
    ensures TotalFrom([], 0) == 0
  {
  }

  lemma {:induction false} TotalMore(got: seq<Text>, v: Text)
    ensures TotalFrom(got + [v], 0) == TotalFrom(got, 0) + |v|
  {
    TotalMoreFrom(got, v, 0);
  }

  lemma {:induction false} TotalMoreFrom(got: seq<Text>, v: Text, i: nat)
    requires i <= |got|
    ensures TotalFrom(got + [v], i) == TotalFrom(got, i) + |v|
    decreases |got| - i
  {
    if i < |got| {
      TotalMoreFrom(got, v, i + 1);
    } else {
      assert TotalFrom(got + [v], i + 1) == 0;
    }
  }

  function Patched(s: seq<byte>, at: nat, bytes: seq<byte>): (r: seq<byte>)
    requires at + |bytes| <= |s|
    ensures |r| == |s|
  {
    s[..at] + bytes + s[at + |bytes|..]
  }

  /** memmove / memcpy of bytes already gathered. */
  method Store(a: array<byte>, at: nat, bytes: seq<byte>)
    requires at + |bytes| <= a.Length
    modifies a
    ensures a[..] == Patched(old(a[..]), at, bytes)
  {
    for k := 0 to |bytes|
      invariant forall j :: 0 <= j < k ==> a[at + j] == bytes[j]
      invariant forall j :: 0 <= j < a.Length && !(at <= j < at + |bytes|) ==> a[j] == old(a[j])
    {
      a[at + k] := bytes[k];
    }
  }

  /** A buffer once the text at `at` is its prefix, taken from the text at prevAt, and its tail. */
  function Placed(buf: seq<byte>, at: nat, prevAt: nat, pre: nat, tail: seq<byte>): (r: seq<byte>)
    requires prevAt + pre <= at && at + pre + |tail| <= |buf|
    ensures |r| == |buf|
  {
    Patched(Patched(buf, at, buf[prevAt..prevAt + pre]), at + pre, tail)
  }

  lemma {:induction false} PlacedIs(buf: seq<byte>, at: nat, prevAt: nat, prev: Text, pre: nat, tail: seq<byte>)
    requires pre <= |prev| && prevAt + |prev| <= at && at + pre + |tail| <= |buf|
    requires buf[prevAt..prevAt + |prev|] == prev
    ensures Placed(buf, at, prevAt, pre, tail)[..at] == buf[..at]
    ensures Placed(buf, at, prevAt, pre, tail)[at..at + pre + |tail|] == prev[..pre] + tail
  {
    assert buf[prevAt..prevAt + pre] == prev[..pre];
    assert Placed(buf, at, prevAt, pre, tail) == buf[..at] + (prev[..pre] + tail) + buf[at + pre + |tail|..];
  }

  method PlaceText(arena: array<byte>, at: nat, prevAt: nat, pre: nat, tail: seq<byte>)
    requires prevAt + pre <= at && at + pre + |tail| <= arena.Length
    modifies arena
    ensures arena[..] == Placed(old(arena[..]), at, prevAt, pre, tail)
  {
    hide Patched;
    assert arena[prevAt..prevAt + pre] == arena[..][prevAt..prevAt + pre];
    Store(arena, at, arena[prevAt..prevAt + pre]);
    Store(arena, at + pre, tail);
  }

  /** What holds before text i is placed: the texts before it are shown in buf[..at], the last at prevAt. */
  ghost predicate Filling(buf: seq<byte>, views: seq<View>, texts: seq<Text>, i: nat, at: nat, prevAt: nat) {
    && i <= |texts| && |views| == i
    && at + TotalFrom(texts, i) == |buf| && prevAt + |Before(texts, i)| <= at
    && buf[prevAt..prevAt + |Before(texts, i)|] == Before(texts, i)
    && Shows(buf[..at], views, texts[..i])
  }

  lemma {:induction false} FillingNext(buf: seq<byte>, views: seq<View>, texts: seq<Text>, i: nat, at: nat,
                                       prevAt: nat, pre: nat, tail: seq<byte>)
    requires Filling(buf, views, texts, i, at, prevAt) && i < |texts| && pre <= |Before(texts, i)|
    requires texts[i] == Before(texts, i)[..pre] + tail
    ensures at + pre + |tail| <= |buf|
    ensures Filling(Placed(buf, at, prevAt, pre, tail), views + [View(at, |texts[i]|)], texts, i + 1, at + |texts[i]|, at)
  {
    hide TotalFrom, Shows, Placed;
    TotalHead(texts, i);
    PlacedIs(buf, at, prevAt, Before(texts, i), pre, tail);
    var buf', end := Placed(buf, at, prevAt, pre, tail), at + |texts[i]|;
    assert buf'[..end][..at] == buf[..at];
    assert buf'[..end][at..end] == texts[i];
    ShowsMore(buf[..at], buf'[..end], views, texts[..i], View(at, |texts[i]|), texts[i]);
    assert texts[..i + 1] == texts[..i] + [texts[i]];
  }

  /** The filling pass (values.hpp:486-496): each text is its prefix, moved from the text before it in the
      same arena, and its suffix. */
  method FillArena(rest: seq<byte>, start: nat, pre: seq<int>, suf: seq<int>, ghost max: nat, arena: array<byte>,
                   out: array<View>, ghost texts: seq<Text>)
    requires start <= |rest| && |pre| == |suf| <= out.Length
    requires Rebuild(rest, start, pre, suf, 0, [], 0, max) == Texts(texts) && arena.Length == TotalFrom(texts, 0)
    modifies arena, out
    ensures Shows(arena[..], out[..|pre|], texts)
    ensures forall j :: |pre| <= j < out.Length ==> out[j] == old(out[j])
  {
    hide Rebuild, TotalFrom, Shows, Filling, Placed;
    var at: nat, prevAt: nat, p: nat := 0, 0, start;
    ghost var views: seq<View> := [];
    FillingStart(arena[..], texts);
    assert texts[0..] == texts;
    for i := 0 to |pre|
      invariant p <= |rest| && |texts| == |pre| && out[..i] == views
      invariant Rebuild(rest, p, pre, suf, i, Before(texts, i), at, max) == Texts(texts[i..])
      invariant Filling(arena[..], views, texts, i, at, prevAt)
      invariant forall j :: |pre| <= j < out.Length ==> out[j] == old(out[j])
    {
      RebuildNext(rest, p, pre, suf, i, Before(texts, i), at, max);
      assert texts[i..][0] == texts[i] && texts[i..][1..] == texts[i + 1..];
      FillingNext(arena[..], views, texts, i, at, prevAt, pre[i], rest[p..p + suf[i]]);
      FillingBounds(arena[..], views, texts, i, at, prevAt);
      PlaceText(arena, at, prevAt, pre[i], rest[p..p + suf[i]]);
      out[i] := View(at, pre[i] + suf[i]);
      views := views + [View(at, pre[i] + suf[i])];
      p := p + suf[i];
      prevAt, at := at, at + pre[i] + suf[i];
    }
    FillingEnd(arena[..], views, texts, at, prevAt);
  }

  lemma {:induction false} FillingStart(buf: seq<byte>, texts: seq<Text>)
    requires |buf| == TotalFrom(texts, 0)
    ensures Filling(buf, [], texts, 0, 0, 0)
  {
    hide TotalFrom;
    assert texts[..0] == [];
  }

  lemma {:induction false} FillingBounds(buf: seq<byte>, views: seq<View>, texts: seq<Text>, i: nat, at: nat,
                                         prevAt: nat)
    requires Filling(buf, views, texts, i, at, prevAt)
    ensures prevAt + |Before(texts, i)| <= at
  {
  }

  lemma {:induction false} FillingEnd(buf: seq<byte>, views: seq<View>, texts: seq<Text>, at: nat, prevAt: nat)
    requires Filling(buf, views, texts, |texts|, at, prevAt)
    ensures Shows(buf, views, texts)
  {
    hide Shows;
    TotalEnd(texts);
    assert texts[..|texts|] == texts && buf[..at] == buf;
  }

  lemma {:induction false} ShowsMore(buf: seq<byte>, buf': seq<byte>, views: seq<View>, texts: seq<Text>, v: View,
                                     t: Text)
    requires Shows(buf, views, texts) && |buf| <= |buf'| && buf'[..|buf|] == buf
    requires v.at + v.len <= |buf'| && buf'[v.at..v.at + v.len] == t
    ensures Shows(buf', views + [v], texts + [t])
  {
    forall i | 0 <= i < |views|
      ensures views[i].at + views[i].len <= |buf'| && buf'[views[i].at..views[i].at + views[i].len] == texts[i]
    {
      assert buf'[views[i].at..views[i].at + views[i].len] == buf'[..|buf|][views[i].at..views[i].at + views[i].len];
    }
  }

  lemma {:induction false} TotalHead(values: seq<Text>, i: nat)
    requires i < |values|
    ensures TotalFrom(values, i) == |values[i]| + TotalFrom(values, i + 1)
  {
  }

  lemma {:induction false} TotalEnd(values: seq<Text>)
    ensures TotalFrom(values, |values|) == 0
  {
  }

  /** include/nanom/values.hpp:464-498. */
  method DeltaPrefixViews(s: seq<byte>, n: nat, out: array<View>, max: nat)
    returns (st: Option<Fault>, arena: array<byte>)
    modifies out
    ensures out.Length < n ==> st == Some(OutputTooSmall)
    ensures out.Length >= n ==> Agrees(st, PrefixTexts(s, n, max))
    ensures st == None ==> Shows(arena[..], out[..n], PrefixTexts(s, n, max).values) && arena.Length <= max
    ensures fresh(arena)
    ensures forall j :: n <= j < out.Length ==> out[j] == old(out[j])
  {
    hide Decode, Rebuild, Shows, TotalFrom;
    arena := new byte[0];
    if out.Length < n {
      return Some(OutputTooSmall), arena;
    }
    var prefix := new int[n];
    var lengths := new int[n];
    var u1 := DeltaBinaryPacked(s, prefix, n, 32);
    if u1.None? {
      return Some(MalformedStream), arena;
    }
    var rest := s[u1.value..];
    var u2 := DeltaBinaryPacked(rest, lengths, n, 32);
    if u2.None? {
      return Some(MalformedStream), arena;
    }
    var pre, suf := prefix[..], lengths[..];
    assert prefix[..n] == pre && lengths[..n] == suf;
    var total;
    st, total := SizeArena(rest, u2.value, pre, suf, max);
    if st != None {
      return st, arena;
    }
    ghost var texts := PrefixTexts(s, n, max).values;
    RebuildFits(rest, u2.value, pre, suf, 0, [], 0, max);
    arena := new byte[total];
    FillArena(rest, u2.value, pre, suf, max, arena, out, texts);
  }

  /** What rebuilds stays within the size limit. */
  lemma {:induction false} RebuildFits(rest: seq<byte>, p: nat, pre: seq<int>, suf: seq<int>, i: nat, prev: Text,
                                       total: nat, max: nat)
    requires p <= |rest| && |pre| == |suf| && i <= |pre| && total <= max
    requires Rebuild(rest, p, pre, suf, i, prev, total, max).Texts?
    ensures total + TotalFrom(Rebuild(rest, p, pre, suf, i, prev, total, max).values, 0) <= max
    decreases |pre| - i
  {
    var vs := Rebuild(rest, p, pre, suf, i, prev, total, max).values;
    if i < |pre| {
      RebuildNext(rest, p, pre, suf, i, prev, total, max);
      RebuildFits(rest, p + suf[i], pre, suf, i + 1, vs[0], total + |vs[0]|, max);
      TotalShift(vs, 0);
    }
  }

  lemma {:induction false} TotalShift(vs: seq<Text>, i: nat)
    requires i < |vs|
    ensures TotalFrom(vs[1..], i) == TotalFrom(vs, i + 1)
    decreases |vs| - i
  {
    if i + 1 < |vs| {
      TotalShift(vs, i + 1);
    }
  }

  /** The length of the longest common prefix. */
  function Common(a: Text, b: Text): (k: nat)
    ensures k <= |a| && k <= |b| && a[..k] == b[..k]
    ensures k == |a| || k == |b| || a[k] != b[k]
  {
    if |a| == 0 || |b| == 0 || a[0] != b[0] then 0
    else
      var k := Common(a[1..], b[1..]);
      assert a[..k + 1] == [a[0]] + a[1..][..k] && b[..k + 1] == [b[0]] + b[1..][..k];
      k + 1
  }

  function Before(values: seq<Text>, i: nat): Text
    requires i <= |values|
  {
    if i == 0 then [] else values[i - 1]
  }

  function Shared(values: seq<Text>, i: nat): (k: nat)
    requires i < |values|
    ensures k <= |values[i]| && k <= |Before(values, i)| && values[i][..k] == Before(values, i)[..k]
  {
    Common(Before(values, i), values[i])
  }

  function Prefixes(values: seq<Text>): (ps: seq<int>)
    ensures |ps| == |values|
  {
    seq(|values|, i requires 0 <= i < |values| => Shared(values, i))
  }

  function Suffixes(values: seq<Text>): (vs: seq<Text>)
    ensures |vs| == |values|
  {
    seq(|values|, i requires 0 <= i < |values| => values[i][Shared(values, i)..])
  }

  lemma {:induction false} PrefixesSigned(values: seq<Text>)
    requires AllShort(values)
    ensures AllSigned(Prefixes(values), 32) && AllShort(Suffixes(values))
  {
    Pow2Values();
    assert Pow2(32) == 2 * Pow2(31);
  }

  function PrefixBytes(values: seq<Text>): (s: seq<byte>)
    requires AllShort(values)
  {
    PrefixesSigned(values);
    StreamBytes(Prefixes(values), 32) + LengthBytes(Suffixes(values))
  }

  method CommonPrefix(a: Text, b: Text) returns (k: nat)
    ensures k == Common(a, b)
  {
    k := 0;
    var lim := Min(|a|, |b|);
    assert a[0..] == a && b[0..] == b;
    while k < lim && a[k] == b[k]
      invariant k <= lim && Common(a, b) == k + Common(a[k..], b[k..])
    {
      assert a[k..][1..] == a[k + 1..] && b[k..][1..] == b[k + 1..];
      k := k + 1;
    }
  }

  /** include/nanom/columnar_encode.hpp:282-297. */
  method DeltaPrefixEncode(values: seq<Text>, out: seq<byte>) returns (ok: bool, out': seq<byte>)
    ensures ok <==> AllShort(values)
    ensures out' == if AllShort(values) then out + PrefixBytes(values) else out
  {
    hide StreamBytes, AllSigned, LengthBytes, Common;
    var prefix: seq<int>, suffix: seq<Text> := [], [];
    for i := 0 to |values|
      invariant prefix == Prefixes(values)[..i] && suffix == Suffixes(values)[..i]
      invariant forall k :: 0 <= k < i ==> |values[k]| <= INT32_MAX
    {
      if |values[i]| > INT32_MAX {
        return false, out;
      }
      var p: nat := 0;
      if i > 0 {
        p := CommonPrefix(values[i - 1], values[i]);
      }
      assert p == Shared(values, i);
      prefix := prefix + [p];
      suffix := suffix + [values[i][p..]];
    }
    PrefixesSigned(values);
    assert prefix == Prefixes(values) && suffix == Suffixes(values);
    var mid := DeltaBinaryPackedEncode(prefix, 32, out);
    ok, out' := DeltaLengthEncode(suffix, mid);
    assert out + StreamBytes(prefix, 32) + LengthBytes(suffix) == out + (StreamBytes(prefix, 32) + LengthBytes(suffix));
  }

  // ------------------------------------------------------------------
  // Front coding round trip
  // ------------------------------------------------------------------

  lemma {:induction false} RebuildUndo(rest: seq<byte>, p: nat, values: seq<Text>, i: nat, total: nat, max: nat)
    requires i <= |values| && At(rest, p, Flat(Suffixes(values)[i..])) && total <= max
    ensures Rebuild(rest, p, Prefixes(values), Lengths(Suffixes(values)), i, Before(values, i), total, max) ==
            if total + TotalFrom(values, i) <= max then Texts(values[i..]) else Failed(TooLarge)
    decreases |values| - i
  {
    hide Shared, At, Suffixes, Prefixes, Lengths, Flat, Rebuild, Joined, Before, TotalFrom;
    AtSlice(rest, p, Flat(Suffixes(values)[i..]));
    var prev := Before(values, i);
    BoundsStep(rest, p, Prefixes(values), Lengths(Suffixes(values)), i, prev, total, max);
    if i < |values| {
      var v, next := values[i], p + |values[i]| - Shared(values, i);
      TextAt(rest, p, values, i);
      TotalHead(values, i);
      if total + |v| <= max {
        RebuildUndo(rest, next, values, i + 1, total + |v|, max);
        assert [] + [v] == [v] && [v] + values[i + 1..] == values[i..];
        JoinedOne(v, values[i + 1..]);
        RebuildStep(rest, p, Prefixes(values), Lengths(Suffixes(values)), i, prev, total, max, []);
        JoinedNone(Rebuild(rest, p, Prefixes(values), Lengths(Suffixes(values)), i, prev, total, max));
      }
    } else {
      TotalEnd(values);
    }
  }

  /** Text i is its shared prefix and the suffix bytes at p. */
  lemma {:induction false} TextAt(rest: seq<byte>, p: nat, values: seq<Text>, i: nat)
    requires i < |values| && At(rest, p, Flat(Suffixes(values)[i..]))
    ensures
      var pre, suf := Prefixes(values)[i], Lengths(Suffixes(values))[i];
      && 0 <= pre <= |Before(values, i)| && suf >= 0 && p + suf <= |rest| && pre + suf == |values[i]|
      && pre == Shared(values, i) && Before(values, i)[..pre] + rest[p..p + suf] == values[i] == Before(values, i + 1)
      && At(rest, p + suf, Flat(Suffixes(values)[i + 1..]))
  {
    hide At, Suffixes, Prefixes, Lengths, Flat;
    var sufs, k := Suffixes(values), Shared(values, i);
    var tail := values[i][k..];
    FrontAt(values, i);
    FlatFrom(sufs, i);
    AtConcat(rest, p, tail, Flat(sufs[i + 1..]));
    AtSlice(rest, p, tail);
    assert values[i][..k] + values[i][k..] == values[i];
  }

  lemma {:induction false} JoinedNone(r: Strings)
    ensures Joined([], r) == r
  {
    if r.Texts? {
      assert [] + r.values == r.values;
    }
  }

  lemma {:induction false} JoinedOne(v: Text, vs: seq<Text>)
    ensures Joined([v], Texts(vs)) == Texts([v] + vs)
    ensures forall e :: Joined([v], Failed(e)) == Failed(e)
  {
  }

  lemma {:induction false} FrontAt(values: seq<Text>, i: nat)
    requires i < |values|
    ensures Prefixes(values)[i] == Shared(values, i)
    ensures Suffixes(values)[i] == values[i][Shared(values, i)..]
    ensures Lengths(Suffixes(values))[i] == |values[i]| - Shared(values, i)
  {
  }

  /** The front-coded list comes back exactly when its texts together fit max, and is refused as too
      large otherwise. */
  lemma {:induction false} PrefixRoundTrip(values: seq<Text>, suffix: seq<byte>, max: nat)
    requires AllShort(values) && |values| <= SIZE_MAX
    ensures PrefixTexts(PrefixBytes(values) + suffix, |values|, max) ==
            if TotalFrom(values, 0) <= max then Texts(values) else Failed(TooLarge)
  {
    hide StreamBytes, Decode, Rebuild, Flat, AllSigned, Prefixes, Suffixes, TotalFrom, Lengths, At;
    PrefixesSigned(values);
    var ps, vs := Prefixes(values), Suffixes(values);
    var ls := Lengths(vs);
    LengthsSigned(vs);
    var head, head2 := StreamBytes(ps, 32), StreamBytes(ls, 32);
    var s := PrefixBytes(values) + suffix;
    var rest := head2 + (Flat(vs) + suffix);
    Regroup(head, head2, Flat(vs), suffix);
    DeltaRoundTrip(ps, rest, |values|, 32);
    DeltaRoundTrip(ls, Flat(vs) + suffix, |values|, 32);
    assert ps[..|values|] == ps && ls[..|values|] == ls;
    AtMiddle(head2, Flat(vs), suffix);
    assert vs[0..] == vs && values[0..] == values;
    RebuildUndo(rest, |head2|, values, 0, 0, max);
  }

  lemma {:induction false} Regroup(a: seq<byte>, b: seq<byte>, c: seq<byte>, d: seq<byte>)
    ensures (a + (b + c)) + d == a + (b + (c + d))
    ensures (a + (b + (c + d)))[|a|..] == b + (c + d)
  {
  }

  lemma {:induction false} AtMiddle(a: seq<byte>, b: seq<byte>, c: seq<byte>)
    ensures At(a + (b + c), |a|, b)
  {
  }
}
