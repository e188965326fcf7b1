/** Putting one datagram together from its fragments: the completion scan of
    include/nanom_shark/defrag.hpp:257-298, against a definition that knows nothing of order. */
module Assembly {
  import opened Bytes

  const NO_TOKEN: nat := 0

  datatype Fragment = Fragment(offset: nat, pid: nat, more: bool, data: seq<byte>, token: nat)
  {
    function End(): nat { offset + |data| }
    ghost predicate Covers(x: nat) { offset <= x < End() }
  }

  const U32 := 0x1_0000_0000

  // ------------------------------------------------------------------
  // What completeness means
  // ------------------------------------------------------------------

  ghost predicate Covered(fs: seq<Fragment>, x: nat) {
    exists i :: 0 <= i < |fs| && fs[i].Covers(x)
  }

  /** Every byte of the datagram has arrived, and no fragment lies beyond a hole. */
  ghost predicate NoHole(fs: seq<Fragment>, total: nat) {
    && (forall i, x: nat :: 0 <= i < |fs| && x < fs[i].offset ==> Covered(fs, x))
    && (forall x: nat :: x < total ==> Covered(fs, x))
  }

  /** No two fragments disagree on a byte of the datagram. */
  ghost predicate Agree(fs: seq<Fragment>, total: nat) {
    forall i, j, x: nat :: 0 <= i < |fs| && 0 <= j < |fs| && x < total && fs[i].Covers(x) && fs[j].Covers(x) ==>
      fs[i].data[x - fs[i].offset] == fs[j].data[x - fs[j].offset]
  }

  ghost predicate Complete(fs: seq<Fragment>, total: nat) {
    NoHole(fs, total) && Agree(fs, total)
  }

  /** d says what every fragment says, on every byte below |d|. */
  ghost predicate Consistent(fs: seq<Fragment>, d: seq<byte>) {
    forall i, x: nat :: 0 <= i < |fs| && x < |d| && fs[i].Covers(x) ==> d[x] == fs[i].data[x - fs[i].offset]
  }

  function TotalBytes(fs: seq<Fragment>): (n: nat)
  {
    if |fs| == 0 then 0 else TotalBytes(fs[..|fs| - 1]) + |fs[|fs| - 1].data|
  }

  lemma {:induction false} TotalBytesAppend(fs: seq<Fragment>, f: Fragment)
    ensures TotalBytes(fs + [f]) == TotalBytes(fs) + |f.data|
  {
    assert (fs + [f])[..|fs|] == fs;
  }

  /** At most one byte string is the datagram. */
  lemma {:induction false} DatagramUnique(fs: seq<Fragment>, total: nat, d: seq<byte>, e: seq<byte>)
    requires NoHole(fs, total) && |d| == total == |e| && Consistent(fs, d) && Consistent(fs, e)
    ensures d == e
  {
    forall x | 0 <= x < total ensures d[x] == e[x] {
      assert Covered(fs, x);
    }
  }

  // ------------------------------------------------------------------
  // Order does not matter
  // ------------------------------------------------------------------

  lemma {:induction false} PermutationMember(fs: seq<Fragment>, gs: seq<Fragment>, i: nat) returns (j: nat)
    requires multiset(fs) == multiset(gs) && i < |fs|
    ensures j < |gs| && gs[j] == fs[i]
  {
    assert fs[i] in multiset(gs);
    j :| 0 <= j < |gs| && gs[j] == fs[i];
  }

  lemma {:induction false} CoveredPermuted(fs: seq<Fragment>, gs: seq<Fragment>, x: nat)
    requires multiset(fs) == multiset(gs) && Covered(fs, x)
    ensures Covered(gs, x)
  {
    var i :| 0 <= i < |fs| && fs[i].Covers(x);
    var j := PermutationMember(fs, gs, i);
  }

  lemma {:induction false} NoHolePermuted(fs: seq<Fragment>, gs: seq<Fragment>, total: nat)
    requires multiset(fs) == multiset(gs) && NoHole(fs, total)
    ensures NoHole(gs, total)
  {
    forall i, x: nat | 0 <= i < |gs| && x < gs[i].offset ensures Covered(gs, x) {
      var j := PermutationMember(gs, fs, i);
      assert Covered(fs, x);
      CoveredPermuted(fs, gs, x);
    }
    forall x: nat | x < total ensures Covered(gs, x) {
      assert Covered(fs, x);
      CoveredPermuted(fs, gs, x);
    }
  }

  lemma {:induction false} AgreePermuted(fs: seq<Fragment>, gs: seq<Fragment>, total: nat)
    requires multiset(fs) == multiset(gs) && Agree(fs, total)
    ensures Agree(gs, total)
  {
    forall i, j, x: nat | 0 <= i < |gs| && 0 <= j < |gs| && x < total && gs[i].Covers(x) && gs[j].Covers(x)
      ensures gs[i].data[x - gs[i].offset] == gs[j].data[x - gs[j].offset]
    {
      var i' := PermutationMember(gs, fs, i);
      var j' := PermutationMember(gs, fs, j);
      assert fs[i'].Covers(x) && fs[j'].Covers(x);
    }
  }

  lemma {:induction false} ConsistentPermuted(fs: seq<Fragment>, gs: seq<Fragment>, d: seq<byte>)
    requires multiset(fs) == multiset(gs) && Consistent(fs, d)
    ensures Consistent(gs, d)
  {
    forall i, x: nat | 0 <= i < |gs| && x < |d| && gs[i].Covers(x)
      ensures d[x] == gs[i].data[x - gs[i].offset]
    {
      var j := PermutationMember(gs, fs, i);
      assert fs[j].Covers(x);
    }
  }

  // ------------------------------------------------------------------
  // range_equals
  // ------------------------------------------------------------------

  /** want is what s holds at `at`. */
  ghost predicate Holds(s: seq<byte>, at: nat, want: seq<byte>) {
    |want| == 0 || (at + |want| <= |s| && s[at..at + |want|] == want)
  }

  lemma {:induction false} HoldsSkip(p: seq<byte>, rest: seq<byte>, at: nat, want: seq<byte>)
    requires at >= |p|
    ensures Holds(p + rest, at, want) <==> Holds(rest, at - |p|, want)
  {
    if |want| > 0 && at + |want| <= |p| + |rest| {
      assert (p + rest)[at..at + |want|] == rest[at - |p|..at - |p| + |want|];
    }
  }

  lemma {:induction false} HoldsSplit(p: seq<byte>, rest: seq<byte>, at: nat, want: seq<byte>, here: nat)
    requires at < |p| && here == Min(|p| - at, |want|)
    ensures Holds(p + rest, at, want) <==> p[at..at + here] == want[..here] && Holds(rest, 0, want[here..])
  {
    var s := p + rest;
    assert s[at..at + here] == p[at..at + here];
    if here < |want| {
      assert want == want[..here] + want[here..];
      if at + |want| <= |s| {
        assert s[at..at + |want|] == s[at..at + here] + s[|p|..at + |want|];
        assert s[|p|..at + |want|] == rest[..|want| - here];
        if s[at..at + |want|] == want {
          assert s[at..at + here] == want[..here];
          assert s[|p|..at + |want|] == s[at..at + |want|][here..] == want[here..];
        }
      }
    } else {
      assert want[..here] == want;
    }
  }

  /** defrag.hpp:169-184: compares across part boundaries without joining the parts. */
  method RangeEquals(parts: seq<seq<byte>>, at: nat, want: seq<byte>) returns (same: bool)
    ensures same <==> Holds(Flat(parts), at, want)
  {
    hide Holds;
    var skip: nat, wi: nat := at, 0;
    assert parts[0..] == parts && want[0..] == want;
    for k := 0 to |parts|
      invariant wi <= |want|
      invariant Holds(Flat(parts[k..]), skip, want[wi..]) <==> Holds(Flat(parts), at, want)
    {
      var p := parts[k];
      ghost var rest := Flat(parts[k + 1..]);
      assert parts[k..][1..] == parts[k + 1..];
      if skip >= |p| {
        HoldsSkip(p, rest, skip, want[wi..]);
        skip := skip - |p|;
        continue;
      }
      var here := Min(|p| - skip, |want| - wi);
      HoldsSplit(p, rest, skip, want[wi..], here);
      assert want[wi..][..here] == want[wi..wi + here];
      assert want[wi..][here..] == want[wi + here..];
      if p[skip..skip + here] != want[wi..wi + here] {
        return false;
      }
      wi := wi + here;
      skip := 0;
      if wi == |want| {
        HoldsEnd(rest, 0, want[wi..]);
        return true;
      }
    }
    HoldsEnd([], skip, want[wi..]);
    return wi == |want|;
  }

  lemma {:induction false} HoldsEnd(rest: seq<byte>, at: nat, want: seq<byte>)
    requires |want| == 0 || |rest| == 0
    ensures Holds(rest, at, want) <==> |want| == 0
  {
  }

  // ------------------------------------------------------------------
  // The scan
  // ------------------------------------------------------------------

  ghost predicate SortedByOffset(fs: seq<Fragment>) {
    forall i, j :: 0 <= i < j < |fs| ==> fs[i].offset <= fs[j].offset
  }

  ghost predicate CoveredBefore(fs: seq<Fragment>, k: nat, x: nat)
    requires k <= |fs|
  {
    exists i :: 0 <= i < k && fs[i].Covers(x)
  }

  /** After the first k fragments: [0, covered) is covered, and d is what they say of [0, total). */
  ghost predicate Progress(fs: seq<Fragment>, k: nat, total: nat, covered: nat, d: seq<byte>)
    requires k <= |fs|
  {
    && |d| == Min(covered, total)
    && (forall x: nat :: x < covered ==> CoveredBefore(fs, k, x))
    && (forall i :: 0 <= i < k ==> fs[i].End() <= covered)
    && (forall i, x: nat :: 0 <= i < k && x < |d| && fs[i].Covers(x) ==> d[x] == fs[i].data[x - fs[i].offset])
  }

  /** A fragment past the covered prefix: byte `covered` is missing. */
  lemma {:induction false} GapIsHole(fs: seq<Fragment>, k: nat, total: nat, covered: nat, d: seq<byte>)
    requires k < |fs| && SortedByOffset(fs) && Progress(fs, k, total, covered, d)
    requires fs[k].offset > covered
    ensures !NoHole(fs, total)
  {
    forall i | 0 <= i < |fs| ensures !fs[i].Covers(covered) {
      if i > k {
        assert fs[k].offset <= fs[i].offset;
      }
    }
    assert !Covered(fs, covered);
  }

  lemma {:induction false} ShortIsHole(fs: seq<Fragment>, total: nat, covered: nat, d: seq<byte>)
    requires Progress(fs, |fs|, total, covered, d) && covered < total
    ensures !NoHole(fs, total)
  {
    assert !Covered(fs, covered);
  }

  lemma {:induction false} MismatchIsConflict(fs: seq<Fragment>, k: nat, total: nat, covered: nat, d: seq<byte>,
                                              ov: nat)
    requires k < |fs| && Progress(fs, k, total, covered, d)
    requires fs[k].offset < |d| && ov == Min(|d| - fs[k].offset, |fs[k].data|)
    requires !Holds(d, fs[k].offset, fs[k].data[..ov])
    ensures !Agree(fs, total)
  {
    var f := fs[k];
    var y :| 0 <= y < ov && d[f.offset..f.offset + ov][y] != f.data[..ov][y];
    var x := f.offset + y;
    assert d[x] != f.data[y];
    assert CoveredBefore(fs, k, x);
    var i :| 0 <= i < k && fs[i].Covers(x);
    assert d[x] == fs[i].data[x - fs[i].offset];
    assert f.Covers(x);
  }

  /** The bytes the fragment adds: defrag.hpp:292-295. */
  function Tail(f: Fragment, clamped: nat, total: nat): (t: seq<byte>)
    requires f.offset <= clamped || total <= f.offset
  {
    var from, to := Max(f.offset, clamped), Min(f.End(), total);
    if from < to then f.data[from - f.offset..to - f.offset] else []
  }

  lemma {:induction false} Extends(fs: seq<Fragment>, k: nat, total: nat, covered: nat, d: seq<byte>, ov: nat)
    requires k < |fs| && Progress(fs, k, total, covered, d) && fs[k].offset <= covered
    requires fs[k].offset < |d| ==> ov == Min(|d| - fs[k].offset, |fs[k].data|) && Holds(d, fs[k].offset, fs[k].data[..ov])
    ensures Progress(fs, k + 1, total, Max(covered, fs[k].End()), d + Tail(fs[k], |d|, total))
  {
    var f := fs[k];
    var d' := d + Tail(f, |d|, total);
    var covered' := Max(covered, f.End());
    forall x: nat {:trigger CoveredBefore(fs, k + 1, x)} | x < covered' ensures CoveredBefore(fs, k + 1, x) {
      if x < covered {
        assert CoveredBefore(fs, k, x);
        var i :| 0 <= i < k && fs[i].Covers(x);
      } else {
        assert fs[k].Covers(x);
      }
    }
    forall i, x: nat | 0 <= i < k + 1 && x < |d'| && fs[i].Covers(x)
      ensures d'[x] == fs[i].data[x - fs[i].offset]
    {
      if x < |d| {
        if i == k {
          assert d[f.offset..f.offset + ov][x - f.offset] == f.data[..ov][x - f.offset];
        }
      }
    }
  }

  lemma {:induction false} DoneIsComplete(fs: seq<Fragment>, total: nat, covered: nat, d: seq<byte>)
    requires Progress(fs, |fs|, total, covered, d) && covered >= total
    ensures Complete(fs, total) && |d| == total && Consistent(fs, d)
  {
    forall x: nat | x < covered ensures Covered(fs, x) {
      assert CoveredBefore(fs, |fs|, x);
    }
    forall i, x: nat | 0 <= i < |fs| && x < fs[i].offset ensures Covered(fs, x) {
      assert fs[i].End() <= covered;
    }
    forall i, j, x: nat | 0 <= i < |fs| && 0 <= j < |fs| && x < total && fs[i].Covers(x) && fs[j].Covers(x)
      ensures fs[i].data[x - fs[i].offset] == fs[j].data[x - fs[j].offset]
    {
      assert d[x] == fs[i].data[x - fs[i].offset];
    }
  }

  datatype Scan = Done(parts: seq<seq<byte>>) | Incomplete | Conflict

  /** What the scan found, said without reference to the order of the fragments. */
  ghost predicate ScanMeans(r: Scan, fs: seq<Fragment>, total: nat) {
    match r
    case Done(parts) => Complete(fs, total) && |Flat(parts)| == total && Consistent(fs, Flat(parts))
    case Incomplete => !NoHole(fs, total)
    case Conflict => !Agree(fs, total)
  }

  /** One turn of the loop at defrag.hpp:278-297. */
  method ScanStep(fs: seq<Fragment>, k: nat, total: nat, parts: seq<seq<byte>>, covered: nat)
    returns (r: Scan, parts': seq<seq<byte>>, covered': nat)
    requires k < |fs| && SortedByOffset(fs) && TotalBytes(fs) < U32 && total < U32
    requires covered <= TotalBytes(fs[..k]) && Progress(fs, k, total, covered, Flat(parts))
    ensures !r.Done? ==> ScanMeans(r, fs, total)
    ensures r.Done? ==> covered' <= TotalBytes(fs[..k + 1]) && Progress(fs, k + 1, total, covered', Flat(parts'))
  {
    hide Progress, ScanMeans, NoHole, Agree, SortedByOffset, Holds;
    var f := fs[k];
    r, parts', covered' := Done([]), parts, covered;
    if f.offset > covered {
      GapIsHole(fs, k, total, covered, Flat(parts));
      MeansIncomplete(fs, total);
      return Incomplete, parts', covered';
    }
    BytesSoFar(fs, k);
    var clamped := Min(covered, total);
    assert |Flat(parts)| == clamped by { ProgressLength(fs, k, total, covered, Flat(parts)); }
    var end := (f.offset + |f.data|) % U32;
    assert end == f.End();
    ghost var ov := Min(clamped - Min(f.offset, clamped), |f.data|);
    if f.offset < clamped {
      var same := RangeEquals(parts, f.offset, f.data[..Min(clamped - f.offset, |f.data|)]);
      if !same {
        MismatchIsConflict(fs, k, total, covered, Flat(parts), ov);
        MeansConflict(fs, total);
        return Conflict, parts', covered';
      }
    }
    Extends(fs, k, total, covered, Flat(parts), ov);
    var from, to := Max(f.offset, clamped), Min(end, total);
    if from < to {
      parts' := parts + [f.data[from - f.offset..to - f.offset]];
      FlatAppend(parts, f.data[from - f.offset..to - f.offset]);
    } else {
      assert Flat(parts) + [] == Flat(parts);
    }
    if end > covered {
      covered' := end;
    }
  }

  lemma {:induction false} ProgressLength(fs: seq<Fragment>, k: nat, total: nat, covered: nat, d: seq<byte>)
    requires k <= |fs| && Progress(fs, k, total, covered, d)
    ensures |d| == Min(covered, total)
  {
  }

  lemma {:induction false} MeansIncomplete(fs: seq<Fragment>, total: nat)
    requires !NoHole(fs, total)
    ensures ScanMeans(Incomplete, fs, total)
  {
  }

  lemma {:induction false} MeansConflict(fs: seq<Fragment>, total: nat)
    requires !Agree(fs, total)
    ensures ScanMeans(Conflict, fs, total)
  {
  }

  lemma {:induction false} BytesSoFar(fs: seq<Fragment>, k: nat)
    requires k < |fs|
    ensures TotalBytes(fs[..k + 1]) == TotalBytes(fs[..k]) + |fs[k].data| <= TotalBytes(fs)
    decreases |fs| - k
  {
    assert fs[..k + 1] == fs[..k] + [fs[k]];
    TotalBytesAppend(fs[..k], fs[k]);
    if k + 1 < |fs| {
      BytesSoFar(fs, k + 1);
    } else {
      assert fs[..k + 1] == fs;
    }
  }

  /** defrag.hpp:265-298, over fragments already in offset order. */
  method ScanSorted(fs: seq<Fragment>, total: nat) returns (r: Scan)
    requires SortedByOffset(fs) && TotalBytes(fs) < U32 && total < U32
    ensures ScanMeans(r, fs, total)
  {
    hide Progress, ScanMeans, NoHole, Agree, SortedByOffset;
    var parts: seq<seq<byte>> := [];
    var covered: nat := 0;
    ProgressStart(fs, total);
    for k := 0 to |fs|
      invariant covered <= TotalBytes(fs[..k]) && Progress(fs, k, total, covered, Flat(parts))
    {
      r, parts, covered := ScanStep(fs, k, total, parts, covered);
      if !r.Done? {
        return;
      }
    }
    if covered < total {
      ShortIsHole(fs, total, covered, Flat(parts));
      MeansIncomplete(fs, total);
      return Incomplete;
    }
    DoneIsComplete(fs, total, covered, Flat(parts));
    MeansDone(fs, total, parts);
    return Done(parts);
  }

  lemma {:induction false} ProgressStart(fs: seq<Fragment>, total: nat)
    ensures Progress(fs, 0, total, 0, [])
  {
  }

  lemma {:induction false} MeansDone(fs: seq<Fragment>, total: nat, parts: seq<seq<byte>>)
    requires Complete(fs, total) && |Flat(parts)| == total && Consistent(fs, Flat(parts))
    ensures ScanMeans(Done(parts), fs, total)
  {
  }

  lemma {:induction false} ScanMeansPermuted(r: Scan, fs: seq<Fragment>, gs: seq<Fragment>, total: nat)
    requires multiset(fs) == multiset(gs) && ScanMeans(r, fs, total)
    ensures ScanMeans(r, gs, total)
  {
    hide NoHole, Agree, Consistent;
    match r {
      case Done(parts) =>
        NoHolePermuted(fs, gs, total);
        AgreePermuted(fs, gs, total);
        ConsistentPermuted(fs, gs, Flat(parts));
      case Incomplete =>
        if NoHole(gs, total) { NoHolePermuted(gs, fs, total); }
      case Conflict =>
        if Agree(gs, total) { AgreePermuted(gs, fs, total); }
    }
  }

  // ------------------------------------------------------------------
  // Sorting
  // ------------------------------------------------------------------

  predicate Before(f: Fragment, g: Fragment) {
    if f.offset != g.offset then f.offset < g.offset else f.pid <= g.pid
  }

  ghost predicate Sorted(fs: seq<Fragment>) {
    forall i, j :: 0 <= i < j < |fs| ==> Before(fs[i], fs[j])
  }

  /** std::sort at defrag.hpp:260-263: any ordering by (offset, packet id); ties fall either way. */
  method Sort(fs: seq<Fragment>) returns (r: seq<Fragment>)
    ensures Sorted(r) && multiset(r) == multiset(fs)
  {
    r := [];
    for k := 0 to |fs|
      invariant Sorted(r) && multiset(r) == multiset(fs[..k])
    {
      r := Insert(r, fs[k]);
      assert fs[..k + 1] == fs[..k] + [fs[k]];
    }
    assert fs[..|fs|] == fs;
  }

  method Insert(fs: seq<Fragment>, f: Fragment) returns (r: seq<Fragment>)
    requires Sorted(fs)
    ensures Sorted(r) && multiset(r) == multiset(fs) + multiset{f}
  {
    var i: nat := 0;
    while i < |fs| && Before(fs[i], f)
      invariant i <= |fs|
      invariant forall j :: 0 <= j < i ==> Before(fs[j], f)
    {
      i := i + 1;
    }
    r := fs[..i] + [f] + fs[i..];
    assert fs == fs[..i] + fs[i..];
    assert i < |fs| ==> Before(f, fs[i]);
    forall j | i <= j < |fs| ensures Before(f, fs[j]) {
      if j > i { assert Before(fs[i], fs[j]); }
    }
  }

  lemma {:induction false} WithoutOne(gs: seq<Fragment>, j: nat)
    requires j < |gs|
    ensures multiset(gs[..j] + gs[j + 1..]) == multiset(gs) - multiset{gs[j]}
  {
    assert gs == gs[..j] + [gs[j]] + gs[j + 1..];
  }

  lemma {:induction false} SameTotal(fs: seq<Fragment>, gs: seq<Fragment>)
    requires multiset(fs) == multiset(gs)
    ensures TotalBytes(fs) == TotalBytes(gs)
    decreases |fs|
  {
    if |fs| == 0 {
      assert |gs| == |multiset(gs)| == 0;
    } else {
      var n := |fs| - 1;
      var j := PermutationMember(fs, gs, n);
      WithoutOne(fs, n);
      WithoutOne(gs, j);
      assert fs[..n] + fs[n + 1..] == fs[..n];
      SameTotal(fs[..n], gs[..j] + gs[j + 1..]);
      TotalWithout(gs, j);
    }
  }

  lemma {:induction false} TotalWithout(gs: seq<Fragment>, j: nat)
    requires j < |gs|
    ensures TotalBytes(gs) == TotalBytes(gs[..j] + gs[j + 1..]) + |gs[j].data|
    decreases |gs|
  {
    var n := |gs| - 1;
    if j == n {
      assert gs[..j] + gs[j + 1..] == gs[..n];
    } else {
      TotalWithout(gs[..n], j);
      assert (gs[..j] + gs[j + 1..])[..n - 1] == gs[..n][..j] + gs[..n][j + 1..];
    }
  }

  /** Is the datagram complete? The answer depends only on which fragments there are. */
  method Assemble(fs: seq<Fragment>, total: nat) returns (r: Scan)
    requires TotalBytes(fs) < U32 && total < U32
    ensures ScanMeans(r, fs, total)
  {
    hide ScanMeans;
    var ordered := Sort(fs);
    SameTotal(ordered, fs);
    r := ScanSorted(ordered, total);
    ScanMeansPermuted(r, ordered, fs, total);
  }
}
