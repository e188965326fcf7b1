/** LZ77 back-references: the byte-by-byte meaning, and the chunked copies of
    include/nanom/codec.hpp that must produce the same bytes. */
module Lz77 {
  import opened Bytes

  /** out followed by len bytes, each a copy of the byte offset places before it. */
  function Copied(out: seq<byte>, offset: nat, len: nat): (r: seq<byte>)
    requires 1 <= offset <= |out|
    ensures |r| == |out| + len
    ensures forall k :: 0 <= k < |out| ==> r[k] == out[k]
    decreases len
  {
    if len == 0 then out
    else
      var next := out + [out[|out| - offset]];
      var r := Copied(next, offset, len - 1);
      assert forall k :: 0 <= k < |out| ==> next[k] == out[k];
      r
  }

  /** a[lo..hi] repeats with period offset. */
  ghost predicate Periodic(a: seq<byte>, offset: nat, lo: nat, hi: nat)
    requires 1 <= offset <= lo && hi <= |a|
  {
    forall k :: lo <= k < hi ==> a[k] == a[k - offset]
  }

  /** The copy is the unique extension of out with period offset. */
  lemma {:induction false} CopiedIffPeriodic(out: seq<byte>, offset: nat, len: nat, r: seq<byte>)
    requires 1 <= offset <= |out|
    requires |r| == |out| + len && r[..|out|] == out
    ensures Periodic(r, offset, |out|, |r|) <==> r == Copied(out, offset, len)
    decreases len
  {
    if len == 0 {
      assert r == out;
    } else {
      var c := out[|out| - offset];
      var next := out + [c];
      if r[|out|] == c {
        assert r[..|next|] == next;
        CopiedIffPeriodic(next, offset, len - 1, r);
        assert Periodic(r, offset, |out|, |r|) <==> Periodic(r, offset, |next|, |r|);
      } else {
        assert r[|out| - offset] == r[..|out|][|out| - offset] == c;
        assert Copied(next, offset, len - 1)[|out|] == next[|out|] == c;
      }
    }
  }

  /** Stepping back any number of periods. */
  lemma {:induction false} PeriodicSteps(a: seq<byte>, offset: nat, lo: nat, hi: nat, q: nat, m: nat)
    requires 1 <= offset <= lo && hi <= |a| && Periodic(a, offset, lo, hi)
    requires q < hi && m >= 1 && q - (m - 1) * offset >= lo
    ensures q - m * offset >= 0 && a[q] == a[q - m * offset]
    decreases m
  {
    if m > 1 {
      assert q - (m - 2) * offset == q - (m - 1) * offset + offset;
      PeriodicSteps(a, offset, lo, hi, q, m - 1);
      var k := q - (m - 1) * offset;
      assert k - offset == q - m * offset;
      assert a[k] == a[k - offset];
    }
  }

  // ------------------------------------------------------------------
  // The copy kernels
  // ------------------------------------------------------------------

  /** std::memcpy of n bytes inside one buffer: the ranges must not overlap. */
  method CopyWithin(a: array<byte>, d: nat, s: nat, n: nat)
    requires d + n <= a.Length && s + n <= a.Length
    requires s + n <= d || d + n <= s
    modifies a
    ensures forall k :: d <= k < d + n ==> a[k] == old(a[k - d + s])
    ensures forall k :: 0 <= k < a.Length && !(d <= k < d + n) ==> a[k] == old(a[k])
  {
    forall k | d <= k < d + n {
      a[k] := a[k - d + s];
    }
  }

  /** std::memcpy of n input bytes into the output buffer. */
  method CopyFrom(a: array<byte>, d: nat, input: seq<byte>, s: nat, n: nat)
    requires d + n <= a.Length && s + n <= |input|
    modifies a
    ensures forall k :: d <= k < d + n ==> a[k] == input[k - d + s]
    ensures forall k :: 0 <= k < a.Length && !(d <= k < d + n) ==> a[k] == old(a[k])
  {
    forall k | d <= k < d + n {
      a[k] := input[k - d + s];
    }
  }

  /** What a back-reference copy at op leaves in the buffer: every byte before op as it was, the
      len bytes after it periodic, and nothing touched from op + len + slack on. */
  ghost predicate CopyDone(before: seq<byte>, after: seq<byte>, op: nat, offset: nat, len: nat, slack: nat)
    requires 1 <= offset <= op && op + len <= |before| == |after|
  {
    && (forall k :: 0 <= k < op ==> after[k] == before[k])
    && Periodic(after, offset, op, op + len)
    && (forall k :: op + len + slack <= k < |after| ==> after[k] == before[k])
  }

  lemma {:induction false} CopyDoneIsCopied(before: seq<byte>, after: seq<byte>, op: nat, offset: nat, len: nat,
                                            slack: nat)
    requires 1 <= offset <= op && op + len <= |before| == |after|
    requires CopyDone(before, after, op, offset, len, slack)
    ensures after[..op + len] == Copied(before[..op], offset, len)
  {
    CopiedIffPeriodic(before[..op], offset, len, after[..op + len]);
  }

  /** include/nanom/codec.hpp:30-43: exact, writes len bytes and no more. */
  method CopyMatch(a: array<byte>, op: nat, offset: nat, len: nat)
    requires 1 <= offset <= op && op + len <= a.Length
    modifies a
    ensures CopyDone(old(a[..]), a[..], op, offset, len, 0)
  {
    if offset >= len {
      CopyWithin(a, op, op - offset, len);
      return;
    }
    var done := 0;
    if offset >= 8 {
      while len - done >= 8
        invariant 0 <= done <= len
        invariant CopyDone(old(a[..]), a[..], op, offset, done, 0)
      {
        CopyWithin(a, op + done, op + done - offset, 8);
        done := done + 8;
      }
    }
    while done < len
      invariant 0 <= done <= len
      invariant CopyDone(old(a[..]), a[..], op, offset, done, 0)
    {
      a[op + done] := a[op + done - offset];
      done := done + 1;
    }
  }

  /** A lag that is a whole number of periods, at least 8 and less than 8 + offset. */
  function Lag(offset: nat): (lag: nat)
    requires 1 <= offset <= 7
    ensures 8 <= lag < 8 + offset && lag % offset == 0
  {
    offset * ((8 + offset - 1) / offset)
  }

  /** One 8-byte chunk copied from lag back continues the period. */
  lemma {:induction false} LagChunk(before: seq<byte>, after: seq<byte>, op: nat, offset: nat, i: nat)
    requires 1 <= offset <= 7 && offset <= op && i >= 8 && op + i + 8 <= |before| == |after|
    requires Periodic(before, offset, op, op + i)
    requires forall k :: 0 <= k < |before| && !(op + i <= k < op + i + 8) ==> after[k] == before[k]
    requires forall k :: op + i <= k < op + i + 8 ==> after[k] == before[k - Lag(offset)]
    ensures Periodic(after, offset, op, op + i + 8)
  {
    var lag := Lag(offset);
    forall k | op <= k < op + i + 8 ensures after[k] == after[k - offset] {
      if k >= op + i {
        if k - offset >= op + i {
          assert before[k - lag] == before[k - lag - offset];
          assert after[k - offset] == before[k - offset - lag];
        } else {
          LagSteps(before, op, offset, i, k);
        }
      }
    }
  }

  lemma {:induction false} LagSteps(a: seq<byte>, op: nat, offset: nat, i: nat, k: nat)
    requires 1 <= offset <= 7 && offset <= op && i >= 8 && op + i <= |a|
    requires Periodic(a, offset, op, op + i)
    requires op + i <= k < op + i + offset
    ensures a[k - offset] == a[k - Lag(offset)]
  {
    var lag := Lag(offset);
    var m := (8 + offset - 1) / offset - 1;
    assert lag == (m + 1) * offset;
    assert (m + 1) * offset == m * offset + offset;
    if m >= 1 {
      assert k - offset - (m - 1) * offset == k - lag + offset;
      PeriodicSteps(a, offset, op, op + i, k - offset, m);
    }
  }

  /** codec.hpp:53-56: whole chunks of c <= offset bytes, the last one overshooting. */
  method CopyChunks(a: array<byte>, op: nat, offset: nat, len: nat, c: nat)
    requires 1 <= c <= offset <= op && c <= 16 && op + len + 15 <= a.Length
    modifies a
    ensures CopyDone(old(a[..]), a[..], op, offset, len, 15)
  {
    var i := 0;
    while i < len
      invariant 0 <= i < len + c
      invariant CopyDone(old(a[..]), a[..], op, offset, i, 0)
    {
      CopyWithin(a, op + i, op + i - offset, c);
      i := i + c;
    }
  }

  /** codec.hpp:57-64: the first 8 bytes one by one, then 8-byte chunks from a whole number of
      periods back. */
  method CopyRun(a: array<byte>, op: nat, offset: nat, len: nat)
    requires 1 <= offset <= 7 && offset <= op && op + len + 15 <= a.Length
    modifies a
    ensures CopyDone(old(a[..]), a[..], op, offset, len, 15)
  {
    var i := 0;
    var head := if len < 8 then len else 8;
    while i < head
      invariant 0 <= i <= head
      invariant CopyDone(old(a[..]), a[..], op, offset, i, 0)
    {
      a[op + i] := a[op + i - offset];
      i := i + 1;
    }
    var lag := Lag(offset);
    while i < len
      invariant i == head || 8 <= i < len + 8
      invariant head <= i
      invariant CopyDone(old(a[..]), a[..], op, offset, i, 0)
    {
      ghost var before := a[..];
      CopyWithin(a, op + i, op + i - lag, 8);
      LagChunk(before, a[..], op, offset, i);
      i := i + 8;
    }
  }

  /** include/nanom/codec.hpp:51-65: may write up to 15 bytes past op + len, and never reads a byte
      it has not produced: the len bytes are the exact copy. */
  method CopyMatchWild(a: array<byte>, op: nat, offset: nat, len: nat)
    requires 1 <= offset <= op && op + len + 15 <= a.Length
    modifies a
    ensures CopyDone(old(a[..]), a[..], op, offset, len, 15)
  {
    if offset >= 16 {
      CopyChunks(a, op, offset, len, 16);
    } else if offset >= 8 {
      CopyChunks(a, op, offset, len, 8);
    } else {
      CopyRun(a, op, offset, len);
    }
  }
}
