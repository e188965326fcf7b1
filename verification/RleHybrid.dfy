/** The RLE / bit-packed hybrid: what a stream means, and the streaming decoder of
    include/nanom/columnar.hpp section 27. */
module RleHybrid {
  import opened Bytes
  import opened Leb128
  import opened BitPacking

  /** Run lengths are clamped to 2^40 values. */
  const RUN_CAP := 0x100_0000_0000

  // ------------------------------------------------------------------
  // What a stream means
  // ------------------------------------------------------------------

  datatype Head =
    | End
    | Malformed
    | RleRun(value: nat, count: nat, next: nat)
    | PackedRun(start: nat, bytes: nat, count: nat, next: nat)

  /** A bit-packed run of `groups` groups with its bytes from start on: the wire bytes present limit
      it, and the group count is multiplied in 64 bits (columnar.hpp:212-223). */
  function PackedHead(data: seq<byte>, start: nat, groups: nat, w: nat): (h: Head)
    requires start <= |data|
    ensures h.PackedRun? && h.start == start && h.next == start + h.bytes <= |data|
  {
    var avail := |data| - start;
    var want := if groups > avail then avail * w else groups * w;
    var bytes := Min(want, avail);
    var claimed := (groups * 8) % 0x1_0000_0000_0000_0000;
    PackedRun(start, bytes, if w > 0 then Min(claimed, bytes * 8 / w) else Min(claimed, RUN_CAP), start + bytes)
  }

  /** columnar.hpp:226-233. */
  function RleHead(data: seq<byte>, start: nat, count: nat, w: nat): (h: Head)
    requires start <= |data|
    ensures h.RleRun? ==> start <= h.next <= |data|
  {
    var vbytes := (w + 7) / 8;
    if |data| - start < vbytes then Malformed
    else
      var v := LeNat(data[start..start + vbytes]);
      if w < 32 && v >= Pow2(w) then Malformed else RleRun(v, Min(count, RUN_CAP), start + vbytes)
  }

  function NextHead(data: seq<byte>, p: nat, w: nat): (h: Head)
    requires p <= |data|
    ensures h.RleRun? || h.PackedRun? ==> p < h.next <= |data|
    ensures h.PackedRun? ==> h.start + h.bytes <= |data|
  {
    if p == |data| then End
    else
      match Read(data, p, 64)
      case Value(h, next) => if h % 2 == 1 then PackedHead(data, next, h / 2, w) else RleHead(data, next, h / 2, w)
      case _ => Malformed
  }

  /** Values from, from + 1, ... of the bit-packed run in data[start..start + bytes]. */
  function RunFields(data: seq<byte>, start: nat, bytes: nat, w: nat, from: nat, count: nat): (vs: seq<nat>)
    requires start + bytes <= |data|
    ensures |vs| == count
  {
    var bits := data[start..start + bytes];
    seq<nat>(count, i requires 0 <= i < count => Field(bits, w, from + i))
  }

  function Repeat(v: nat, count: nat): (vs: seq<nat>)
    ensures |vs| == count
  {
    seq(count, i => v)
  }

  datatype Stream = Stream(values: seq<nat>, bad: bool)

  /** Every value from p on, and whether the stream ends in a malformed run. */
  function Decode(data: seq<byte>, p: nat, w: nat): (s: Stream)
    requires p <= |data|
    decreases |data| - p
  {
    match NextHead(data, p, w)
    case End => Stream([], false)
    case Malformed => Stream([], true)
    case RleRun(value, count, next) =>
      var rest := Decode(data, next, w);
      Stream(Repeat(value, count) + rest.values, rest.bad)
    case PackedRun(start, bytes, count, next) =>
      var rest := Decode(data, next, w);
      Stream(RunFields(data, start, bytes, w, 0, count) + rest.values, rest.bad)
  }

  /** n values of w bits fit in the bytes of a run. */
  ghost predicate RunFits(n: nat, w: nat, bytes: nat) {
    n * w <= 8 * bytes
  }

  /** The values of a bit-packed run never reach past its bytes. */
  lemma {:induction false} PackedHeadFits(data: seq<byte>, start: nat, groups: nat, w: nat)
    requires start <= |data|
    ensures var h := PackedHead(data, start, groups, w); RunFits(h.count, w, h.bytes)
  {
    var h := PackedHead(data, start, groups, w);
    if w > 0 {
      QuotientFits(h.count, h.bytes * 8, w);
    } else {
      assert h.count * w == 0;
    }
  }

  lemma {:induction false} QuotientFits(count: nat, n: nat, w: nat)
    requires w > 0 && count <= n / w
    ensures count * w <= n
  {
    MulMono(count, n / w, w);
  }

  // ------------------------------------------------------------------
  // The decoder
  // ------------------------------------------------------------------

  /** One run handed out whole: RLE, or packed bits with the first value at bitOffset. */
  datatype Run = Run(packed: bool, value: nat, count: nat, bits: seq<byte>, bitOffset: nat)

  function RunValues(r: Run, w: nat): (vs: seq<nat>)
  {
    if r.packed then seq(r.count, i requires 0 <= i < r.count => Bits(LeNat(r.bits), r.bitOffset + i * w, w))
    else Repeat(r.value, r.count)
  }

  class RleBpDecoder {
    const data: seq<byte>
    const width: nat
    var p: nat
    var ok: bool
    var rleValue: nat
    var rleLeft: nat
    var bpStart: nat
    var bpBytes: nat
    var bpPos: nat
    var bpLeft: nat

    ghost predicate Valid()
      reads this
    {
      && (ok ==> width <= 32)
      && p <= |data| && bpStart + bpBytes <= |data|
      && (rleLeft == 0 || bpLeft == 0)
      && (bpLeft > 0 ==> RunFits(bpPos + bpLeft, width, bpBytes))
    }

    /** The values still to come. */
    ghost function Remaining(): seq<nat>
      requires Valid()
      reads this
    {
      if !ok then []
      else
        Repeat(rleValue, rleLeft) + RunFields(data, bpStart, bpBytes, width, bpPos, bpLeft) + Decode(data, p, width).values
    }

    /** Whether the stream is, or turns out, malformed. */
    ghost predicate Bad()
      requires Valid()
      reads this
    {
      !ok || Decode(data, p, width).bad
    }

    constructor (data: seq<byte>, width: nat)
      ensures Valid() && this.data == data && this.width == width
      ensures width <= 32 ==> Remaining() == Decode(data, 0, width).values && Bad() == Decode(data, 0, width).bad
      ensures width > 32 ==> !ok
    {
      this.data, this.width := data, width;
      p, ok := 0, width <= 32;
      rleValue, rleLeft, bpStart, bpBytes, bpPos, bpLeft := 0, 0, 0, 0, 0, 0;
      new;
      assert width <= 32 ==> Remaining() == [] + [] + Decode(data, 0, width).values;
    }

    /** columnar.hpp:201-236: load the next run's header. */
    method NextHeader() returns (more: bool)
      requires Valid() && ok && rleLeft == 0 && bpLeft == 0
      modifies this
      ensures Valid() && Bad() == old(Bad())
      ensures more ==> ok && p > old(p) && Remaining() == old(Remaining())
      ensures !more ==> old(Remaining()) == [] && Remaining() == [] && ok == !Bad() && rleLeft == 0 && bpLeft == 0
      ensures p >= old(p)
    {
      hide PackedHead, RleHead, RunFields, Repeat;
      ghost var before := Decode(data, p, width);
      assert Remaining() == before.values by { NothingPending(); }
      if p >= |data| {
        return false;
      }
      var h := ReadUleb128(data, p, 64);
      if !h.Value? {
        ok := false;
        return false;
      }
      var count := h.v / 2;
      if h.v % 2 == 1 {
        LoadPacked(h.next, count);
      } else {
        more := LoadRle(h.next, count);
        if !more {
          return;
        }
      }
      return true;
    }

    lemma {:induction false} NothingPending()
      requires Valid() && ok && rleLeft == 0 && bpLeft == 0
      ensures Remaining() == Decode(data, p, width).values
    {
      assert Repeat(rleValue, 0) == [] && RunFields(data, bpStart, bpBytes, width, bpPos, 0) == [];
    }

    /** columnar.hpp:211-224. */
    method LoadPacked(start: nat, groups: nat)
      requires Valid() && ok && rleLeft == 0 && bpLeft == 0 && p < start <= |data|
      modifies this
      ensures Valid() && ok && p >= start
      ensures var h := PackedHead(data, start, groups, width);
              && Remaining() == RunFields(data, h.start, h.bytes, width, 0, h.count) + Decode(data, h.next, width).values
              && Bad() == Decode(data, h.next, width).bad
    {
      hide Decode, NextHead, Repeat, RunFields, RunFits;
      PackedHeadFits(data, start, groups, width);
      var avail := |data| - start;
      var want := if groups > avail then avail * width else groups * width;
      var runBytes := Min(want, avail);
      var claimed := (groups * 8) % 0x1_0000_0000_0000_0000;
      bpLeft := if width > 0 then Min(claimed, runBytes * 8 / width) else Min(claimed, RUN_CAP);
      bpStart, bpBytes, bpPos := start, runBytes, 0;
      p := start + runBytes;
      assert 0 + bpLeft == bpLeft;
      assert Repeat(rleValue, 0) == [] by { RepeatNone(rleValue); }
    }

    /** columnar.hpp:225-234. */
    method LoadRle(start: nat, count: nat) returns (more: bool)
      requires Valid() && ok && rleLeft == 0 && bpLeft == 0 && p < start <= |data|
      modifies this
      ensures Valid() && p >= old(p) && bpLeft == 0
      ensures more <==> RleHead(data, start, count, width).RleRun?
      ensures !more ==> RleHead(data, start, count, width).Malformed? && !ok && rleLeft == 0
      ensures var h := RleHead(data, start, count, width);
              more ==> && ok && p >= start
                       && Remaining() == Repeat(h.value, h.count) + Decode(data, h.next, width).values
                       && Bad() == Decode(data, h.next, width).bad
    {
      hide Decode, NextHead, Repeat, RunFields, LeNat;
      var vbytes := (width + 7) / 8;
      if |data| - start < vbytes {
        ok := false;
        return false;
      }
      var v := ReadLe(data, start, vbytes);
      if width < 32 && v >= Pow2(width) {
        ok := false;
        return false;
      }
      p := start + vbytes;
      rleValue := v;
      rleLeft := Min(count, RUN_CAP);
      more := true;
      ghost var none := RunFields(data, bpStart, bpBytes, width, bpPos, 0);
      assert none == [];
      assert Repeat(v, rleLeft) + none == Repeat(v, rleLeft);
    }

    /** columnar.hpp:238-265: whole groups straight into out, partial ones through a small buffer.
        The result of UnpackBits is not looked at: it is always true. */
    method TakeBitpacked(out: array<nat>, o: nat, n: nat) returns (done: nat)
      requires Valid() && ok && rleLeft == 0 && o + n <= out.Length
      modifies this, out
      ensures Valid() && ok && p == old(p) && rleLeft == 0 && Bad() == old(Bad())
      ensures done == Min(n, old(bpLeft)) && bpLeft == old(bpLeft) - done && done <= |old(Remaining())|
      ensures out[o..o + done] == old(Remaining())[..done]
      ensures forall k :: 0 <= k < out.Length && !(o <= k < o + done) ==> out[k] == old(out[k])
      ensures Remaining() == old(Remaining())[done..]
    {
      hide Decode, Field, RunFits, RunFields, Repeat;
      ghost var bits := data[bpStart..bpStart + bpBytes];
      ghost var left, pos0 := bpLeft, bpPos;
      done := 0;
      while done < n && bpLeft > 0
        invariant done <= n && done + bpLeft == left && bpPos == pos0 + done
        invariant p == old(p) && ok && rleLeft == 0 && bpStart == old(bpStart) && bpBytes == old(bpBytes)
        invariant bpLeft > 0 ==> RunFits(bpPos + bpLeft, width, bpBytes)
        invariant forall k :: o <= k < o + done ==> out[k] == Field(bits, width, pos0 + (k - o))
        invariant forall k :: 0 <= k < out.Length && !(o <= k < o + done) ==> out[k] == old(out[k])
      {
        var k := TakeSome(out, o + done, n - done, bits);
        done := done + k;
      }
      TakenValues(old(Remaining()), out[o..o + done], bits, pos0, left, done);
    }

    lemma {:induction false} TakenValues(before: seq<nat>, got: seq<nat>, bits: seq<byte>, pos0: nat, left: nat,
                                         done: nat)
      requires Valid() && ok && rleLeft == 0 && bits == data[bpStart..bpStart + bpBytes]
      requires |got| == done <= left && bpLeft == left - done && bpPos == pos0 + done
      requires before == RunFields(data, bpStart, bpBytes, width, pos0, left) + Decode(data, p, width).values
      requires forall i :: 0 <= i < done ==> got[i] == Field(bits, width, pos0 + i)
      ensures got == before[..done] && Remaining() == before[done..]
    {
      hide Decode, Field;
      var tail := Decode(data, p, width).values;
      assert Repeat(rleValue, 0) == [];
      assert RunFields(data, bpStart, bpBytes, width, pos0, left)[done..]
          == RunFields(data, bpStart, bpBytes, width, bpPos, bpLeft);
    }

    /** One turn of the loop. */
    method TakeSome(out: array<nat>, o: nat, n: nat, ghost bits: seq<byte>) returns (k: nat)
      requires Valid() && ok && bpLeft > 0 && n > 0 && o + n <= out.Length
      requires bits == data[bpStart..bpStart + bpBytes]
      modifies `bpPos, `bpLeft, out
      ensures 1 <= k <= n && k <= old(bpLeft) && bpPos == old(bpPos) + k && bpLeft == old(bpLeft) - k
      ensures forall i :: o <= i < o + k ==> out[i] == Field(bits, width, old(bpPos) + (i - o))
      ensures forall i :: 0 <= i < out.Length && !(o <= i < o + k) ==> out[i] == old(out[i])
    {
      hide Field, Decode, RunFits;
      var g := bpPos / 8;
      var groupByte := g * width;
      GroupStarts(bpPos, bpLeft, width, bpBytes);
      var input := data[bpStart + groupByte..bpStart + bpBytes];
      assert input == bits[groupByte..];
      if bpPos % 8 == 0 && n >= 8 && bpLeft >= 8 {
        k := Min(n, bpLeft) / 8 * 8;
        EnoughBytes(bpPos, bpLeft, width, bpBytes, g, k);
        TakeWhole(input, width, out, o, k, bits, g, groupByte);
      } else {
        k := Min(Min(8, bpLeft + bpPos % 8) - bpPos % 8, n);
        TakePartial(input, width, out, o, k, bpPos % 8, bits, g, groupByte);
      }
      bpPos := bpPos + k;
      bpLeft := bpLeft - k;
    }

    /** One turn of Get's loop: a piece of the current run, or the next run's header. */
    method GetStep(out: array<nat>, o: nat, n: nat) returns (k: nat, more: bool)
      requires Valid() && ok && n > 0 && o + n <= out.Length
      modifies this, out
      ensures Valid() && Bad() == old(Bad())
      ensures k <= n && k <= |old(Remaining())|
      ensures out[o..o + k] == old(Remaining())[..k] && Remaining() == old(Remaining())[k..]
      ensures forall i :: 0 <= i < out.Length && !(o <= i < o + k) ==> out[i] == old(out[i])
      ensures p <= |data| && (more ==> ok && p >= old(p) && (k > 0 || p > old(p)))
      ensures !more ==> k == 0 && old(Remaining()) == [] && ok == !Bad()
    {
      hide Remaining, Bad;
      k, more := 0, true;
      if rleLeft > 0 {
        k := FillRle(out, o, n);
      } else if bpLeft > 0 {
        k := TakeBitpacked(out, o, n);
      } else {
        more := NextHeader();
      }
    }

    /** columnar.hpp:135-150. */
    method Get(out: array<nat>, o: nat, n: nat) returns (done: nat)
      requires Valid() && o + n <= out.Length
      modifies this, out
      ensures Valid() && Bad() == old(Bad())
      ensures done == Min(n, |old(Remaining())|)
      ensures out[o..o + done] == old(Remaining())[..done] && Remaining() == old(Remaining())[done..]
      ensures forall k :: 0 <= k < out.Length && !(o <= k < o + done) ==> out[k] == old(out[k])
      ensures done == n ==> ok == old(ok)
      ensures done < n ==> ok == !Bad()
    {
      hide Remaining, Bad, Valid;
      ghost var all := Remaining();
      OkMeans();
      done := 0;
      while done < n && ok
        invariant Valid() && Bad() == old(Bad())
        invariant done <= n && done <= |all| && Remaining() == all[done..]
        invariant out[o..o + done] == all[..done]
        invariant forall k :: 0 <= k < out.Length && !(o <= k < o + done) ==> out[k] == old(out[k])
        invariant ok == old(ok) && p <= |data|
        decreases n - done, |data| - p
      {
        var k, more := GetStep(out, o + done, n - done);
        if !more {
          return;
        }
        Joined(all, out[o..o + done + k], done, k);
        done := done + k;
      }
    }

    lemma {:induction false} OkMeans()
      requires Valid()
      ensures p <= |data| && (!ok ==> Remaining() == [] && Bad())
    {
    }

    /** columnar.hpp:138-142. */
    method FillRle(out: array<nat>, o: nat, n: nat) returns (k: nat)
      requires Valid() && ok && rleLeft > 0 && o + n <= out.Length
      modifies this, out
      ensures Valid() && ok && p == old(p) && Bad() == old(Bad())
      ensures k == Min(n, old(rleLeft)) && k <= |old(Remaining())|
      ensures out[o..o + k] == old(Remaining())[..k] && Remaining() == old(Remaining())[k..]
      ensures forall i :: 0 <= i < out.Length && !(o <= i < o + k) ==> out[i] == old(out[i])
    {
      hide Decode, RunFields;
      ghost var rest := RunFields(data, bpStart, bpBytes, width, bpPos, bpLeft) + Decode(data, p, width).values;
      ghost var left := rleLeft;
      assert Remaining() == Repeat(rleValue, left) + rest;
      k := Min(rleLeft, n);
      forall i | o <= i < o + k {
        out[i] := rleValue;
      }
      rleLeft := rleLeft - k;
      assert Remaining() == Repeat(rleValue, left - k) + rest;
      assert Repeat(rleValue, left) == Repeat(rleValue, k) + Repeat(rleValue, left - k);
      assert (Repeat(rleValue, left) + rest)[..k] == Repeat(rleValue, k);
      assert (Repeat(rleValue, left) + rest)[k..] == Repeat(rleValue, left - k) + rest;
    }

    /** columnar.hpp:164-186: the next run, cut to at most max values; none at the end of the data. */
    method NextRun(max: nat) returns (r: Option<Run>)
      requires Valid()
      modifies this
      ensures Valid() && Bad() == old(Bad())
      ensures r.None? <==> max == 0 || old(Remaining()) == []
      ensures r.None? && max > 0 ==> ok == !Bad()
      ensures r.None? ==> Remaining() == old(Remaining())
      ensures r.Some? ==> 1 <= r.value.count <= max && r.value.count <= |old(Remaining())|
                          && RunValues(r.value, width) == old(Remaining())[..r.value.count]
                          && Remaining() == old(Remaining())[r.value.count..]
    {
      hide Decode, RunFields;
      ghost var all := Remaining();
      while ok && max > 0
        invariant Valid() && Bad() == old(Bad()) && Remaining() == all && ok == old(ok)
        decreases |data| - p
      {
        if rleLeft > 0 {
          var run := CutRle(max);
          return Some(run);
        }
        if bpLeft > 0 {
          var run := CutPacked(max);
          return Some(run);
        }
        var more := NextHeader();
        if !more {
          return None;
        }
      }
      return None;
    }

    method CutRle(max: nat) returns (r: Run)
      requires Valid() && ok && rleLeft > 0 && max > 0
      modifies this
      ensures Valid() && Bad() == old(Bad())
      ensures 1 <= r.count <= max && r.count <= |old(Remaining())|
      ensures RunValues(r, width) == old(Remaining())[..r.count] && Remaining() == old(Remaining())[r.count..]
    {
      hide Decode, RunFields;
      ghost var rest := RunFields(data, bpStart, bpBytes, width, bpPos, bpLeft) + Decode(data, p, width).values;
      ghost var left := rleLeft;
      var count := Min(rleLeft, max);
      assert Remaining() == Repeat(rleValue, left) + rest;
      rleLeft := rleLeft - count;
      assert Remaining() == Repeat(rleValue, left - count) + rest;
      assert (Repeat(rleValue, left) + rest)[..count] == Repeat(rleValue, count);
      assert (Repeat(rleValue, left) + rest)[count..] == Repeat(rleValue, left - count) + rest;
      r := Run(false, rleValue, count, [], 0);
    }

    method CutPacked(max: nat) returns (r: Run)
      requires Valid() && ok && bpLeft > 0 && max > 0
      modifies this
      ensures Valid() && Bad() == old(Bad())
      ensures 1 <= r.count <= max && r.count <= |old(Remaining())|
      ensures RunValues(r, width) == old(Remaining())[..r.count] && Remaining() == old(Remaining())[r.count..]
    {
      hide Decode, Field, RunValues, RunFits;
      ghost var bits := data[bpStart..bpStart + bpBytes];
      ghost var left, pos0 := bpLeft, bpPos;
      ghost var before := Remaining();
      assert before == RunFields(data, bpStart, bpBytes, width, pos0, left) + Decode(data, p, width).values by {
        assert Repeat(rleValue, 0) == [];
      }
      var count := Min(bpLeft, max);
      r := PackedView(data[bpStart..bpStart + bpBytes], width, bpPos, bpLeft, count);
      bpPos := bpPos + count;
      bpLeft := bpLeft - count;
      assert bpPos + bpLeft == pos0 + left;
      TakenValues(before, RunValues(r, width), bits, pos0, left, count);
    }

    /** columnar.hpp:189-198. */
    method Skip(n: nat) returns (done: nat)
      requires Valid()
      modifies this
      ensures Valid() && Bad() == old(Bad())
      ensures done == Min(n, |old(Remaining())|) && Remaining() == old(Remaining())[done..]
    {
      hide Decode, RunFields, Repeat;
      ghost var all := Remaining();
      var buf := new nat[256];
      done := 0;
      while done < n
        invariant Valid() && Bad() == old(Bad())
        invariant done <= n && done <= |all| && Remaining() == all[done..]
      {
        var k := Get(buf, 0, Min(256, n - done));
        if k == 0 {
          break;
        }
        done := done + k;
      }
    }
  }

  /** columnar.hpp:246-251: k values of whole groups, from group g of the run on. */
  method TakeWhole(input: seq<byte>, w: nat, out: array<nat>, o: nat, k: nat,
                   ghost bits: seq<byte>, ghost g: nat, ghost at: nat)
    requires w <= 32 && o + k <= out.Length && |input| >= CeilDiv8(k * w)
    requires at == g * w && at <= |bits| && input == bits[at..]
    modifies out
    ensures forall i :: o <= i < o + k ==> out[i] == Field(bits, w, 8 * g + (i - o))
    ensures forall i :: 0 <= i < out.Length && !(o <= i < o + k) ==> out[i] == old(out[i])
  {
    hide Field;
    var unpacked := UnpackBits(input, w, 32, out, o, k);
    assert unpacked;
    forall i | o <= i < o + k ensures out[i] == Field(bits, w, 8 * g + (i - o)) {
      assert out[i] == out[o..o + k][i - o] == Field(input, w, i - o);
      SuffixField(bits, w, g, i - o, at);
    }
  }

  /** columnar.hpp:252-262: k values from inside group g. */
  method TakePartial(input: seq<byte>, w: nat, out: array<nat>, o: nat, k: nat, inGroup: nat,
                     ghost bits: seq<byte>, ghost g: nat, ghost at: nat)
    requires w <= 32 && o + k <= out.Length && inGroup + k <= 8
    requires at == g * w && at <= |bits| && input == bits[at..]
    modifies out
    ensures forall i :: o <= i < o + k ==> out[i] == Field(bits, w, 8 * g + inGroup + (i - o))
    ensures forall i :: 0 <= i < out.Length && !(o <= i < o + k) ==> out[i] == old(out[i])
  {
    hide Field;
    var tmp := new nat[8];
    UnpackGroups(input, w, tmp, 0, 1);
    for i := 0 to k
      invariant forall j :: 0 <= j < 8 ==> tmp[j] == Field(input, w, j)
      invariant forall j :: o <= j < o + i ==> out[j] == Field(bits, w, 8 * g + inGroup + (j - o))
      invariant forall j :: 0 <= j < out.Length && !(o <= j < o + i) ==> out[j] == old(out[j])
    {
      out[o + i] := tmp[inGroup + i];
      SuffixField(bits, w, g, inGroup + i, at);
    }
  }

  /** The run handed out whole shows the fields it covers. */
  lemma {:induction false} RunIsFields(r: Run, bits: seq<byte>, w: nat, pos: nat, bit: nat)
    requires r.packed && bit == pos * w && bit / 8 <= |bits| && r.bits == bits[bit / 8..] && r.bitOffset == bit % 8
    ensures |RunValues(r, w)| == r.count
    ensures forall i :: 0 <= i < r.count ==> RunValues(r, w)[i] == Field(bits, w, pos + i)
  {
    hide Bits, LeNat;
    forall i | 0 <= i < r.count ensures RunValues(r, w)[i] == Field(bits, w, pos + i) {
      BitsOfSuffix(bits, bit / 8, bit % 8 + i * w, w);
      assert (pos + i) * w == bit + i * w;
    }
  }

  /** columnar.hpp:176-178. */
  method PackedView(bits: seq<byte>, w: nat, pos: nat, left: nat, count: nat) returns (r: Run)
    requires left > 0 && RunFits(pos + left, w, |bits|)
    ensures r.count == count && |RunValues(r, w)| == count
    ensures forall i :: 0 <= i < count ==> RunValues(r, w)[i] == Field(bits, w, pos + i)
  {
    hide RunFits, RunValues, Field;
    var bit := pos * w;
    BitInRun(pos, left, w, |bits|);
    r := Run(true, 0, count, bits[bit / 8..], bit % 8);
    RunIsFields(r, bits, w, pos, bit);
  }

  // ------------------------------------------------------------------
  // Small facts the decoder needs
  // ------------------------------------------------------------------

  lemma {:induction false} Joined(all: seq<nat>, got: seq<nat>, done: nat, k: nat)
    requires done + k <= |all| && |got| == done + k
    requires got[..done] == all[..done] && got[done..] == all[done..][..k]
    ensures got == all[..done + k] && all[done..][k..] == all[done + k..]
  {
    assert got == got[..done] + got[done..];
    assert all[..done + k] == all[..done] + all[done..][..k];
  }

  lemma {:induction false} RepeatNone(v: nat)
    ensures Repeat(v, 0) == []
  {
  }

  method ReadLe(data: seq<byte>, start: nat, n: nat) returns (v: nat)
    requires start + n <= |data|
    ensures v == LeNat(data[start..start + n])
  {
    v := 0;
    for i := 0 to n
      invariant v == LeNat(data[start..start + i])
    {
      assert data[start..start + i + 1] == data[start..start + i] + [data[start + i]];
      LeNatConcat(data[start..start + i], [data[start + i]]);
      LeNatSingle(data[start + i]);
      v := v + Pow2(8 * i) * data[start + i];
    }
  }

  lemma {:induction false} SuffixField(bits: seq<byte>, w: nat, g: nat, i: nat, at: nat)
    requires at == g * w && at <= |bits|
    ensures Field(bits[at..], w, i) == Field(bits, w, 8 * g + i)
  {
    hide Bits, LeNat;
    GroupBit(g, i, w);
    BitsOfSuffix(bits, at, i * w, w);
  }

  lemma {:induction false} GroupStarts(pos: nat, left: nat, w: nat, bytes: nat)
    requires left > 0 && RunFits(pos + left, w, bytes)
    ensures pos / 8 * w <= bytes
  {
    var g := pos / 8;
    MulMono(8 * g, pos + left, w);
    assert (8 * g) * w == 8 * (g * w);
  }

  lemma {:induction false} EnoughBytes(pos: nat, left: nat, w: nat, bytes: nat, g: nat, k: nat)
    requires pos == 8 * g && k <= left && RunFits(pos + left, w, bytes) && g * w <= bytes
    ensures CeilDiv8(k * w) <= bytes - g * w
  {
    MulMono(pos + k, pos + left, w);
    assert (pos + k) * w == 8 * (g * w) + k * w;
  }

  lemma {:induction false} BitInRun(pos: nat, left: nat, w: nat, bytes: nat)
    requires left > 0 && RunFits(pos + left, w, bytes)
    ensures pos * w / 8 <= bytes
  {
    MulMono(pos, pos + left, w);
  }
}
