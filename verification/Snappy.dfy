/** Snappy raw blocks: include/nanom/codec.hpp, section 30.

    The reference decoder parses one element at a time and checks every length; the decoder proper
    takes branch-free fast steps, copies fixed 16-byte chunks and overshoots. Both return the same
    status on every input, and the same bytes on success. */
module Snappy {
  import opened Bytes
  import opened Leb128
  import opened Lz77

  datatype Error =
    | BadPreamble
    | LengthMismatch
    | TruncatedLiteralLength
    | LiteralPastInput
    | LiteralOverflow
    | TruncatedCopy
    | BadOffset
    | CopyOverflow
    | OutputShort

  datatype Status = Ok(size: nat) | Err(error: Error, at: nat)

  // ------------------------------------------------------------------
  // The reference decoder
  // ------------------------------------------------------------------

  datatype Element = Literal(bytes: seq<byte>) | Copy(offset: nat, len: nat)

  datatype Parsed =
    | Elem(e: Element, at: nat, next: nat)  // at: where an output-side error is reported
    | Bad(error: Error, at: nat)

  function ParseLiteral(input: seq<byte>, p: nat, len: nat): (r: Parsed)
    requires p <= |input|
  {
    if |input| - p < len then Bad(LiteralPastInput, p)
    else Elem(Literal(input[p..p + len]), p, p + len)
  }

  function ParseCopy(input: seq<byte>, p: nat, high: nat, extra: nat, len: nat): (r: Parsed)
    requires p <= |input|
  {
    if |input| - p < extra then Bad(TruncatedCopy, p)
    else Elem(Copy(high + LeNat(input[p..p + extra]), len), p + extra, p + extra)
  }

  /** The element at input[ip..], every length checked against the input. */
  function Next(input: seq<byte>, ip: nat): (r: Parsed)
    requires ip < |input|
    ensures r.Elem? ==> ip < r.next <= |input|
  {
    var tag: int := input[ip];
    var p := ip + 1;
    if tag % 4 == 0 then
      var len := tag / 4 + 1;
      if len <= 60 then ParseLiteral(input, p, len)
      else if |input| - p < len - 60 then Bad(TruncatedLiteralLength, p)
      else ParseLiteral(input, p + len - 60, LeNat(input[p..p + len - 60]) + 1)
    else if tag % 4 == 1 then ParseCopy(input, p, tag / 32 * 256, 1, tag / 4 % 8 + 4)
    else if tag % 4 == 2 then ParseCopy(input, p, 0, 2, tag / 4 + 1)
    else ParseCopy(input, p, 0, 4, tag / 4 + 1)
  }

  datatype Applied = Out(out: seq<byte>) | Refused(error: Error)

  /** One element against an output of n bytes. */
  function Apply(out: seq<byte>, n: nat, e: Element): (r: Applied)
    requires |out| <= n
    ensures r.Out? ==> |r.out| <= n
  {
    match e
    case Literal(bytes) => if n - |out| < |bytes| then Refused(LiteralOverflow) else Out(out + bytes)
    case Copy(offset, len) =>
      if offset == 0 || offset > |out| then Refused(BadOffset)
      else if n - |out| < len then Refused(CopyOverflow)
      else Out(Copied(out, offset, len))
  }

  datatype Decoding = Decoded(out: seq<byte>) | Failed(error: Error, at: nat)

  function Run(input: seq<byte>, ip: nat, out: seq<byte>, n: nat): (r: Decoding)
    requires ip <= |input| && |out| <= n
    ensures r.Decoded? ==> |r.out| == n
    decreases |input| - ip
  {
    if ip == |input| then
      if |out| == n then Decoded(out) else Failed(OutputShort, ip)
    else
      match Next(input, ip)
      case Bad(error, at) => Failed(error, at)
      case Elem(e, at, next) =>
        match Apply(out, n, e)
        case Refused(error) => Failed(error, at)
        case Out(o) => Run(input, next, o, n)
  }

  /** The whole block into exactly n bytes. */
  function Reference(input: seq<byte>, n: nat): (r: Decoding)
    ensures r.Decoded? ==> |r.out| == n
  {
    match Read(input, 0, 32)
    case Value(v, next) => if v != n then Failed(LengthMismatch, 0) else Run(input, next, [], n)
    case _ => Failed(BadPreamble, 0)
  }

  // ------------------------------------------------------------------
  // The tag table
  // ------------------------------------------------------------------

  /** Element length (bits 0-7), copy-1 offset bits (8-10), extra bytes (11-13);
      a literal with a length suffix is marked with length 0 (codec.hpp:88-101). */
  function TagEntry(tag: byte): (entry: nat)
  {
    if tag % 4 == 0 then (if tag / 4 + 1 > 60 then 0 else tag / 4 + 1)
    else if tag % 4 == 1 then (tag / 4 % 8 + 4) + (tag / 32) * 256 + 1 * 2048
    else if tag % 4 == 2 then (tag / 4 + 1) + 2 * 2048
    else (tag / 4 + 1) + 4 * 2048
  }

  function EntryLen(entry: nat): nat {
    entry % 256
  }

  function EntryHigh(entry: nat): nat {
    entry / 256 % 8 * 256
  }

  function EntryExtra(entry: nat): nat {
    entry / 2048
  }

  lemma {:induction false} EntryFields(tag: byte)
    requires tag % 4 != 0
    ensures EntryExtra(TagEntry(tag)) == (if tag % 4 == 3 then 4 else tag % 4)
    ensures EntryHigh(TagEntry(tag)) == if tag % 4 == 1 then tag as int / 32 * 256 else 0
    ensures EntryLen(TagEntry(tag)) == if tag % 4 == 1 then tag / 4 % 8 + 4 else tag / 4 + 1
  {
  }

  function FastOffset(input: seq<byte>, ip: nat): (offset: nat)
    requires ip + 5 <= |input|
  {
    var entry := TagEntry(input[ip]);
    EntryHigh(entry) + LeNat(input[ip + 1..ip + 5]) % Pow2(8 * EntryExtra(entry))
  }

  /** The fields a fast step takes from the table and one masked 4-byte load are the element's. */
  lemma {:induction false} FastFields(input: seq<byte>, ip: nat)
    requires ip + 5 <= |input| && input[ip] % 4 != 0
    ensures var entry := TagEntry(input[ip]);
            var next := ip + 1 + EntryExtra(entry);
            && 1 <= EntryLen(entry) <= 64
            && next <= |input|
            && Next(input, ip) == Elem(Copy(FastOffset(input, ip), EntryLen(entry)), next, next)
  {
    EntryFields(input[ip]);
    var extra := EntryExtra(TagEntry(input[ip]));
    LeNatDrop(input[ip + 1..ip + 5], extra);
    assert input[ip + 1..ip + 5][..extra] == input[ip + 1..ip + 1 + extra];
  }

  // ------------------------------------------------------------------
  // The decoder
  // ------------------------------------------------------------------

  /** A literal or a copy carried out as Apply says leaves the rest of the run to do. */
  lemma {:induction false} RunLiteral(input: seq<byte>, ip: nat, at: nat, next: nat, out: seq<byte>, r: seq<byte>,
                                      n: nat)
    requires ip < |input| && at <= next <= |input|
    requires Next(input, ip) == Elem(Literal(input[at..next]), at, next)
    requires r == out + input[at..next] && |r| <= n
    ensures Run(input, next, r, n) == Run(input, ip, out, n)
  {
  }

  lemma {:induction false} RunCopy(input: seq<byte>, ip: nat, next: nat, out: seq<byte>, r: seq<byte>, n: nat,
                                   offset: nat, len: nat)
    requires ip < next <= |input| && Next(input, ip) == Elem(Copy(offset, len), next, next)
    requires 1 <= offset <= |out| && |out| + len <= n && r == Copied(out, offset, len)
    ensures Run(input, next, r, n) == Run(input, ip, out, n)
  {
  }

  /** The two 8-byte moves of a short literal (codec.hpp:149-153). */
  method FastLiteral(input: seq<byte>, ip: nat, out: array<byte>, op: nat, len: nat) returns (ip': nat, op': nat)
    requires ip + 16 < |input| && op + 80 < out.Length
    requires input[ip] % 4 == 0 && 1 <= len == input[ip] / 4 + 1 <= 16
    modifies out
    ensures ip < ip' <= |input| && op' <= out.Length
    ensures Run(input, ip', out[..op'], out.Length) == Run(input, ip, old(out[..op]), out.Length)
  {
    ghost var before := out[..op];
    CopyFrom(out, op, input, ip + 1, 8);
    CopyFrom(out, op + 8, input, ip + 9, 8);
    assert out[..op + len] == before + input[ip + 1..ip + 1 + len];
    ip', op' := ip + (input[ip] / 4 + 2), op + len;
    RunLiteral(input, ip, ip + 1, ip', before, out[..op'], out.Length);
  }

  /** The same two moves for a copy from at least 8 back: the second reads only final bytes. */
  method FastCopy(input: seq<byte>, ip: nat, next: nat, out: array<byte>, op: nat, offset: nat, len: nat)
    returns (ip': nat, op': nat)
    requires ip < next <= |input| && op + 80 < out.Length
    requires Next(input, ip) == Elem(Copy(offset, len), next, next) && len <= 16
    requires 8 <= offset <= op
    modifies out
    ensures ip < ip' <= |input| && op' <= out.Length
    ensures Run(input, ip', out[..op'], out.Length) == Run(input, ip, old(out[..op]), out.Length)
  {
    ghost var before := out[..];
    CopyWithin(out, op, op - offset, 8);
    CopyWithin(out, op + 8, op + 8 - offset, 8);
    assert CopyDone(before, out[..], op, offset, len, 16);
    CopyDoneIsCopied(before, out[..], op, offset, len, 16);
    ip', op' := next, op + len;
    RunCopy(input, ip, ip', before[..op], out[..op'], out.Length, offset, len);
  }

  /** The copy the branch-free step does not cover (codec.hpp:156-162). */
  method FastLongCopy(input: seq<byte>, ip: nat, next: nat, out: array<byte>, op: nat, offset: nat, len: nat)
    returns (ip': nat, op': nat)
    requires ip < next <= |input| && op + 80 < out.Length
    requires Next(input, ip) == Elem(Copy(offset, len), next, next) && len <= 64
    requires 1 <= offset <= op
    modifies out
    ensures ip < ip' <= |input| && op' <= out.Length
    ensures Run(input, ip', out[..op'], out.Length) == Run(input, ip, old(out[..op]), out.Length)
  {
    ghost var before := out[..];
    CopyMatchWild(out, op, offset, len);
    CopyDoneIsCopied(before, out[..], op, offset, len, 15);
    ip', op' := next, op + len;
    RunCopy(input, ip, ip', before[..op], out[..op'], out.Length, offset, len);
  }

  /** The table lookup and the masked load (codec.hpp:140-142). */
  method FastLookup(input: seq<byte>, ip: nat) returns (len: nat, extra: nat, offset: nat)
    requires ip + 16 < |input|
    ensures len <= 255 && extra <= 4 && offset < 0x2_0000_0000
    ensures input[ip] % 4 == 0 && len >= 1 ==> len == input[ip] / 4 + 1
    ensures input[ip] % 4 in {1, 2} ==> extra == input[ip] % 4
    ensures input[ip] % 4 != 0 ==> Next(input, ip) == Elem(Copy(offset, len), ip + 1 + extra, ip + 1 + extra)
  {
    var entry := TagEntry(input[ip]);
    len, extra, offset := EntryLen(entry), EntryExtra(entry), FastOffset(input, ip);
    OffsetBound(input[ip + 1..ip + 5], entry);
    if input[ip] % 4 != 0 {
      EntryFields(input[ip]);
      FastFields(input, ip);
    }
  }

  datatype Plan = ShortLiteral | ShortCopy | LongCopy | Exact

  /** Which way the fast path goes (codec.hpp:147-163); the subtractions are unsigned and wrap. */
  function FastPlan(tag: byte, len: nat, offset: nat, produced: nat): (plan: Plan)
    requires len <= 255 && offset < 0x2_0000_0000 && produced < 0x1_0000_0000
    ensures plan.ShortLiteral? <==> tag % 4 == 0 && 1 <= len <= 16
    ensures plan.ShortCopy? ==> tag % 4 in {1, 2} && 1 <= len <= 16 && 8 <= offset <= produced
    ensures plan.LongCopy? ==> tag % 4 != 0 && len <= 64 && 1 <= offset <= produced
  {
    var lit := tag % 4 == 0;
    var slow := Sub64(len, 1) >= 16 || tag % 4 == 3 || (!lit && (offset < 8 || offset > produced));
    if !slow then (if lit then ShortLiteral else ShortCopy)
    else if !lit && len <= 64 && Sub64(offset, 1) < produced then LongCopy
    else Exact
  }

  /** The fast path for one element (codec.hpp:134-164). Not taken: nothing written. */
  method FastStep(input: seq<byte>, ip: nat, out: array<byte>, op: nat) returns (taken: bool, ip': nat, op': nat)
    requires ip + 16 < |input| && op + 80 < out.Length < 0x1_0000_0000
    modifies out
    ensures !taken ==> out[..] == old(out[..]) && ip' == ip && op' == op
    ensures taken ==> ip < ip' <= |input| && op' <= out.Length
    ensures taken ==> Run(input, ip', out[..op'], out.Length) == Run(input, ip, old(out[..op]), out.Length)
  {
    var tag: int := input[ip];
    var len, extra, offset := FastLookup(input, ip);
    taken, ip', op' := true, ip, op;
    match FastPlan(tag, len, offset, op)
    case ShortLiteral =>
      ip', op' := FastLiteral(input, ip, out, op, len);
    case ShortCopy =>
      ip', op' := FastCopy(input, ip, ip + (tag % 4 + 1), out, op, offset, len);
    case LongCopy =>
      ip', op' := FastLongCopy(input, ip, ip + 1 + extra, out, op, offset, len);
    case Exact =>
      taken := false;
  }

  lemma {:induction false} OffsetBound(word: seq<byte>, entry: nat)
    requires |word| == 4
    ensures EntryHigh(entry) + LeNat(word) % Pow2(8 * EntryExtra(entry)) < 0x2_0000_0000
  {
    LeNatBound(word);
    Pow2Values();
    assert LeNat(word) % Pow2(8 * EntryExtra(entry)) <= LeNat(word) by {
      ModLe(LeNat(word), Pow2(8 * EntryExtra(entry)));
    }
  }

  lemma {:induction false} ModLe(n: nat, d: nat)
    requires d > 0
    ensures n % d <= n
  {
    if n < d {
      DivModUnique(n, d, 0, n);
    }
  }

  /** codec.hpp:169-174: 1..4 little-endian length bytes, accumulated by shifts. */
  method LiteralLength(input: seq<byte>, p: nat, nb: nat) returns (len: nat)
    requires p + nb <= |input|
    ensures len == LeNat(input[p..p + nb]) + 1
  {
    len := 0;
    for i := 0 to nb
      invariant len == LeNat(input[p..p + i])
    {
      assert input[p..p + i + 1] == input[p..p + i] + [input[p + i]];
      LeNatConcat(input[p..p + i], [input[p + i]]);
      len := len + input[p + i] * Pow2(8 * i);
    }
    len := len + 1;
  }

  /** One element on the exact path (codec.hpp:165-211): the literal half. */
  method ExactLiteral(input: seq<byte>, ip: nat, out: array<byte>, op: nat)
    returns (error: Option<(Error, nat)>, ip': nat, op': nat)
    requires ip < |input| && op <= out.Length && input[ip] % 4 == 0
    modifies out
    ensures error.None? ==> ip < ip' <= |input| && op' <= out.Length
    ensures error.None? ==>
              Run(input, ip', out[..op'], out.Length) == Run(input, ip, old(out[..op]), out.Length)
    ensures error.Some? ==>
              Run(input, ip, old(out[..op]), out.Length) == Failed(error.value.0, error.value.1)
  {
    var p := ip + 1;
    var len := input[ip] / 4 + 1;
    if len > 60 {
      var nb := len - 60;
      if |input| - p < nb {
        return Some((TruncatedLiteralLength, p)), ip, op;
      }
      len := LiteralLength(input, p, nb);
      p := p + nb;
    }
    assert Next(input, ip) == ParseLiteral(input, p, len);
    if |input| - p < len {
      return Some((LiteralPastInput, p)), ip, op;
    }
    if out.Length - op < len {
      return Some((LiteralOverflow, p)), ip, op;
    }
    ghost var before := out[..];
    CopyFrom(out, op, input, p, len);
    assert out[..op + len] == before[..op] + input[p..p + len];
    ip', op' := p + len, op + len;
    RunLiteral(input, ip, p, ip', before[..op], out[..op'], out.Length);
    error := None;
  }

  /** codec.hpp:183-203: the copy's fields, or why they cannot be read. */
  method CopyFields(input: seq<byte>, ip: nat) returns (ok: bool, len: nat, offset: nat, p: nat)
    requires ip < |input| && input[ip] % 4 != 0
    ensures Next(input, ip) == if ok then Elem(Copy(offset, len), p, p) else Bad(TruncatedCopy, p)
  {
    var tag: int := input[ip];
    p := ip + 1;
    var extra := if tag % 4 == 3 then 4 else tag % 4;
    len, offset := 0, 0;
    if |input| - p < extra {
      return false, len, offset, p;
    }
    SmallLeNat(input, p, extra);
    if tag % 4 == 1 {
      len := tag / 4 % 8 + 4;
      offset := tag / 32 * 256 + input[p];
    } else if tag % 4 == 2 {
      len := tag / 4 + 1;
      offset := input[p] + 256 * input[p + 1] as int;
    } else {
      len := tag / 4 + 1;
      offset := input[p] + 256 * input[p + 1] as int + 0x1_0000 * input[p + 2] as int
                + 0x100_0000 * input[p + 3] as int;
    }
    return true, len, offset, p + extra;
  }

  /** ... and the copy half. */
  method ExactCopy(input: seq<byte>, ip: nat, out: array<byte>, op: nat)
    returns (error: Option<(Error, nat)>, ip': nat, op': nat)
    requires ip < |input| && op <= out.Length && input[ip] % 4 != 0
    modifies out
    ensures error.None? ==> ip < ip' <= |input| && op' <= out.Length
    ensures error.None? ==>
              Run(input, ip', out[..op'], out.Length) == Run(input, ip, old(out[..op]), out.Length)
    ensures error.Some? ==>
              Run(input, ip, old(out[..op]), out.Length) == Failed(error.value.0, error.value.1)
  {
    var ok, len, offset, p := CopyFields(input, ip);
    if !ok {
      return Some((TruncatedCopy, p)), ip, op;
    }
    if offset == 0 || offset > op {
      return Some((BadOffset, p)), ip, op;
    }
    ghost var before := out[..];
    if out.Length - op >= len + 16 {
      CopyMatchWild(out, op, offset, len);
      CopyDoneIsCopied(before, out[..], op, offset, len, 15);
    } else {
      if out.Length - op < len {
        return Some((CopyOverflow, p)), ip, op;
      }
      CopyMatch(out, op, offset, len);
      CopyDoneIsCopied(before, out[..], op, offset, len, 0);
    }
    ip', op' := p, op + len;
    RunCopy(input, ip, ip', before[..op], out[..op'], out.Length, offset, len);
    error := None;
  }

  lemma {:induction false} LeNatHead(s: seq<byte>, p: nat, n: nat)
    requires p + n <= |s|
    ensures LeNat(s[p..p + n]) == if n == 0 then 0 else s[p] + 256 * LeNat(s[p + 1..p + n])
  {
    if n > 0 {
      assert s[p..p + n][1..] == s[p + 1..p + n];
    }
  }

  lemma {:induction false} SmallLeNat(s: seq<byte>, p: nat, n: nat)
    requires p + n <= |s| && n in {1, 2, 4}
    ensures n == 1 ==> LeNat(s[p..p + n]) == s[p]
    ensures n == 2 ==> LeNat(s[p..p + n]) == s[p] as int + 256 * s[p + 1] as int
    ensures n == 4 ==> LeNat(s[p..p + n]) == s[p] as int + 256 * s[p + 1] as int
                                             + 0x1_0000 * s[p + 2] as int + 0x100_0000 * s[p + 3] as int
  {
    LeNatHead(s, p, n);
    LeNatHead(s, p + 1, n - 1);
    if n >= 2 {
      LeNatHead(s, p + 2, n - 2);
    }
    if n == 4 {
      LeNatHead(s, p + 3, n - 3);
      LeNatHead(s, p + 4, n - 4);
    }
  }

  /** The status and, on success, the bytes of the reference decoder. */
  ghost predicate Agrees(st: Status, out: seq<byte>, r: Decoding) {
    match r
    case Decoded(o) => st == Ok(|o|) && out == o
    case Failed(error, at) => st == Err(error, at)
  }

  /** codec.hpp:113-215. */
  method Decompress(input: seq<byte>, out: array<byte>) returns (st: Status)
    modifies out
    ensures Agrees(st, out[..], Reference(input, out.Length))
  {
    var pre := ReadUleb128(input, 0, 32);
    if !pre.Value? {
      return Err(BadPreamble, 0);
    }
    if pre.v != out.Length {
      return Err(LengthMismatch, 0);
    }
    Pow2Values();
    var n := out.Length;
    var ip: nat, op: nat := pre.next, 0;
    var ipFast := if |input| >= 16 then |input| - 16 else 0;
    var opFast := if n >= 80 then n - 80 else 0;
    assert out[..0] == [];
    while ip < |input|
      invariant ip <= |input| && op <= n
      invariant Run(input, ip, out[..op], n) == Reference(input, n)
    {
      if ip < ipFast && op < opFast {
        var taken, ip', op' := FastStep(input, ip, out, op);
        ip, op := ip', op';
        if taken {
          continue;
        }
      }
      var error, ip', op';
      if input[ip] % 4 == 0 {
        error, ip', op' := ExactLiteral(input, ip, out, op);
      } else {
        error, ip', op' := ExactCopy(input, ip, out, op);
      }
      if error.Some? {
        return Err(error.value.0, error.value.1);
      }
      ip, op := ip', op';
    }
    if op != n {
      return Err(OutputShort, ip);
    }
    assert out[..op] == out[..];
    return Ok(n);
  }
}
