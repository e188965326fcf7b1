/** LZ4 blocks: include/nanom/codec.hpp, section 31. */
module Lz4 {
  import opened Bytes
  import opened Lz77

  datatype Error =
    | EmptyBlock
    | TruncatedSequence
    | TruncatedLiteralLength
    | LiteralPastInput
    | LiteralOverflow
    | TruncatedOffset
    | BadOffset
    | TruncatedMatchLength
    | MatchOverflow

  datatype Status = Ok(size: nat) | Err(error: Error, at: nat)

  /** No input fills more than 2^55 bytes of address space, so 64-bit lengths never wrap. */
  const MAX_INPUT := 0x80_0000_0000_0000

  // ------------------------------------------------------------------
  // The reference decoder
  // ------------------------------------------------------------------

  datatype Length = Len(len: nat, next: nat) | BadLen(at: nat)

  /** Length bytes from ip on: 255 means more follow. */
  function MoreLen(input: seq<byte>, ip: nat, len: nat): (r: Length)
    requires ip <= |input|
    ensures r.Len? ==> ip < r.next <= |input| && len <= r.len <= len + 255 * (r.next - ip)
    decreases |input| - ip
  {
    if ip == |input| then BadLen(ip)
    else if input[ip] != 255 then Len(len + input[ip], ip + 1)
    else MoreLen(input, ip + 1, len + 255)
  }

  /** A token nibble and the length bytes it calls for. */
  function ExtLen(input: seq<byte>, ip: nat, nibble: nat): (r: Length)
    requires ip <= |input|
    ensures r.Len? ==> ip <= r.next <= |input|
  {
    if nibble != 15 then Len(nibble, ip) else MoreLen(input, ip, nibble)
  }

  datatype Half = More(ip: nat, out: seq<byte>) | Stop(error: Error, at: nat)

  function Literals(input: seq<byte>, ip: nat, nibble: nat, out: seq<byte>, n: nat): (r: Half)
    requires ip <= |input| && |out| <= n
    ensures r.More? ==> ip <= r.ip <= |input| && |r.out| <= n
  {
    match ExtLen(input, ip, nibble)
    case BadLen(at) => Stop(TruncatedLiteralLength, at)
    case Len(lit, p) =>
      if |input| - p < lit then Stop(LiteralPastInput, p)
      else if n - |out| < lit then Stop(LiteralOverflow, p)
      else More(p + lit, out + input[p..p + lit])
  }

  function Match(input: seq<byte>, ip: nat, nibble: nat, out: seq<byte>, n: nat): (r: Half)
    requires ip <= |input| && |out| <= n
    ensures r.More? ==> ip < r.ip <= |input| && |r.out| <= n
  {
    if |input| - ip < 2 then Stop(TruncatedOffset, ip)
    else
      var offset := input[ip] + 256 * input[ip + 1] as int;
      if offset == 0 || offset > |out| then Stop(BadOffset, ip + 2)
      else
        match ExtLen(input, ip + 2, nibble)
        case BadLen(at) => Stop(TruncatedMatchLength, at)
        case Len(len, p) =>
          if n - |out| < len + 4 then Stop(MatchOverflow, p)
          else More(p, Copied(out, offset, len + 4))
  }

  datatype Decoding = Decoded(out: seq<byte>) | Failed(error: Error, at: nat)

  /** Sequences from ip on; the last one carries literals only. */
  function Run(input: seq<byte>, ip: nat, out: seq<byte>, n: nat): (r: Decoding)
    requires ip <= |input| && |out| <= n
    ensures r.Decoded? ==> |r.out| <= n
    decreases |input| - ip
  {
    if ip == |input| then Failed(TruncatedSequence, ip)
    else
      match Literals(input, ip + 1, input[ip] / 16, out, n)
      case Stop(error, at) => Failed(error, at)
      case More(p, o) =>
        if p == |input| then Decoded(o)
        else
          match Match(input, p, input[ip] % 16, o, n)
          case Stop(error, at) => Failed(error, at)
          case More(q, o') => Run(input, q, o', n)
  }

  /** The whole block into at most n bytes. */
  function Reference(input: seq<byte>, n: nat): (r: Decoding)
    ensures r.Decoded? ==> |r.out| <= n
  {
    if |input| == 0 then Failed(EmptyBlock, 0) else Run(input, 0, [], n)
  }

  // ------------------------------------------------------------------
  // The decoder
  // ------------------------------------------------------------------

  /** codec.hpp:230-239. The overflow test of the source never fires below MAX_INPUT. */
  method ReadExtLen(input: seq<byte>, ip: nat, nibble: nat) returns (r: Length)
    requires ip <= |input| <= MAX_INPUT && nibble <= 15
    ensures r == ExtLen(input, ip, nibble)
    ensures r.Len? ==> r.len <= SIZE_MAX - 20
  {
    if nibble != 15 {
      return Len(nibble, ip);
    }
    var p: nat, len: nat := ip, nibble;
    while p < |input|
      invariant ip <= p <= |input| && len <= 15 + 255 * (p - ip)
      invariant MoreLen(input, p, len) == MoreLen(input, ip, nibble)
    {
      var b := input[p];
      p := p + 1;
      if len > SIZE_MAX - b {
        assert false;
      }
      len := len + b;
      if b != 255 {
        return Len(len, p);
      }
    }
    return BadLen(p);
  }

  /** codec.hpp:244-256: a short literal moves as one fixed 16-byte copy where there is room. */
  method LiteralStep(input: seq<byte>, ip: nat, nibble: nat, out: array<byte>, op: nat)
    returns (error: Option<(Error, nat)>, ip': nat, op': nat)
    requires ip <= |input| <= MAX_INPUT && op <= out.Length && nibble <= 15
    modifies out
    ensures error.None? ==> ip <= ip' <= |input| && op' <= out.Length
    ensures Literals(input, ip, nibble, old(out[..op]), out.Length)
         == match error case None => More(ip', out[..op']) case Some(e) => Stop(e.0, e.1)
  {
    ghost var before := out[..op];
    if nibble < 15 && |input| - ip >= 16 && out.Length - op >= 16 {
      CopyFrom(out, op, input, ip, 16);
      assert out[..op + nibble] == before + input[ip..ip + nibble];
      return None, ip + nibble, op + nibble;
    }
    var len := ReadExtLen(input, ip, nibble);
    if len.BadLen? {
      return Some((TruncatedLiteralLength, len.at)), ip, op;
    }
    var lit, p := len.len, len.next;
    if |input| - p < lit {
      return Some((LiteralPastInput, p)), ip, op;
    }
    if out.Length - op < lit {
      return Some((LiteralOverflow, p)), ip, op;
    }
    CopyFrom(out, op, input, p, lit);
    assert out[..op + lit] == before + input[p..p + lit];
    return None, p + lit, op + lit;
  }

  /** codec.hpp:258-271. */
  method MatchStep(input: seq<byte>, ip: nat, nibble: nat, out: array<byte>, op: nat)
    returns (error: Option<(Error, nat)>, ip': nat, op': nat)
    requires ip <= |input| <= MAX_INPUT && op <= out.Length && nibble <= 15
    modifies out
    ensures error.None? ==> ip < ip' <= |input| && op' <= out.Length
    ensures Match(input, ip, nibble, old(out[..op]), out.Length)
         == match error case None => More(ip', out[..op']) case Some(e) => Stop(e.0, e.1)
  {
    hide ExtLen, Copied, CopyDone;
    if |input| - ip < 2 {
      return Some((TruncatedOffset, ip)), ip, op;
    }
    var offset := input[ip] + 256 * input[ip + 1] as int;
    if offset == 0 || offset > op {
      return Some((BadOffset, ip + 2)), ip, op;
    }
    var len := ReadExtLen(input, ip + 2, nibble);
    if len.BadLen? {
      return Some((TruncatedMatchLength, len.at)), ip, op;
    }
    var mlen, p := len.len + 4, len.next;
    ghost var before := out[..];
    if out.Length - op >= mlen + 16 {
      CopyMatchWild(out, op, offset, mlen);
      CopyDoneIsCopied(before, out[..], op, offset, mlen, 15);
    } else {
      if out.Length - op < mlen {
        return Some((MatchOverflow, p)), ip, op;
      }
      CopyMatch(out, op, offset, mlen);
      CopyDoneIsCopied(before, out[..], op, offset, mlen, 0);
    }
    return None, p, op + mlen;
  }

  ghost predicate Agrees(st: Status, out: seq<byte>, r: Decoding) {
    match r
    case Decoded(o) => st == Ok(|o|) && o <= out
    case Failed(error, at) => st == Err(error, at)
  }

  /** codec.hpp:223-274. */
  method Decompress(input: seq<byte>, out: array<byte>) returns (st: Status)
    requires |input| <= MAX_INPUT
    modifies out
    ensures Agrees(st, out[..], Reference(input, out.Length))
  {
    hide Literals, Match;
    if |input| == 0 {
      return Err(EmptyBlock, 0);
    }
    var ip: nat, op: nat := 0, 0;
    assert out[..0] == [];
    while ip < |input|
      invariant ip <= |input| && op <= out.Length
      invariant Run(input, ip, out[..op], out.Length) == Reference(input, out.Length)
    {
      var token := input[ip];
      var error, ip', op' := LiteralStep(input, ip + 1, token / 16, out, op);
      if error.Some? {
        return Err(error.value.0, error.value.1);
      }
      if ip' == |input| {
        return Ok(op');
      }
      var error2, ip'', op'' := MatchStep(input, ip', token % 16, out, op');
      if error2.Some? {
        return Err(error2.value.0, error2.value.1);
      }
      ip, op := ip'', op'';
    }
    return Err(TruncatedSequence, ip);
  }
}
