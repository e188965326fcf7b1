/** The LZ4 block format, stated from the writer's side: the reference decoder of module Lz4 accepts
    exactly the blocks made of whole sequences and final literals. */
module Lz4Format {
  import opened Bytes
  import opened Lz77
  import opened Lz4

  /** Literals, then a match of at least 4 bytes from offset back. */
  datatype Sequence = Sequence(literals: seq<byte>, offset: nat, matchLen: nat)

  ghost predicate Legal(q: Sequence) {
    1 <= q.offset < 0x1_0000 && q.matchLen >= 4
  }

  function Nibble(len: nat): (n: nat)
    ensures n <= 15
  {
    if len < 15 then len else 15
  }

  /** The length bytes after the nibble. */
  function LenBytes(len: nat): (s: seq<byte>)
  {
    if len < 15 then [] else Chain(len - 15)
  }

  function Chain(rest: nat): (s: seq<byte>)
    ensures |s| >= 1
  {
    if rest < 255 then [rest] else [255] + Chain(rest - 255)
  }

  function Encode(q: Sequence): (s: seq<byte>)
    requires q.offset < 0x1_0000 && q.matchLen >= 4
    ensures |s| >= 1
  {
    [16 * Nibble(|q.literals|) + Nibble(q.matchLen - 4)] + LenBytes(|q.literals|) + q.literals
    + [q.offset % 256, q.offset / 256] + LenBytes(q.matchLen - 4)
  }

  /** The final token: its match nibble is never looked at. */
  function EncodeLast(literals: seq<byte>, nibble: nat): (s: seq<byte>)
    requires nibble <= 15
    ensures |s| >= 1
  {
    [16 * Nibble(|literals|) + nibble] + LenBytes(|literals|) + literals
  }

  // ------------------------------------------------------------------
  // Lengths
  // ------------------------------------------------------------------

  lemma {:induction false} MoreLenOfChain(s: seq<byte>, ip: nat, rest: nat, len: nat)
    requires ip + |Chain(rest)| <= |s| && s[ip..ip + |Chain(rest)|] == Chain(rest)
    ensures MoreLen(s, ip, len) == Len(len + rest, ip + |Chain(rest)|)
    decreases rest
  {
    assert s[ip] == Chain(rest)[0];
    if rest >= 255 {
      SliceConcat(s, ip, [255], Chain(rest - 255));
      MoreLenOfChain(s, ip + 1, rest - 255, len + 255);
    }
  }

  lemma {:induction false} ChainOfMoreLen(s: seq<byte>, ip: nat, len: nat)
    requires ip <= |s| && MoreLen(s, ip, len).Len?
    ensures s[ip..MoreLen(s, ip, len).next] == Chain(MoreLen(s, ip, len).len - len)
    decreases |s| - ip
  {
    var r := MoreLen(s, ip, len);
    if s[ip] == 255 {
      ChainOfMoreLen(s, ip + 1, len + 255);
      assert s[ip..r.next] == [255] + s[ip + 1..r.next];
    } else {
      assert s[ip..r.next] == [s[ip]];
    }
  }

  lemma {:induction false} ExtLenOfLenBytes(s: seq<byte>, ip: nat, len: nat)
    requires ip + |LenBytes(len)| <= |s| && s[ip..ip + |LenBytes(len)|] == LenBytes(len)
    ensures ExtLen(s, ip, Nibble(len)) == Len(len, ip + |LenBytes(len)|)
  {
    if len >= 15 {
      MoreLenOfChain(s, ip, len - 15, 15);
    }
  }

  lemma {:induction false} LenBytesOfExtLen(s: seq<byte>, ip: nat, nibble: nat)
    requires ip <= |s| && nibble <= 15 && ExtLen(s, ip, nibble).Len?
    ensures var r := ExtLen(s, ip, nibble);
            nibble == Nibble(r.len) && s[ip..r.next] == LenBytes(r.len)
  {
    if nibble == 15 {
      ChainOfMoreLen(s, ip, 15);
    }
  }

  // ------------------------------------------------------------------
  // Blocks
  // ------------------------------------------------------------------

  ghost predicate AllLegal(qs: seq<Sequence>) {
    forall i :: 0 <= i < |qs| ==> Legal(qs[i])
  }

  ghost function Block(qs: seq<Sequence>, last: seq<byte>, nibble: nat): (s: seq<byte>)
    requires AllLegal(qs) && nibble <= 15
  {
    if |qs| == 0 then EncodeLast(last, nibble) else Encode(qs[0]) + Block(qs[1..], last, nibble)
  }

  /** The plain LZ77 expansion into at most n bytes. */
  ghost function Expand(out: seq<byte>, n: nat, qs: seq<Sequence>, last: seq<byte>): (r: Option<seq<byte>>)
    requires AllLegal(qs)
    decreases |qs|
  {
    if |qs| == 0 then
      if |out| + |last| <= n then Some(out + last) else None
    else
      var o := out + qs[0].literals;
      if |o| + qs[0].matchLen > n || qs[0].offset > |o| then None
      else Expand(Copied(o, qs[0].offset, qs[0].matchLen), n, qs[1..], last)
  }

  lemma {:induction false} Token(hi: nat, lo: nat)
    requires hi <= 15 && lo <= 15
    ensures (16 * hi + lo) / 16 == hi && (16 * hi + lo) % 16 == lo
  {
  }

  /** The two halves of one encoded sequence. */
  lemma {:induction false} HalvesOfEncode(s: seq<byte>, ip: nat, q: Sequence)
    requires Legal(q) && ip + |Encode(q)| <= |s| && s[ip..ip + |Encode(q)|] == Encode(q)
    ensures var p := ip + 1 + |LenBytes(|q.literals|)|;
            var e := p + |q.literals|;
            && e + 2 <= |s|
            && s[ip] / 16 == Nibble(|q.literals|) && s[ip] % 16 == Nibble(q.matchLen - 4)
            && ExtLen(s, ip + 1, s[ip] / 16) == Len(|q.literals|, p)
            && s[p..e] == q.literals
            && s[e] + 256 * s[e + 1] as int == q.offset
            && ExtLen(s, e + 2, s[ip] % 16) == Len(q.matchLen - 4, ip + |Encode(q)|)
  {
    hide LenBytes, ExtLen, Nibble;
    var a := [16 * Nibble(|q.literals|) + Nibble(q.matchLen - 4)];
    var b, d := LenBytes(|q.literals|), LenBytes(q.matchLen - 4);
    var c := [q.offset % 256, q.offset / 256];
    var p := ip + 1 + |b|;
    var e := p + |q.literals|;
    SliceConcat(s, ip, a + b + q.literals + c, d);
    SliceConcat(s, ip, a + b + q.literals, c);
    SliceConcat(s, ip, a + b, q.literals);
    SliceConcat(s, ip, a, b);
    assert s[ip] == s[ip..ip + 1][0] == a[0];
    Token(Nibble(|q.literals|), Nibble(q.matchLen - 4));
    assert s[e] == s[e..e + 2][0] == q.offset % 256 && s[e + 1] == s[e..e + 2][1] == q.offset / 256;
    ExtLenOfLenBytes(s, ip + 1, |q.literals|);
    ExtLenOfLenBytes(s, e + 2, q.matchLen - 4);
  }

  lemma {:induction false} HalvesOfLast(s: seq<byte>, ip: nat, last: seq<byte>, nibble: nat)
    requires nibble <= 15 && ip <= |s| && s[ip..] == EncodeLast(last, nibble)
    ensures var p := ip + 1 + |LenBytes(|last|)|;
            && ip < |s| && p + |last| == |s|
            && ExtLen(s, ip + 1, s[ip] / 16) == Len(|last|, p)
            && s[p..p + |last|] == last
  {
    hide LenBytes, ExtLen, Nibble;
    var a, b := [16 * Nibble(|last|) + nibble], LenBytes(|last|);
    assert s[ip..|s|] == s[ip..];
    SliceConcat(s, ip, a + b, last);
    SliceConcat(s, ip, a, b);
    assert s[ip] == s[ip..ip + 1][0] == a[0];
    Token(Nibble(|last|), nibble);
    ExtLenOfLenBytes(s, ip + 1, |last|);
  }

  lemma {:induction false} RunSequence(s: seq<byte>, ip: nat, out: seq<byte>, n: nat, q: Sequence)
    requires Legal(q) && ip + |Encode(q)| <= |s| && s[ip..ip + |Encode(q)|] == Encode(q)
    requires |out| + |q.literals| + q.matchLen <= n && q.offset <= |out| + |q.literals|
    ensures Run(s, ip, out, n)
         == Run(s, ip + |Encode(q)|, Copied(out + q.literals, q.offset, q.matchLen), n)
  {
    hide ExtLen, Encode, LenBytes, Nibble, Copied;
    HalvesOfEncode(s, ip, q);
    assert Literals(s, ip + 1, s[ip] / 16, out, n)
        == More(ip + 1 + |LenBytes(|q.literals|)| + |q.literals|, out + q.literals);
  }

  lemma {:induction false} RunLast(s: seq<byte>, ip: nat, out: seq<byte>, n: nat, last: seq<byte>, nibble: nat)
    requires nibble <= 15 && ip <= |s| && s[ip..] == EncodeLast(last, nibble)
    requires |out| + |last| <= n
    ensures Run(s, ip, out, n) == Decoded(out + last)
  {
    hide ExtLen, EncodeLast, LenBytes, Match;
    HalvesOfLast(s, ip, last, nibble);
  }

  lemma {:induction false} RunOfBlock(s: seq<byte>, ip: nat, out: seq<byte>, n: nat,
                                      qs: seq<Sequence>, last: seq<byte>, nibble: nat)
    requires ip <= |s| && |out| <= n && AllLegal(qs) && nibble <= 15 && s[ip..] == Block(qs, last, nibble)
    requires Expand(out, n, qs, last).Some?
    ensures Run(s, ip, out, n) == Decoded(Expand(out, n, qs, last).value)
    decreases |qs|
  {
    hide Encode, EncodeLast, Run, Copied;
    if |qs| == 0 {
      RunLast(s, ip, out, n, last, nibble);
    } else {
      var q := qs[0];
      assert s[ip..|s|] == s[ip..];
      SliceConcat(s, ip, Encode(q), Block(qs[1..], last, nibble));
      RunSequence(s, ip, out, n, q);
      assert s[ip + |Encode(q)|..] == s[ip + |Encode(q)|..|s|];
      RunOfBlock(s, ip + |Encode(q)|, Copied(out + q.literals, q.offset, q.matchLen), n, qs[1..], last, nibble);
    }
  }

  /** One sequence the decoder got through is an encoded one. */
  lemma {:induction false} SequenceOfHalves(s: seq<byte>, ip: nat, out: seq<byte>, n: nat) returns (q: Sequence)
    requires ip < |s| && |out| <= n
    requires Literals(s, ip + 1, s[ip] / 16, out, n).More?
    requires var l := Literals(s, ip + 1, s[ip] / 16, out, n); Match(s, l.ip, s[ip] % 16, l.out, n).More?
    ensures Legal(q)
    ensures var l := Literals(s, ip + 1, s[ip] / 16, out, n);
            var m := Match(s, l.ip, s[ip] % 16, l.out, n);
            && s[ip..m.ip] == Encode(q) && l.out == out + q.literals
            && q.offset <= |l.out| && m.out == Copied(l.out, q.offset, q.matchLen)
  {
    hide LenBytes, ExtLen, Nibble;
    var l := Literals(s, ip + 1, s[ip] / 16, out, n);
    var m := Match(s, l.ip, s[ip] % 16, l.out, n);
    LenBytesOfExtLen(s, ip + 1, s[ip] / 16);
    LenBytesOfExtLen(s, l.ip + 2, s[ip] % 16);
    var lit := ExtLen(s, ip + 1, s[ip] / 16);
    var len := ExtLen(s, l.ip + 2, s[ip] % 16);
    q := Sequence(s[lit.next..l.ip], s[l.ip] + 256 * s[l.ip + 1] as int, len.len + 4);
    assert s[ip..m.ip] == [s[ip]] + s[ip + 1..lit.next] + s[lit.next..l.ip] + [s[l.ip], s[l.ip + 1]]
                          + s[l.ip + 2..m.ip];
  }

  lemma {:induction false} BlockOfRun(s: seq<byte>, ip: nat, out: seq<byte>, n: nat)
    returns (qs: seq<Sequence>, last: seq<byte>, nibble: nat)
    requires ip <= |s| && |out| <= n && Run(s, ip, out, n).Decoded?
    ensures AllLegal(qs) && nibble <= 15 && s[ip..] == Block(qs, last, nibble)
    ensures Expand(out, n, qs, last) == Some(Run(s, ip, out, n).out)
    decreases |s| - ip
  {
    hide Encode, Match, LenBytes, ExtLen, Nibble;
    var l := Literals(s, ip + 1, s[ip] / 16, out, n);
    if l.ip == |s| {
      LenBytesOfExtLen(s, ip + 1, s[ip] / 16);
      var lit := ExtLen(s, ip + 1, s[ip] / 16);
      qs, last, nibble := [], s[lit.next..l.ip], s[ip] % 16;
      assert s[ip..] == [s[ip]] + s[ip + 1..lit.next] + s[lit.next..l.ip];
    } else {
      var m := Match(s, l.ip, s[ip] % 16, l.out, n);
      var q := SequenceOfHalves(s, ip, out, n);
      var rest;
      rest, last, nibble := BlockOfRun(s, m.ip, m.out, n);
      qs := [q] + rest;
      assert qs[1..] == rest;
      assert s[ip..] == s[ip..m.ip] + s[m.ip..];
    }
  }

  ghost predicate IsBlock(input: seq<byte>, n: nat, qs: seq<Sequence>, last: seq<byte>, nibble: nat, o: seq<byte>) {
    AllLegal(qs) && nibble <= 15 && input == Block(qs, last, nibble) && Expand([], n, qs, last) == Some(o)
  }

  /** The decoder accepts exactly the well-formed blocks, and yields their LZ77 expansion. */
  lemma {:induction false} DecodesExactlyTheFormat(input: seq<byte>, n: nat, o: seq<byte>)
    ensures Reference(input, n) == Decoded(o) <==>
            exists qs, last, nibble :: IsBlock(input, n, qs, last, nibble, o)
  {
    hide Run, Expand, Block;
    assert input[0..] == input;
    if Reference(input, n) == Decoded(o) {
      var qs, last, nibble := BlockOfRun(input, 0, [], n);
      assert IsBlock(input, n, qs, last, nibble, o);
    }
    if qs, last, nibble :| IsBlock(input, n, qs, last, nibble, o) {
      BlockNonEmpty(qs, last, nibble);
      RunOfBlock(input, 0, [], n, qs, last, nibble);
    }
  }

  lemma {:induction false} BlockNonEmpty(qs: seq<Sequence>, last: seq<byte>, nibble: nat)
    requires AllLegal(qs) && nibble <= 15
    ensures |Block(qs, last, nibble)| >= 1
  {
  }
}
