/** The Snappy raw format, stated from the writer's side: the reference decoder of module Snappy
    accepts exactly the streams made of legal coded elements, with exactly their meaning. */
module SnappyFormat {
  import opened Bytes
  import opened Leb128
  import opened Snappy

  datatype Coded =
    | ShortLiteral(bytes: seq<byte>)
    | LongLiteral(bytes: seq<byte>, lengthBytes: nat)
    | Copy1(offset: nat, len: nat)
    | Copy2(offset: nat, len: nat)
    | Copy4(offset: nat, len: nat)

  ghost predicate Legal(c: Coded) {
    match c
    case ShortLiteral(bytes) => 1 <= |bytes| <= 60
    case LongLiteral(bytes, nb) => 1 <= nb <= 4 && 1 <= |bytes| <= Pow2(8 * nb)
    case Copy1(offset, len) => offset < 0x800 && 4 <= len <= 11
    case Copy2(offset, len) => offset < 0x1_0000 && 1 <= len <= 64
    case Copy4(offset, len) => offset < 0x1_0000_0000 && 1 <= len <= 64
  }

  ghost function Encode(c: Coded): (s: seq<byte>)
    requires Legal(c)
    ensures |s| >= 1
  {
    match c
    case ShortLiteral(bytes) => [4 * (|bytes| - 1)] + bytes
    case LongLiteral(bytes, nb) => [4 * (59 + nb)] + LeBytes(|bytes| - 1, nb) + bytes
    case Copy1(offset, len) => [1 + 4 * (len - 4) + 32 * (offset / 256), offset % 256]
    case Copy2(offset, len) => [2 + 4 * (len - 1)] + LeBytes(offset, 2)
    case Copy4(offset, len) => [3 + 4 * (len - 1)] + LeBytes(offset, 4)
  }

  function Meaning(c: Coded): Element {
    match c
    case ShortLiteral(bytes) => Literal(bytes)
    case LongLiteral(bytes, _) => Literal(bytes)
    case Copy1(offset, len) => Copy(offset, len)
    case Copy2(offset, len) => Copy(offset, len)
    case Copy4(offset, len) => Copy(offset, len)
  }

  /** A coded element is parsed back to its meaning, whatever surrounds it. */
  lemma {:induction false} NextOfEncode(s: seq<byte>, ip: nat, c: Coded)
    requires Legal(c) && ip + |Encode(c)| <= |s| && s[ip..ip + |Encode(c)|] == Encode(c)
    ensures Next(s, ip).Elem? && Next(s, ip).e == Meaning(c) && Next(s, ip).next == ip + |Encode(c)|
  {
    hide LeNat, LeBytes, Pow2, Next;
    var code := Encode(c);
    assert s[ip] == code[0];
    Pow2Values();
    match c {
      case ShortLiteral(bytes) =>
        NextOfShortLiteral(s, ip, bytes);
      case LongLiteral(bytes, nb) =>
        NextOfLongLiteral(s, ip, bytes, nb);
      case Copy1(offset, len) =>
        NextOfCopy1(s, ip, offset, len);
      case Copy2(offset, len) =>
        NextOfCopy(s, ip, 2, offset, len);
      case Copy4(offset, len) =>
        NextOfCopy(s, ip, 4, offset, len);
    }
  }

  lemma {:induction false} NextOfShortLiteral(s: seq<byte>, ip: nat, bytes: seq<byte>)
    requires 1 <= |bytes| <= 60 && ip + 1 + |bytes| <= |s|
    requires s[ip..ip + 1 + |bytes|] == [4 * (|bytes| - 1)] + bytes
    ensures Next(s, ip) == Elem(Literal(bytes), ip + 1, ip + 1 + |bytes|)
  {
    SliceConcat(s, ip, [4 * (|bytes| - 1)], bytes);
    assert s[ip] == s[ip..ip + 1][0];
  }

  lemma {:induction false} NextOfCopy1(s: seq<byte>, ip: nat, offset: nat, len: nat)
    requires offset < 0x800 && 4 <= len <= 11 && ip + 2 <= |s|
    requires s[ip..ip + 2] == [1 + 4 * (len - 4) + 32 * (offset / 256), offset % 256]
    ensures Next(s, ip) == Elem(Copy(offset, len), ip + 2, ip + 2)
  {
    hide LeNat;
    assert s[ip] == s[ip..ip + 2][0] && s[ip + 1] == s[ip..ip + 2][1];
    SmallLeNat(s, ip + 1, 1);
    Copy1Tag(len, offset, s[ip]);
  }

  lemma {:induction false} Copy1Tag(len: nat, offset: nat, tag: nat)
    requires offset < 0x800 && 4 <= len <= 11
    ensures tag == 1 + 4 * (len - 4) + 32 * (offset / 256) <==>
            tag < 256 && tag % 4 == 1 && tag / 4 % 8 + 4 == len && tag / 32 * 256 == offset / 256 * 256
  {
  }

  lemma {:induction false} NextLong(s: seq<byte>, ip: nat, nb: nat)
    requires 1 <= nb <= 4 && ip + 1 + nb <= |s| && s[ip] == 4 * (59 + nb)
    ensures Next(s, ip) == ParseLiteral(s, ip + 1 + nb, LeNat(s[ip + 1..ip + 1 + nb]) + 1)
  {
    hide LeNat, ParseLiteral, ParseCopy;
    assert s[ip] / 4 == 59 + nb;
  }

  lemma {:induction false} NextOfLongLiteral(s: seq<byte>, ip: nat, bytes: seq<byte>, nb: nat)
    requires 1 <= nb <= 4 && 1 <= |bytes| <= Pow2(8 * nb)
    requires ip + 1 + nb + |bytes| <= |s|
    requires s[ip..ip + 1 + nb + |bytes|] == [4 * (59 + nb)] + LeBytes(|bytes| - 1, nb) + bytes
    ensures Next(s, ip) == Elem(Literal(bytes), ip + 1 + nb, ip + 1 + nb + |bytes|)
  {
    hide LeNat, LeBytes, Pow2, Next;
    var head := LeBytes(|bytes| - 1, nb);
    var front := [4 * (59 + nb)] + head;
    assert |front| == 1 + nb;
    assert s[ip..ip + 1 + nb] == front && s[ip + 1 + nb..ip + 1 + nb + |bytes|] == bytes by {
      SliceConcat(s, ip, front, bytes);
    }
    assert s[ip] == s[ip..ip + 1 + nb][0] == 4 * (59 + nb);
    assert s[ip + 1..ip + 1 + nb] == s[ip..ip + 1 + nb][1..] == head;
    NextLong(s, ip, nb);
    LeNatLeBytes(|bytes| - 1, nb);
  }

  lemma {:induction false} NextOfCopy(s: seq<byte>, ip: nat, extra: nat, offset: nat, len: nat)
    requires extra in {2, 4} && offset < Pow2(8 * extra) && 1 <= len <= 64 && ip + 1 + extra <= |s|
    requires s[ip..ip + 1 + extra] == [(if extra == 2 then 2 else 3) + 4 * (len - 1)] + LeBytes(offset, extra)
    ensures Next(s, ip) == Elem(Copy(offset, len), ip + 1 + extra, ip + 1 + extra)
  {
    hide LeNat, LeBytes, Pow2;
    var code := s[ip..ip + 1 + extra];
    assert s[ip] == code[0];
    assert s[ip + 1..ip + 1 + extra] == code[1..] == LeBytes(offset, extra);
    LeNatLeBytes(offset, extra);
  }

  /** Every element the parser accepts is the encoding of a legal one. */
  lemma {:induction false} EncodeOfNext(s: seq<byte>, ip: nat) returns (c: Coded)
    requires ip < |s| && Next(s, ip).Elem?
    ensures Legal(c) && Meaning(c) == Next(s, ip).e && s[ip..Next(s, ip).next] == Encode(c)
  {
    hide Next, Encode, Legal, Meaning;
    if s[ip] % 4 == 0 {
      c := LiteralOfNext(s, ip);
    } else if s[ip] % 4 == 1 {
      c := Copy1OfNext(s, ip);
    } else {
      c := CopyOfNext(s, ip, if s[ip] % 4 == 2 then 2 else 4);
    }
  }

  lemma {:induction false} Copy1OfNext(s: seq<byte>, ip: nat) returns (c: Coded)
    requires ip < |s| && s[ip] % 4 == 1 && Next(s, ip).Elem?
    ensures Legal(c) && Meaning(c) == Next(s, ip).e && s[ip..Next(s, ip).next] == Encode(c)
  {
    hide LeNat, LeBytes, Pow2;
    SmallLeNat(s, ip + 1, 1);
    var len, offset := s[ip] / 4 % 8 + 4, s[ip] as int / 32 * 256 + s[ip + 1];
    Copy1Tag(len, offset, s[ip]);
    c := Copy1(offset, len);
    assert Next(s, ip) == Elem(Copy(offset, len), ip + 2, ip + 2);
    assert offset % 256 == s[ip + 1];
    assert s[ip..ip + 2] == [s[ip], s[ip + 1]];
  }

  lemma {:induction false} CopyOfNext(s: seq<byte>, ip: nat, extra: nat) returns (c: Coded)
    requires ip < |s| && s[ip] % 4 == (if extra == 2 then 2 else 3) && extra in {2, 4} && Next(s, ip).Elem?
    ensures Legal(c) && Meaning(c) == Next(s, ip).e && s[ip..Next(s, ip).next] == Encode(c)
  {
    hide LeNat, LeBytes, Pow2;
    var body := s[ip + 1..ip + 1 + extra];
    LeNatBound(body);
    Pow2Values();
    LeBytesLeNat(body);
    c := if extra == 2 then Copy2(LeNat(body), s[ip] / 4 + 1) else Copy4(LeNat(body), s[ip] / 4 + 1);
    assert s[ip..ip + 1 + extra] == [s[ip]] + body;
  }

  lemma {:induction false} LiteralOfNext(s: seq<byte>, ip: nat) returns (c: Coded)
    requires ip < |s| && s[ip] % 4 == 0 && Next(s, ip).Elem?
    ensures Legal(c) && Meaning(c) == Next(s, ip).e && s[ip..Next(s, ip).next] == Encode(c)
  {
    hide LeNat, LeBytes, Pow2;
    var next := Next(s, ip).next;
    var len := s[ip] / 4 + 1;
    if len <= 60 {
      c := Coded.ShortLiteral(s[ip + 1..next]);
      assert s[ip..next] == [s[ip]] + s[ip + 1..next];
    } else {
      c := LongLiteralOfNext(s, ip, len - 60);
    }
  }

  lemma {:induction false} LongLiteralOfNext(s: seq<byte>, ip: nat, nb: nat) returns (c: Coded)
    requires ip < |s| && s[ip] == 4 * (59 + nb) && 1 <= nb <= 4 && Next(s, ip).Elem?
    ensures Legal(c) && Meaning(c) == Next(s, ip).e && s[ip..Next(s, ip).next] == Encode(c)
  {
    hide LeNat, LeBytes, Pow2;
    var next := Next(s, ip).next;
    var head := s[ip + 1..ip + 1 + nb];
    LeNatBound(head);
    LeBytesLeNat(head);
    c := LongLiteral(s[ip + 1 + nb..next], nb);
    assert s[ip..next] == [s[ip]] + head + s[ip + 1 + nb..next];
  }

  ghost predicate AllLegal(cs: seq<Coded>) {
    forall i :: 0 <= i < |cs| ==> Legal(cs[i])
  }

  ghost function Stream(cs: seq<Coded>): (s: seq<byte>)
    requires AllLegal(cs)
  {
    if |cs| == 0 then [] else Encode(cs[0]) + Stream(cs[1..])
  }

  /** The plain LZ77 expansion of the elements into at most n bytes. */
  function Expand(out: seq<byte>, n: nat, cs: seq<Coded>): (r: Option<seq<byte>>)
    requires |out| <= n
    decreases |cs|
  {
    if |cs| == 0 then Some(out)
    else
      match Apply(out, n, Meaning(cs[0]))
      case Out(o) => Expand(o, n, cs[1..])
      case Refused(_) => None
  }

  lemma {:induction false} RunOfStream(s: seq<byte>, ip: nat, out: seq<byte>, n: nat, cs: seq<Coded>)
    requires ip <= |s| && |out| <= n && AllLegal(cs) && s[ip..] == Stream(cs)
    requires Expand(out, n, cs).Some? && |Expand(out, n, cs).value| == n
    ensures Run(s, ip, out, n) == Decoded(Expand(out, n, cs).value)
    decreases |cs|
  {
    hide Next, Encode, Legal, Apply, Meaning;
    if |cs| > 0 {
      var code := Encode(cs[0]);
      assert s[ip..ip + |code|] == s[ip..][..|code|] == code;
      NextOfEncode(s, ip, cs[0]);
      assert s[ip + |code|..] == s[ip..][|code|..] == Stream(cs[1..]);
      RunOfStream(s, ip + |code|, Apply(out, n, Meaning(cs[0])).out, n, cs[1..]);
    }
  }

  lemma {:induction false} StreamOfRun(s: seq<byte>, ip: nat, out: seq<byte>, n: nat) returns (cs: seq<Coded>)
    requires ip <= |s| && |out| <= n && Run(s, ip, out, n).Decoded?
    ensures AllLegal(cs) && s[ip..] == Stream(cs)
    ensures Expand(out, n, cs) == Some(Run(s, ip, out, n).out)
    decreases |s| - ip
  {
    hide Next, Encode, Legal, Apply, Meaning;
    if ip == |s| {
      cs := [];
    } else {
      var c := EncodeOfNext(s, ip);
      var next := Next(s, ip).next;
      var rest := StreamOfRun(s, next, Apply(out, n, Next(s, ip).e).out, n);
      cs := [c] + rest;
      assert cs[1..] == rest;
      assert s[ip..] == s[ip..next] + s[next..];
    }
  }

  /** input is a preamble saying n followed by the legal elements cs, which expand to o. */
  ghost predicate IsBlock(input: seq<byte>, n: nat, cs: seq<Coded>, o: seq<byte>) {
    && Read(input, 0, 32).Value? && Read(input, 0, 32).v == n
    && AllLegal(cs) && input[Read(input, 0, 32).next..] == Stream(cs)
    && Expand([], n, cs) == Some(o) && |o| == n
  }

  /** The decoder accepts exactly the well-formed blocks, and yields their LZ77 expansion. */
  lemma {:induction false} DecodesExactlyTheFormat(input: seq<byte>, n: nat, o: seq<byte>)
    ensures Reference(input, n) == Decoded(o) <==> exists cs :: IsBlock(input, n, cs, o)
  {
    if Reference(input, n) == Decoded(o) {
      var cs := StreamOfRun(input, Read(input, 0, 32).next, [], n);
      assert IsBlock(input, n, cs, o);
    }
    if cs :| IsBlock(input, n, cs, o) {
      RunOfStream(input, Read(input, 0, 32).next, [], n, cs);
    }
  }
}
