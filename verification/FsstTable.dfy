/** The serialized FSST symbol table and the decoder: include/nanom/fsst.hpp:69-134 and
    include/nanom/fsst_encode.hpp:375-386. */
module FsstTable {
  import opened Bytes
  import opened BitOps
  import opened Fsst
  import opened FsstEncoder

  const TABLE_BYTES := 2312
  const MAGIC := 0x4653_5354_0000_0000
  const SWITCH := 0x100_0000

  lemma {:induction false} AndSelf(a: nat)
    ensures And(a, a) == a
  {
    if a > 0 {
      AndSelf(a / 2);
    }
  }

  /** A mask of high bits keeps them, whatever lies below. */
  lemma {:induction false} AndHigh(hi: nat, lo: nat, k: nat)
    requires lo < Pow2(k)
    ensures And(hi * Pow2(k) + lo, hi * Pow2(k)) == hi * Pow2(k)
    decreases k
  {
    if k == 0 {
      AndSelf(hi);
    } else {
      AndHigh(hi, lo / 2, k - 1);
      assert hi * Pow2(k) == 2 * (hi * Pow2(k - 1)) by { MulAssoc(2, Pow2(k - 1), hi); }
      AndDouble(hi * Pow2(k) + lo, hi * Pow2(k), hi * Pow2(k - 1) + lo / 2, hi * Pow2(k - 1));
    }
  }

  lemma {:induction false} AndDouble(a: nat, b: nat, a2: nat, b2: nat)
    requires a / 2 == a2 && b == 2 * b2
    ensures And(a, b) == 2 * And(a2, b2)
  {
  }

  // ------------------------------------------------------------------
  // The format
  // ------------------------------------------------------------------

  datatype Table = Table(passthrough: bool, words: seq<seq<byte>>, lengths: seq<nat>)

  datatype Parsed = WrongSize | WrongMagic | BadLength(at: nat) | Parsed(table: Table)

  function WordAt(bytes: seq<byte>, i: nat): (w: seq<byte>)
    requires 8 + 8 * i + 8 <= |bytes|
    ensures |w| == 8
  {
    bytes[8 + 8 * i..8 + 8 * i + 8]
  }

  predicate LengthOk(n: nat) {
    1 <= n <= 8
  }

  /** The lengths from number i on, right after the n words. */
  function LengthsFrom(bytes: seq<byte>, n: nat, i: nat): (r: Parsed)
    requires i <= n <= 255 && |bytes| == TABLE_BYTES
    ensures r.Parsed? || r.BadLength?
    ensures r.Parsed? ==> |r.table.lengths| == n - i && r.table.words == [] && !r.table.passthrough
    decreases n - i
  {
    if i == n then Parsed(Table(false, [], []))
    else if !LengthOk(bytes[8 + 8 * n + i]) then BadLength(8 + 8 * n + i)
    else
      match LengthsFrom(bytes, n, i + 1)
      case Parsed(t) => Parsed(Table(false, [], [bytes[8 + 8 * n + i]] + t.lengths))
      case bad => bad
  }

  function Parse(bytes: seq<byte>): (r: Parsed) {
    if |bytes| != TABLE_BYTES then WrongSize
    else
      var header := LeNat(bytes[..8]);
      if And(header, MAGIC) != MAGIC then WrongMagic
      else
        var n := header % 256;
        match LengthsFrom(bytes, n, 0)
        case Parsed(t) =>
          Parsed(Table((header / SWITCH) % 2 == 0, seq(n, i requires 0 <= i < n => WordAt(bytes, i)), t.lengths))
        case bad => bad
  }

  ghost predicate TableOk(t: Table) {
    && |t.words| == |t.lengths| <= 255
    && (forall i :: 0 <= i < |t.words| ==> |t.words[i]| == 8 && LengthOk(t.lengths[i]))
  }

  lemma {:induction false} LengthsAre(bytes: seq<byte>, n: nat, i: nat)
    requires i <= n <= 255 && |bytes| == TABLE_BYTES && LengthsFrom(bytes, n, i).Parsed?
    ensures forall j :: 0 <= j < n - i ==>
      LengthsFrom(bytes, n, i).table.lengths[j] == bytes[8 + 8 * n + i + j] && LengthOk(bytes[8 + 8 * n + i + j])
    decreases n - i
  {
    if i < n {
      LengthsAre(bytes, n, i + 1);
      var r, r' := LengthsFrom(bytes, n, i).table.lengths, LengthsFrom(bytes, n, i + 1).table.lengths;
      forall j | 0 <= j < n - i ensures r[j] == bytes[8 + 8 * n + i + j] && LengthOk(bytes[8 + 8 * n + i + j]) {
        if j > 0 {
          assert r[j] == r'[j - 1] == bytes[8 + 8 * n + (i + 1) + (j - 1)];
        }
      }
    }
  }

  lemma {:induction false} ParsedIsOk(bytes: seq<byte>)
    requires Parse(bytes).Parsed?
    ensures TableOk(Parse(bytes).table)
  {
    hide And, LeNat;
    var n := LeNat(bytes[..8]) % 256;
    LengthsAre(bytes, n, 0);
  }

  /** The symbols a table stands for. */
  function Symbols(t: Table): (syms: seq<Symbol>)
    requires TableOk(t)
    ensures |syms| == |t.words|
  {
    seq(|t.words|, i requires 0 <= i < |t.words| => t.words[i][..t.lengths[i]])
  }

  // ------------------------------------------------------------------
  // Serializing
  // ------------------------------------------------------------------

  function Words(syms: seq<Symbol>): (s: seq<byte>)
    requires forall i :: 0 <= i < |syms| ==> |syms[i]| <= 8
    ensures |s| == 8 * |syms|
  {
    if |syms| == 0 then []
    else Words(syms[..|syms| - 1]) + LeBytes(LeNat(syms[|syms| - 1]), 8)
  }

  function LengthBytes(syms: seq<Symbol>): (s: seq<byte>)
    requires forall i :: 0 <= i < |syms| ==> |syms[i]| <= 8
    ensures |s| == |syms|
  {
    seq(|syms|, i requires 0 <= i < |syms| => |syms[i]|)
  }

  function HeaderOf(n: nat): nat {
    MAGIC + SWITCH + n
  }

  function Serialized(syms: seq<Symbol>): (s: seq<byte>)
    requires |syms| <= 255 && forall i :: 0 <= i < |syms| ==> |syms[i]| <= 8
    ensures |s| == TABLE_BYTES
  {
    LeBytes(HeaderOf(|syms|), 8) + Words(syms) + LengthBytes(syms) + seq(2304 - 9 * |syms|, i => 0)
  }

  lemma {:induction false} WordsAt(syms: seq<Symbol>, i: nat)
    requires (forall j :: 0 <= j < |syms| ==> |syms[j]| <= 8) && i < |syms|
    ensures Words(syms)[8 * i..8 * i + 8] == LeBytes(LeNat(syms[i]), 8)
    decreases |syms|
  {
    hide LeBytes, LeNat;
    var n := |syms| - 1;
    if i < n {
      WordsAt(syms[..n], i);
      assert Words(syms)[8 * i..8 * i + 8] == Words(syms[..n])[8 * i..8 * i + 8];
    } else {
      assert Words(syms)[8 * n..8 * n + 8] == LeBytes(LeNat(syms[n]), 8);
    }
  }

  /** A symbol's word begins with the symbol. */
  lemma {:induction false} WordOfSymbol(sym: Symbol)
    requires |sym| <= 8
    ensures LeBytes(LeNat(sym), 8)[..|sym|] == sym
  {
    LeNatZeros(sym, 8 - |sym|);
    var padded := sym + seq(8 - |sym|, i => 0);
    LeBytesLeNat(padded);
    assert padded[..|sym|] == sym;
  }

  lemma {:induction false} HeaderBack(n: nat)
    requires n <= 255
    ensures HeaderOf(n) < Pow2(64) && LeNat(LeBytes(HeaderOf(n), 8)) == HeaderOf(n)
    ensures And(HeaderOf(n), MAGIC) == MAGIC && HeaderOf(n) % 256 == n && (HeaderOf(n) / SWITCH) % 2 == 1
  {
    Pow2Values();
    AndHigh(0x4653_5354, SWITCH + n, 32);
    LeNatLeBytes(HeaderOf(n), 8);
  }

  lemma {:induction false} SerializedParts(syms: seq<Symbol>)
    requires SymbolsOk(syms)
    ensures
      var s, n := Serialized(syms), |syms|;
      && s[..8] == LeBytes(HeaderOf(n), 8) && s[8..8 + 8 * n] == Words(syms)
      && s[8 + 8 * n..8 + 8 * n + n] == LengthBytes(syms)
  {
    hide Words, LengthBytes, LeBytes;
  }

  lemma {:induction false} LengthsParse(syms: seq<Symbol>, i: nat)
    requires SymbolsOk(syms) && i <= |syms|
    ensures LengthsFrom(Serialized(syms), |syms|, i).Parsed?
    decreases |syms| - i
  {
    hide Serialized;
    if i < |syms| {
      LengthsParse(syms, i + 1);
      LengthByteAt(syms, i);
    }
  }

  lemma {:induction false} LengthByteAt(syms: seq<Symbol>, i: nat)
    requires SymbolsOk(syms) && i < |syms|
    ensures Serialized(syms)[8 + 8 * |syms| + i] == |syms[i]|
  {
    hide Serialized;
    SerializedParts(syms);
    var s, n := Serialized(syms), |syms|;
    assert s[8 + 8 * n + i] == s[8 + 8 * n..8 + 8 * n + n][i];
  }

  lemma {:induction false} WordBytesAt(syms: seq<Symbol>, i: nat)
    requires SymbolsOk(syms) && i < |syms|
    ensures WordAt(Serialized(syms), i) == LeBytes(LeNat(syms[i]), 8)
  {
    hide Serialized, Words, LeBytes, LeNat;
    SerializedParts(syms);
    var s, n := Serialized(syms), |syms|;
    WordsAt(syms, i);
    assert s[8 + 8 * i..8 + 8 * i + 8] == s[8..8 + 8 * n][8 * i..8 * i + 8];
  }

  /** Parsing what was serialized gives the encoder's own symbols, with decoding switched on. */
  lemma {:induction false} ParseSerialized(syms: seq<Symbol>)
    requires SymbolsOk(syms)
    ensures
      var r := Parse(Serialized(syms));
      r.Parsed? && !r.table.passthrough && TableOk(r.table) && Symbols(r.table) == syms
  {
    hide Serialized, And, LengthsFrom, LeBytes, LeNat;
    var s, n := Serialized(syms), |syms|;
    SerializedParts(syms);
    HeaderBack(n);
    LengthsParse(syms, 0);
    LengthsAre(s, n, 0);
    ParsedIsOk(s);
    var t := Parse(s).table;
    forall i | 0 <= i < n ensures Symbols(t)[i] == syms[i] {
      WordBytesAt(syms, i);
      LengthByteAt(syms, i);
      WordOfSymbol(syms[i]);
    }
  }

  /** Compressing with any encoder and decoding through its serialized table restores the value. */
  lemma {:induction false} RoundTrip(syms: seq<Symbol>, v: seq<byte>)
    requires SymbolsOk(syms)
    ensures
      var r := Parse(Serialized(syms));
      r.Parsed? && TableOk(r.table) && Expand(Symbols(r.table), Greedy(syms, v, 0)) == Some(v)
  {
    hide Parse, Serialized, Expand, Greedy, TableOk, Symbols;
    ParseSerialized(syms);
    GreedyExpands(syms, v, 0);
    assert v[0..] == v;
  }

  // ------------------------------------------------------------------
  // The loops
  // ------------------------------------------------------------------

  /** fsst_encode.hpp:375-386. */
  method Serialize(e: Encoder) returns (out: seq<byte>)
    requires e.Valid()
    ensures SymbolsOk(e.syms) && out == Serialized(e.syms)
  {
    hide TablesOk, LeBytes, LeNat;
    assert SymbolsOk(e.syms) by { EncoderSyms(e); }
    var n := |e.values|;
    var words: seq<byte> := [];
    assert e.syms[..0] == [];
    for i := 0 to n
      invariant words == Words(e.syms[..i])
    {
      assert e.syms[..i + 1][..i] == e.syms[..i];
      words := words + LeBytes(e.values[i], 8);
    }
    assert e.syms[..n] == e.syms;
    var lengths: seq<byte> := [];
    for i := 0 to n
      invariant lengths == LengthBytes(e.syms)[..i]
    {
      lengths := lengths + [e.lengths[i]];
    }
    out := LeBytes(HeaderOf(n), 8) + words + lengths + seq(2304 - 9 * n, i => 0);
  }

  lemma {:induction false} EncoderSyms(e: Encoder)
    requires e.Valid()
    ensures SymbolsOk(e.syms)
  {
  }

  /** fsst.hpp:69-87. */
  method ParseTable(bytes: seq<byte>) returns (r: Parsed)
    ensures r == Parse(bytes)
  {
    hide LeNat, And, LengthsFrom;
    if |bytes| != TABLE_BYTES {
      return WrongSize;
    }
    var header := LeNat(bytes[..8]);
    if And(header, MAGIC) != MAGIC {
      return WrongMagic;
    }
    var n := header % 256;
    var words: seq<seq<byte>> := [];
    for i := 0 to n
      invariant |words| == i && forall j :: 0 <= j < i ==> words[j] == WordAt(bytes, j)
    {
      words := words + [bytes[8 + 8 * i..8 + 8 * i + 8]];
    }
    var lengths: seq<nat> := [];
    ghost var goal := LengthsFrom(bytes, n, 0);
    assert goal.Parsed? ==> [] + goal.table.lengths == goal.table.lengths;
    for i := 0 to n
      invariant goal == Prefix(lengths, LengthsFrom(bytes, n, i))
    {
      LengthsStep(bytes, n, i, lengths);
      if !LengthOk(bytes[8 + 8 * n + i]) {
        return BadLength(8 + 8 * n + i);
      }
      lengths := lengths + [bytes[8 + 8 * n + i]];
    }
    LengthsDone(bytes, n, lengths);
    assert words == seq(n, i requires 0 <= i < n => WordAt(bytes, i));
    r := Parsed(Table((header / SWITCH) % 2 == 0, words, lengths));
  }

  ghost function Prefix(ls: seq<nat>, r: Parsed): Parsed {
    if r.Parsed? then Parsed(Table(false, [], ls + r.table.lengths)) else r
  }

  lemma {:induction false} LengthsStep(bytes: seq<byte>, n: nat, i: nat, ls: seq<nat>)
    requires i < n <= 255 && |bytes| == TABLE_BYTES
    ensures
      var b := bytes[8 + 8 * n + i];
      if !LengthOk(b) then LengthsFrom(bytes, n, i) == BadLength(8 + 8 * n + i)
      else Prefix(ls, LengthsFrom(bytes, n, i)) == Prefix(ls + [b], LengthsFrom(bytes, n, i + 1))
  {
    var r := LengthsFrom(bytes, n, i + 1);
    if r.Parsed? {
      assert ls + ([bytes[8 + 8 * n + i]] + r.table.lengths) == ls + [bytes[8 + 8 * n + i]] + r.table.lengths;
    }
  }

  lemma {:induction false} LengthsDone(bytes: seq<byte>, n: nat, ls: seq<nat>)
    requires n <= 255 && |bytes| == TABLE_BYTES
    ensures Prefix(ls, LengthsFrom(bytes, n, n)) == Parsed(Table(false, [], ls))
  {
    assert ls + [] == ls;
  }

  /** The value a list of codes decodes to; a pass-through table copies it. */
  function Decoded(t: Table, codes: seq<byte>): (r: Option<seq<byte>>)
    requires TableOk(t)
  {
    if t.passthrough then Some(codes) else Expand(Symbols(t), codes)
  }

  /** Whole eight-byte words are stored at `at`, though a symbol may be shorter. */
  method StoreWord(out: array<byte>, at: nat, word: seq<byte>)
    requires |word| == 8 && at + 8 <= out.Length
    modifies out
    ensures forall j :: 0 <= j < 8 ==> out[at + j] == word[j]
    ensures forall j :: 0 <= j < out.Length && !(at <= j < at + 8) ==> out[j] == old(out[j])
  {
    for k := 0 to 8
      invariant forall j :: 0 <= j < k ==> out[at + j] == word[j]
      invariant forall j :: 0 <= j < out.Length && !(at <= j < at + 8) ==> out[j] == old(out[j])
    {
      out[at + k] := word[k];
    }
  }

  ghost predicate Written(out: seq<byte>, done: seq<byte>) {
    |done| <= |out| && forall j :: 0 <= j < |done| ==> out[j] == done[j]
  }

  ghost function After(done: seq<byte>, r: Option<seq<byte>>): Option<seq<byte>> {
    if r.None? then None else Some(done + r.value)
  }

  /** decode and decode_unchecked (fsst.hpp:92-134): room for eight bytes a code and eight more is checked
      first; the stores then never leave it. */
  method Decode(t: Table, codes: seq<byte>, out: array<byte>) returns (r: Option<nat>)
    requires TableOk(t)
    modifies out
    ensures r.Some? <==> out.Length >= 8 * |codes| + 8 && Decoded(t, codes).Some?
    ensures r.Some? ==> r.value <= out.Length && Decoded(t, codes) == Some(out[..r.value])
  {
    hide Expand, Symbols;
    if out.Length < 8 * |codes| + 8 {
      return None;
    }
    if t.passthrough {
      for k := 0 to |codes|
        invariant forall j :: 0 <= j < k ==> out[j] == codes[j]
      {
        out[k] := codes[k];
      }
      assert out[..|codes|] == codes;
      return Some(|codes|);
    }
    var at, i := 0, 0;
    ghost var done: seq<byte> := [];
    ghost var syms := Symbols(t);
    assert codes[0..] == codes;
    assert Expand(syms, codes).Some? ==> [] + Expand(syms, codes).value == Expand(syms, codes).value;
    while i < |codes|
      invariant 0 <= i <= |codes| && at == |done| <= 8 * i && Written(out[..], done)
      invariant Expand(syms, codes) == After(done, Expand(syms, codes[i..]))
      decreases |codes| - i
    {
      ExpandStep(syms, codes, i, done);
      var code := codes[i];
      if code == ESCAPE {
        if i + 1 >= |codes| {
          return None;
        }
        out[at] := codes[i + 1];
        done := done + [codes[i + 1]];
        at := at + 1;
        i := i + 2;
      } else {
        if code >= |t.words| {
          return None;
        }
        StoreWord(out, at, t.words[code]);
        SymbolAt(t, code);
        done := done + syms[code];
        at := at + t.lengths[code];
        i := i + 1;
      }
    }
    ExpandEnd(syms, codes[i..], done);
    assert out[..at] == done;
    return Some(at);
  }

  lemma {:induction false} SymbolAt(t: Table, c: nat)
    requires TableOk(t) && c < |t.words|
    ensures Symbols(t)[c] == t.words[c][..t.lengths[c]] && LengthOk(t.lengths[c])
  {
  }

  lemma {:induction false} ExpandStep(syms: seq<Symbol>, codes: seq<byte>, i: nat, done: seq<byte>)
    requires i < |codes|
    ensures
      var r := After(done, Expand(syms, codes[i..]));
      if codes[i] == ESCAPE then
        if i + 1 == |codes| then r == None
        else r == After(done + [codes[i + 1]], Expand(syms, codes[i + 2..]))
      else if codes[i] >= |syms| then r == None
      else r == After(done + syms[codes[i]], Expand(syms, codes[i + 1..]))
  {
    if codes[i] == ESCAPE {
      if i + 1 < |codes| {
        assert codes[i..][2..] == codes[i + 2..];
        var x := Expand(syms, codes[i + 2..]);
        if x.Some? {
          assert done + ([codes[i + 1]] + x.value) == done + [codes[i + 1]] + x.value;
        }
      }
    } else if codes[i] < |syms| {
      assert codes[i..][1..] == codes[i + 1..];
      var x := Expand(syms, codes[i + 1..]);
      if x.Some? {
        assert done + (syms[codes[i]] + x.value) == done + syms[codes[i]] + x.value;
      }
    }
  }

  lemma {:induction false} ExpandEnd(syms: seq<Symbol>, codes: seq<byte>, done: seq<byte>)
    requires |codes| == 0
    ensures After(done, Expand(syms, codes)) == Some(done)
  {
    assert done + [] == done;
  }
}
