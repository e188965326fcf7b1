/** The FSST compressor: include/nanom/fsst_encode.hpp:292-365. */
module FsstCompress {
  import opened Bytes
  import opened Fsst
  import opened FsstEncoder

  /** One step of the compressor: the code to write and how far to move on. */
  datatype Pick = Pick(code: byte, length: nat)

  /** The step the plain greedy form takes at s[p]. */
  ghost function GreedyPick(syms: seq<Symbol>, s: seq<byte>, p: nat): (r: Pick)
    requires SymbolsOk(syms) && p < |s|
    ensures 1 <= r.length <= |s| - p
  {
    match Longest(syms, s, p)
    case Some(c) => Pick(c, |syms[c]|)
    case None => Pick(ESCAPE, 1)
  }

  lemma {:induction false} GreedyStep(syms: seq<Symbol>, s: seq<byte>, p: nat)
    requires SymbolsOk(syms) && p < |s|
    ensures
      var r := GreedyPick(syms, s, p);
      Greedy(syms, s, p) == (if r.code == ESCAPE then [ESCAPE, s[p]] else [r.code]) + Greedy(syms, s, p + r.length)
  {
    hide Longest, Best, At;
    match Longest(syms, s, p)
    case Some(c) =>
      assert c < ESCAPE;
      AtSlice(s, p, syms[c]);
      assert Greedy(syms, s, p) == [c] + Greedy(syms, s, p + |syms[c]|);
    case None =>
  }

  /** The slot of the word holds a symbol that matches within the value. */
  ghost predicate LongHit(t: Tables, hash: Hash, word: nat, remaining: nat) {
    var k := SlotFor(hash, word);
    k in t.longs && t.longs[k].length <= remaining && word % Pow2(8 * t.longs[k].length) == t.longs[k].value
  }

  function OneByte(t: Tables, word: nat): Entry {
    if word % 0x100 in t.bytes then Entry(1, t.bytes[word % 0x100]) else Entry(1, ESCAPE)
  }

  /** The two-table lookup is the greedy step. */
  lemma {:induction false} PickCases(syms: seq<Symbol>, t: Tables, hash: Hash, s: seq<byte>, p: nat, word: nat,
                                     remaining: nat)
    requires TablesOk(syms, t, hash) && p < |s| && word == Load(s, p) && remaining == Min(|s| - p, 8)
    ensures SlotFor(hash, word) in t.longs ==>
      var slot := t.longs[SlotFor(hash, word)];
      3 <= slot.length <= 8 && slot.code < ESCAPE && slot.value < Pow2(8 * slot.length)
    ensures
      var r := GreedyPick(syms, s, p);
      if LongHit(t, hash, word, remaining) then
        r == Pick(t.longs[SlotFor(hash, word)].code, t.longs[SlotFor(hash, word)].length)
      else
        var e := if remaining >= 2 then EntryFor(t, word % 0x1_0000) else OneByte(t, word);
        e.code <= ESCAPE && r == Pick(e.code, e.length)
  {
    hide Load, Pow2, LeNat, SlotFor, Longest, Best, Listed, SymbolsOk;
    FindIsLongest(syms, t, hash, s, p);
    assert (word % 0x1_0000) % 0x100 == word % 0x100;
    var k := SlotFor(hash, word);
    SymbolsFacts(syms);
    if k in t.longs {
      LeNatBound(syms[t.longs[k].code]);
    }
  }

  lemma {:induction false} SymbolsFacts(syms: seq<Symbol>)
    requires SymbolsOk(syms)
    ensures |syms| <= MAX_SYMBOLS && forall i :: 0 <= i < |syms| ==> 1 <= |syms[i]| <= 8
  {
  }

  /** The long-symbol slot, then the table of short symbols: fsst_encode.hpp:303-319 with eight bytes left, and
      329-352 near the end, where no match may run past the value. */
  method PickFast(e: Encoder, word: nat, remaining: nat, ghost s: seq<byte>, ghost p: nat) returns (r: Pick)
    requires e.Valid() && e.ShortOrByteOk() && p < |s| && remaining == Min(|s| - p, 8) && word == Load(s, p)
    ensures r == GreedyPick(e.syms, s, p)
  {
    hide Load, Pow2, LowBytesEqual, TablesOk, EntryFor, SlotFor, GreedyPick;
    PickCases(e.syms, e.tables, e.hash, s, p, word, remaining);
    var k := SlotFor(e.hash, word);
    if k in e.tables.longs {
      var slot := e.tables.longs[k];
      LowBytesEqualIs(word, slot.value, slot.length);
      if slot.length <= remaining && LowBytesEqual(word, slot.value, slot.length) {
        return Pick(slot.code, slot.length);
      }
    }
    var entry := if remaining >= 2 then e.shortOrByte[word % 0x1_0000] else OneByte(e.tables, word);
    r := Pick(entry.code, entry.length);
  }

  // ------------------------------------------------------------------
  // The loops
  // ------------------------------------------------------------------

  /** k bytes are out, and they are the greedy codes up to s[p]. */
  ghost predicate Compressed(syms: seq<Symbol>, s: seq<byte>, p: nat, done: seq<byte>)
    requires SymbolsOk(syms)
  {
    p <= |s| && |done| <= 2 * p && done + Greedy(syms, s, p) == Greedy(syms, s, 0)
  }

  lemma {:induction false} CompressedMore(syms: seq<Symbol>, s: seq<byte>, p: nat, done: seq<byte>)
    requires SymbolsOk(syms) && Compressed(syms, s, p, done) && p < |s|
    ensures
      var r := GreedyPick(syms, s, p);
      Compressed(syms, s, p + r.length, done + (if r.code == ESCAPE then [ESCAPE, s[p]] else [r.code]))
  {
    hide Greedy, GreedyPick, SymbolsOk;
    GreedyStep(syms, s, p);
    var r := GreedyPick(syms, s, p);
    var codes := if r.code == ESCAPE then [ESCAPE, s[p]] else [r.code];
    EscapeOne(syms, s, p);
    assert done + (codes + Greedy(syms, s, p + r.length)) == done + codes + Greedy(syms, s, p + r.length);
  }

  lemma {:induction false} EscapeOne(syms: seq<Symbol>, s: seq<byte>, p: nat)
    requires SymbolsOk(syms) && p < |s|
    ensures 1 <= GreedyPick(syms, s, p).length <= |s| - p
  {
  }

  /** dst[o..] starts with done and only dst[o..o + room] differs from before. */
  ghost predicate Holds(dst: seq<byte>, before: seq<byte>, o: nat, done: seq<byte>, room: nat) {
    && |dst| == |before| && |done| <= room && o + room <= |dst|
    && (forall j :: 0 <= j < |done| ==> dst[o + j] == done[j])
    && (forall j :: 0 <= j < |dst| && !(o <= j < o + room) ==> dst[j] == before[j])
  }

  /** The code and the literal byte are both stored; the output moves past the literal only for an escape. */
  method Store(dst: array<byte>, at: nat, code: byte, literal: byte, ghost before: seq<byte>, ghost o: nat,
               ghost done: seq<byte>, ghost room: nat)
    returns (at': nat)
    requires Holds(dst[..], before, o, done, room) && |done| + 2 <= room && at == o + |done|
    modifies dst
    ensures at' == if code == ESCAPE then at + 2 else at + 1
    ensures Holds(dst[..], before, o, done + (if code == ESCAPE then [ESCAPE, literal] else [code]), room)
  {
    dst[at] := code;
    dst[at + 1] := literal;
    at' := if code == ESCAPE then at + 2 else at + 1;
  }

  /** One step: choose, store, move on. */
  method Step(e: Encoder, s: seq<byte>, p: nat, pick: Pick, dst: array<byte>, at: nat, ghost before: seq<byte>,
              ghost o: nat, ghost done: seq<byte>)
    returns (p': nat, at': nat, ghost done': seq<byte>)
    requires SymbolsOk(e.syms) && p < |s| && pick == GreedyPick(e.syms, s, p)
    requires Compressed(e.syms, s, p, done) && Holds(dst[..], before, o, done, 2 * |s|) && at == o + |done|
    modifies dst
    ensures Compressed(e.syms, s, p', done') && Holds(dst[..], before, o, done', 2 * |s|) && at' == o + |done'|
    ensures p' == p + pick.length && p < p' <= |s|
  {
    hide Holds, SymbolsOk, GreedyPick, Compressed;
    CompressedMore(e.syms, s, p, done);
    CompressedBounds(e.syms, s, p, done);
    at' := Store(dst, at, pick.code, s[p], before, o, done, 2 * |s|);
    done' := done + (if pick.code == ESCAPE then [ESCAPE, s[p]] else [pick.code]);
    p' := p + pick.length;
    EscapeOne(e.syms, s, p);
  }

  lemma {:induction false} CompressedBounds(syms: seq<Symbol>, s: seq<byte>, p: nat, done: seq<byte>)
    requires SymbolsOk(syms) && Compressed(syms, s, p, done) && p < |s|
    ensures |done| + 2 <= 2 * |s|
  {
  }

  /** While eight bytes remain (fsst_encode.hpp:303-319). */
  method WholeWords(e: Encoder, s: seq<byte>, dst: array<byte>, o: nat, ghost before: seq<byte>)
    returns (p: nat, at: nat, ghost done: seq<byte>)
    requires e.Valid() && e.ShortOrByteOk() && before == dst[..] && o + 2 * |s| <= dst.Length
    modifies dst
    ensures Compressed(e.syms, s, p, done) && Holds(dst[..], before, o, done, 2 * |s|) && at == o + |done|
    ensures |s| < p + 8
  {
    hide Encoder.Valid, Encoder.ShortOrByteOk, Holds, Compressed, GreedyPick, LeNat;
    p, at, done := 0, o, [];
    ValidSyms(e);
    CompressStart(e.syms, s, before, o);
    while p + 8 <= |s|
      invariant Compressed(e.syms, s, p, done) && Holds(dst[..], before, o, done, 2 * |s|) && at == o + |done|
    {
      var word := LeNat(s[p..p + 8]);
      var pick := PickFast(e, word, 8, s, p);
      p, at, done := Step(e, s, p, pick, dst, at, before, o, done);
    }
  }

  lemma {:induction false} ValidSyms(e: Encoder)
    requires e.Valid()
    ensures SymbolsOk(e.syms)
  {
  }

  lemma {:induction false} CompressStart(syms: seq<Symbol>, s: seq<byte>, before: seq<byte>, o: nat)
    requires SymbolsOk(syms) && o + 2 * |s| <= |before|
    ensures Compressed(syms, s, 0, []) && Holds(before, before, o, [], 2 * |s|)
  {
    assert [] + Greedy(syms, s, 0) == Greedy(syms, s, 0);
  }

  /** The last bytes, from a zero-padded copy (fsst_encode.hpp:323-354). */
  method Tail(e: Encoder, s: seq<byte>, p: nat, dst: array<byte>, at: nat, ghost before: seq<byte>, o: nat,
              ghost done: seq<byte>)
    returns (at': nat, ghost done': seq<byte>)
    requires e.Valid() && e.ShortOrByteOk() && p <= |s| < p + 8
    requires Compressed(e.syms, s, p, done) && Holds(dst[..], before, o, done, 2 * |s|) && at == o + |done|
    modifies dst
    ensures Compressed(e.syms, s, |s|, done') && Holds(dst[..], before, o, done', 2 * |s|) && at' == o + |done'|
  {
    hide Encoder.Valid, Encoder.ShortOrByteOk, Holds, Compressed, GreedyPick, LeNat, Load;
    at', done' := at, done;
    ValidSyms(e);
    var rest := |s| - p;
    var tail := s[p..] + seq(16 - rest, i => 0);
    var i := 0;
    while i < rest
      invariant i <= rest && Compressed(e.syms, s, p + i, done') && Holds(dst[..], before, o, done', 2 * |s|)
      invariant at' == o + |done'|
    {
      var word := LeNat(tail[i..i + 8]);
      TailWord(s, p, i);
      var pick := PickFast(e, word, rest - i, s, p + i);
      var q;
      q, at', done' := Step(e, s, p + i, pick, dst, at', before, o, done');
      i := i + pick.length;
    }
  }

  lemma {:induction false} TailWord(s: seq<byte>, p: nat, i: nat)
    requires p + i < |s| < p + 8
    ensures LeNat((s[p..] + seq(16 - (|s| - p), i => 0))[i..i + 8]) == Load(s, p + i)
  {
    hide LeNat;
    var left := |s| - p - i;
    assert (s[p..] + seq(16 - (|s| - p), i => 0))[i..i + 8] == s[p + i..] + seq(8 - left, i => 0);
    assert s[p + i..] == s[p + i..p + i + Min(left, 8)];
    LeNatZeros(s[p + i..], 8 - left);
  }

  /** An encoder without the short table: the plain lookups (fsst_encode.hpp:356-365). */
  method Plain(e: Encoder, s: seq<byte>, dst: array<byte>, o: nat, ghost before: seq<byte>)
    returns (at: nat, ghost done: seq<byte>)
    requires e.Valid() && before == dst[..] && o + 2 * |s| <= dst.Length
    modifies dst
    ensures Compressed(e.syms, s, |s|, done) && Holds(dst[..], before, o, done, 2 * |s|) && at == o + |done|
  {
    hide TablesOk, Holds, Compressed, Find;
    at, done := o, [];
    var p := 0;
    ValidSyms(e);
    CompressStart(e.syms, s, before, o);
    while p < |s|
      invariant p <= |s| && Compressed(e.syms, s, p, done) && Holds(dst[..], before, o, done, 2 * |s|)
      invariant at == o + |done|
    {
      FindIsLongest(e.syms, e.tables, e.hash, s, p);
      var found := Find(e.tables, e.hash, s, p);
      var pick := if found.None? then Pick(ESCAPE, 1) else Pick(found.value, e.lengths[found.value]);
      p, at, done := Step(e, s, p, pick, dst, at, before, o, done);
    }
  }

  /** compress_unchecked: whichever way it goes, the output is the plain greedy codes, and nothing outside the
      2 * |s| bytes promised is touched. */
  method Compress(e: Encoder, s: seq<byte>, dst: array<byte>, o: nat) returns (n: nat)
    requires e.Valid() && o + 2 * |s| <= dst.Length
    modifies dst
    ensures SymbolsOk(e.syms) && n == |Greedy(e.syms, s, 0)| <= 2 * |s|
    ensures dst[o..o + n] == Greedy(e.syms, s, 0)
    ensures forall j :: 0 <= j < dst.Length && !(o <= j < o + 2 * |s|) ==> dst[j] == old(dst[j])
  {
    hide Encoder.ShortOrByteOk, Greedy;
    var at;
    ghost var done, before := [], dst[..];
    ValidSyms(e);
    if e.shortOrByte != [] {
      var p;
      p, at, done := WholeWords(e, s, dst, o, before);
      at, done := Tail(e, s, p, dst, at, before, o, done);
    } else {
      at, done := Plain(e, s, dst, o, before);
    }
    GreedyEnds(e.syms, s);
    assert done + [] == done;
    n := at - o;
    assert dst[o..o + n] == done;
  }

  lemma {:induction false} GreedyEnds(syms: seq<Symbol>, s: seq<byte>)
    requires SymbolsOk(syms)
    ensures Greedy(syms, s, |s|) == []
  {
  }
}
