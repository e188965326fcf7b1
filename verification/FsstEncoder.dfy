/** The FSST encoder's lookup tables and its table-driven compressor: include/nanom/fsst_encode.hpp:60-127,
    273-365. */
module FsstEncoder {
  import opened Bytes
  import opened BitOps
  import opened Fsst

  // ------------------------------------------------------------------
  // Words
  // ------------------------------------------------------------------

  /** The low n bits of a ^ b are clear exactly when a and b agree on them. */
  lemma {:induction false} XorLow(a: nat, b: nat, n: nat)
    ensures Xor(a, b) % Pow2(n) == 0 <==> a % Pow2(n) == b % Pow2(n)
    decreases n
  {
    if n > 0 {
      XorLow(a / 2, b / 2, n - 1);
      LowStep(a, Pow2(n - 1));
      LowStep(b, Pow2(n - 1));
      LowStep(Xor(a, b), Pow2(n - 1));
      assert Xor(a, b) == (if a % 2 != b % 2 then 1 else 0) + 2 * Xor(a / 2, b / 2);
    }
  }

  /** ((word ^ value) << (64 - 8 * len)) == 0 on 64 bits. */
  predicate LowBytesEqual(word: nat, value: nat, len: nat)
    requires 1 <= len <= 8
  {
    (Xor(word, value) * Pow2(64 - 8 * len)) % Pow2(64) == 0
  }

  lemma {:induction false} ShiftTest(x: nat, a: nat, b: nat)
    requires a > 0 && b > 0
    ensures a * b > 0 && ((x * a) % (a * b) == 0 <==> x % b == 0)
  {
    var q, r := x / b, x % b;
    assert x == q * b + r;
    assert x * a == q * (a * b) + r * a;
    assert 0 <= r * a < a * b by { MulMono(r + 1, b, a); }
    DivModUnique(x * a, a * b, q, r * a);
    if r > 0 {
      MulMono(1, r, a);
    }
  }

  lemma {:induction false} LowBytesEqualIs(word: nat, value: nat, len: nat)
    requires 1 <= len <= 8 && value < Pow2(8 * len)
    ensures LowBytesEqual(word, value, len) <==> word % Pow2(8 * len) == value
  {
    hide Pow2, Xor;
    Pow2Add(64 - 8 * len, 8 * len);
    ShiftTest(Xor(word, value), Pow2(64 - 8 * len), Pow2(8 * len));
    XorLow(word, value, 8 * len);
    DivModUnique(value, Pow2(8 * len), 0, value);
  }

  /** load(): up to 8 bytes at s[p..], zero-filled. */
  function Load(s: seq<byte>, p: nat): (w: nat)
    requires p <= |s|
  {
    LeNat(s[p..p + Min(|s| - p, 8)])
  }

  /** A word's low bytes are the string's: a symbol matches exactly when its value is the word's low part. */
  lemma {:induction false} WordMatches(s: seq<byte>, p: nat, sym: Symbol)
    requires p + |sym| <= |s| && |sym| <= 8
    ensures Load(s, p) % Pow2(8 * |sym|) == LeNat(sym) <==> At(s, p, sym)
  {
    hide LeNat, Pow2;
    var w := s[p..p + Min(|s| - p, 8)];
    LeNatDrop(w, |sym|);
    assert w[..|sym|] == s[p..p + |sym|];
    if LeNat(w[..|sym|]) == LeNat(sym) {
      LeNatInjective(w[..|sym|], sym);
    }
  }

  // ------------------------------------------------------------------
  // The lookup tables
  // ------------------------------------------------------------------

  datatype Slot = Slot(value: nat, length: nat, code: nat)

  /** One-byte symbols by byte, two-byte ones by their little-endian u16, longer ones by the hash of their first
      three bytes, one symbol a slot. What is absent is kNone or an empty slot. */
  datatype Tables = Tables(bytes: map<nat, nat>, shorts: map<nat, nat>, longs: map<nat, Slot>)

  /** hash3 looks at the first three bytes only; which slot it names does not matter. */
  type Hash = nat -> nat

  function SlotFor(hash: Hash, word: nat): nat {
    hash(word % 0x100_0000)
  }

  /** Every entry is a symbol of the right length, under its own key. */
  ghost predicate Sound(syms: seq<Symbol>, t: Tables, hash: Hash) {
    && (forall k :: k in t.bytes ==> t.bytes[k] < |syms| && |syms[t.bytes[k]]| == 1 && LeNat(syms[t.bytes[k]]) == k)
    && (forall k :: k in t.shorts ==> t.shorts[k] < |syms| && |syms[t.shorts[k]]| == 2 && LeNat(syms[t.shorts[k]]) == k)
    && (forall k :: k in t.longs ==> LongOk(syms, t.longs[k]) && SlotFor(hash, t.longs[k].value) == k)
  }

  ghost predicate LongOk(syms: seq<Symbol>, slot: Slot) {
    slot.code < |syms| && slot.length == |syms[slot.code]| >= 3 && slot.value == LeNat(syms[slot.code])
  }

  /** Every symbol is found under its key: so two long symbols never share a slot. */
  ghost predicate Listed(sym: Symbol, c: nat, t: Tables, hash: Hash) {
    if |sym| == 1 then LeNat(sym) in t.bytes && t.bytes[LeNat(sym)] == c
    else if |sym| == 2 then LeNat(sym) in t.shorts && t.shorts[LeNat(sym)] == c
    else SlotFor(hash, LeNat(sym)) in t.longs && t.longs[SlotFor(hash, LeNat(sym))].code == c
  }

  ghost predicate TablesOk(syms: seq<Symbol>, t: Tables, hash: Hash) {
    && SymbolsOk(syms) && Sound(syms, t, hash)
    && forall c :: 0 <= c < |syms| ==> Listed(syms[c], c, t, hash)
  }

  /** find(): fsst_encode.hpp:109-127. */
  function Find(t: Tables, hash: Hash, s: seq<byte>, p: nat): (r: Option<nat>)
    requires p < |s|
  {
    var word, remaining := Load(s, p), |s| - p;
    var k := SlotFor(hash, word);
    if remaining >= 3 && k in t.longs && t.longs[k].length <= remaining
       && word % Pow2(8 * t.longs[k].length) == t.longs[k].value then Some(t.longs[k].code)
    else if remaining >= 2 && word % 0x1_0000 in t.shorts then Some(t.shorts[word % 0x1_0000])
    else if word % 0x100 in t.bytes then Some(t.bytes[word % 0x100])
    else None
  }

  /** A matching symbol's first three bytes are the word's, so its slot is the word's slot. */
  lemma {:induction false} LongMatchSlot(hash: Hash, s: seq<byte>, p: nat, sym: Symbol)
    requires 3 <= |sym| <= 8 && At(s, p, sym)
    ensures SlotFor(hash, Load(s, p)) == SlotFor(hash, LeNat(sym))
  {
    hide Load, At;
    AtSlice(s, p, sym);
    WordMatches(s, p, sym);
    assert Pow2(24) == 0x100_0000 by { Pow2Values(); Pow2Add(16, 8); }
    Pow2Add(24, 8 * |sym| - 24);
    ModMod(Load(s, p), Pow2(24), Pow2(8 * |sym| - 24));
  }

  /** A symbol matches when its value is the low part of the word, for the three kinds of lookup. */
  lemma {:induction false} LookupMatches(s: seq<byte>, p: nat, sym: Symbol)
    requires p < |s| && 1 <= |sym| <= 8
    ensures |sym| == 1 ==> (Load(s, p) % 0x100 == LeNat(sym) <==> At(s, p, sym))
    ensures |sym| == 2 && |s| - p >= 2 ==> (Load(s, p) % 0x1_0000 == LeNat(sym) <==> At(s, p, sym))
    ensures |sym| <= |s| - p ==> (Load(s, p) % Pow2(8 * |sym|) == LeNat(sym) <==> At(s, p, sym))
    ensures At(s, p, sym) ==> |sym| <= |s| - p
  {
    hide Load, Pow2, LeNat;
    Pow2Values();
    if |sym| <= |s| - p {
      WordMatches(s, p, sym);
      assert |sym| == 1 ==> 8 * |sym| == 8;
      assert |sym| == 2 ==> 8 * |sym| == 16;
    }
  }

  /** find() returns the longest matching symbol. */
  lemma {:induction false} FindIsLongest(syms: seq<Symbol>, t: Tables, hash: Hash, s: seq<byte>, p: nat)
    requires TablesOk(syms, t, hash) && p < |s|
    ensures Find(t, hash, s, p) == Longest(syms, s, p)
  {
    hide Load, At, LeNat, Pow2, SlotFor, Longest, Best;
    var r := Find(t, hash, s, p);
    if r.Some? {
      FoundMatches(syms, t, hash, s, p);
      forall d | 0 <= d < |syms| && At(s, p, syms[d]) ensures |syms[d]| <= |syms[r.value]| {
        NothingLonger(syms, t, hash, s, p, d);
      }
      LongestIsUnique(syms, s, p, r.value, Longest(syms, s, p).value);
    } else {
      forall d | 0 <= d < |syms| ensures !At(s, p, syms[d]) {
        if At(s, p, syms[d]) {
          NothingLonger(syms, t, hash, s, p, d);
        }
      }
    }
  }

  lemma {:induction false} FoundMatches(syms: seq<Symbol>, t: Tables, hash: Hash, s: seq<byte>, p: nat)
    requires TablesOk(syms, t, hash) && p < |s| && Find(t, hash, s, p).Some?
    ensures Find(t, hash, s, p).value < |syms| && At(s, p, syms[Find(t, hash, s, p).value])
  {
    hide Load, At, LeNat, Pow2, SlotFor, Listed;
    var c := Find(t, hash, s, p).value;
    LookupMatches(s, p, syms[c]);
  }

  /** If a symbol matches, something at least as long is found. */
  lemma {:induction false} NothingLonger(syms: seq<Symbol>, t: Tables, hash: Hash, s: seq<byte>, p: nat, d: nat)
    requires TablesOk(syms, t, hash) && p < |s| && d < |syms| && At(s, p, syms[d])
    ensures
      var r := Find(t, hash, s, p);
      r.Some? && r.value < |syms| && |syms[d]| <= |syms[r.value]|
  {
    hide Load, At, LeNat, Pow2, SlotFor;
    LookupMatches(s, p, syms[d]);
    assert Listed(syms[d], d, t, hash);
    if |syms[d]| >= 3 {
      LongMatchSlot(hash, s, p, syms[d]);
    }
  }

  // ------------------------------------------------------------------
  // Adding symbols
  // ------------------------------------------------------------------

  /** For the next two bytes: the length and code of the best symbol of at most two bytes, or the escape. */
  datatype Entry = Entry(length: nat, code: nat)

  function EntryFor(t: Tables, w: nat): Entry {
    if w in t.shorts then Entry(2, t.shorts[w])
    else if w % 0x100 in t.bytes then Entry(1, t.bytes[w % 0x100])
    else Entry(1, ESCAPE)
  }

  class Encoder {
    const hash: Hash
    var values: seq<nat>
    var lengths: seq<nat>
    var tables: Tables
    /** Empty until BuildShortOrByte. */
    var shortOrByte: seq<Entry>
    ghost var syms: seq<Symbol>

    ghost predicate Valid()
      reads this
    {
      && TablesOk(syms, tables, hash) && |values| == |lengths| == |syms|
      && (forall c :: 0 <= c < |syms| ==> lengths[c] == |syms[c]| && values[c] == LeNat(syms[c]))
      && (shortOrByte == [] || ShortOrByteOk())
    }

    ghost predicate ShortOrByteOk()
      reads this
    {
      |shortOrByte| == 0x1_0000 && forall w :: 0 <= w < 0x1_0000 ==> shortOrByte[w] == EntryFor(tables, w)
    }

    /** reset(). */
    constructor (hash: Hash)
      ensures Valid() && syms == [] && shortOrByte == [] && this.hash == hash
    {
      this.hash := hash;
      values, lengths, shortOrByte, syms := [], [], [], [];
      tables := Tables(map[], map[], map[]);
    }

    /** add() (fsst_encode.hpp:91-106): the next code, unless a long symbol's slot is taken; then nothing changes. */
    method Add(value: nat, length: nat, ghost sym: Symbol) returns (ok: bool)
      requires Valid() && shortOrByte == [] && |syms| < MAX_SYMBOLS
      requires 1 <= length <= 8 && |sym| == length && value == LeNat(sym) && sym !in syms
      modifies this`values, this`lengths, this`tables, this`syms
      ensures Valid()
      ensures ok <==> length <= 2 || SlotFor(hash, value) !in old(tables).longs
      ensures syms == if ok then old(syms) + [sym] else old(syms)
    {
      hide TablesOk, LeNat, SlotFor;
      var code := |values|;
      if length == 1 {
        AddByte(syms, tables, hash, sym);
        tables := tables.(bytes := tables.bytes[value := code]);
      } else if length == 2 {
        AddShort(syms, tables, hash, sym);
        tables := tables.(shorts := tables.shorts[value := code]);
      } else {
        if SlotFor(hash, value) in tables.longs {
          return false;
        }
        AddLong(syms, tables, hash, sym);
        tables := tables.(longs := tables.longs[SlotFor(hash, value) := Slot(value, length, code)]);
      }
      values, lengths, syms := values + [value], lengths + [length], syms + [sym];
      ok := true;
    }

    /** The end of train() (fsst_encode.hpp:273-280). */
    method BuildShortOrByte()
      requires Valid()
      modifies this`shortOrByte
      ensures Valid() && ShortOrByteOk()
    {
      hide TablesOk, EntryFor;
      var table: seq<Entry> := [];
      for w := 0 to 0x1_0000
        invariant |table| == w && forall v :: 0 <= v < w ==> table[v] == EntryFor(tables, v)
      {
        table := table + [EntryFor(tables, w)];
      }
      shortOrByte := table;
    }
  }

  lemma {:induction false} StillOk(syms: seq<Symbol>, sym: Symbol)
    requires SymbolsOk(syms) && |syms| < MAX_SYMBOLS && 1 <= |sym| <= 8 && sym !in syms
    ensures SymbolsOk(syms + [sym])
  {
  }

  /** Distinct symbols of one length have distinct values. */
  lemma {:induction false} DistinctValues(syms: seq<Symbol>, sym: Symbol, c: nat)
    requires sym !in syms && c < |syms| && |syms[c]| == |sym|
    ensures LeNat(syms[c]) != LeNat(sym)
  {
    assert syms[c] in syms;
    if LeNat(syms[c]) == LeNat(sym) {
      LeNatInjective(syms[c], sym);
    }
  }

  lemma {:induction false} AddByte(syms: seq<Symbol>, t: Tables, hash: Hash, sym: Symbol)
    requires TablesOk(syms, t, hash) && |syms| < MAX_SYMBOLS && |sym| == 1 && sym !in syms
    ensures TablesOk(syms + [sym], t.(bytes := t.bytes[LeNat(sym) := |syms|]), hash)
  {
    hide LeNat, SlotFor, SymbolsOk;
    StillOk(syms, sym);
    var syms', t' := syms + [sym], t.(bytes := t.bytes[LeNat(sym) := |syms|]);
    forall c | 0 <= c < |syms'| ensures Listed(syms'[c], c, t', hash) {
      if c < |syms| {
        assert Listed(syms[c], c, t, hash);
        if |syms[c]| == 1 {
          DistinctValues(syms, sym, c);
        }
      }
    }
  }

  lemma {:induction false} AddShort(syms: seq<Symbol>, t: Tables, hash: Hash, sym: Symbol)
    requires TablesOk(syms, t, hash) && |syms| < MAX_SYMBOLS && |sym| == 2 && sym !in syms
    ensures TablesOk(syms + [sym], t.(shorts := t.shorts[LeNat(sym) := |syms|]), hash)
  {
    hide LeNat, SlotFor, SymbolsOk;
    StillOk(syms, sym);
    var syms', t' := syms + [sym], t.(shorts := t.shorts[LeNat(sym) := |syms|]);
    forall c | 0 <= c < |syms'| ensures Listed(syms'[c], c, t', hash) {
      if c < |syms| {
        assert Listed(syms[c], c, t, hash);
        if |syms[c]| == 2 {
          DistinctValues(syms, sym, c);
        }
      }
    }
  }

  lemma {:induction false} AddLong(syms: seq<Symbol>, t: Tables, hash: Hash, sym: Symbol)
    requires TablesOk(syms, t, hash) && |syms| < MAX_SYMBOLS && 3 <= |sym| <= 8 && sym !in syms
    requires SlotFor(hash, LeNat(sym)) !in t.longs
    ensures TablesOk(syms + [sym], t.(longs := t.longs[SlotFor(hash, LeNat(sym)) := Slot(LeNat(sym), |sym|, |syms|)]), hash)
  {
    hide LeNat, SlotFor, SymbolsOk;
    StillOk(syms, sym);
    var t' := t.(longs := t.longs[SlotFor(hash, LeNat(sym)) := Slot(LeNat(sym), |sym|, |syms|)]);
    var syms' := syms + [sym];
    forall c | 0 <= c < |syms'| ensures Listed(syms'[c], c, t', hash) {
      if c < |syms| {
        assert Listed(syms[c], c, t, hash);
      }
    }
  }
}
