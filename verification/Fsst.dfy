/** FSST string compression over a list of symbols: what include/nanom/fsst.hpp and fsst_encode.hpp compute. */
module Fsst {
  import opened Bytes

  const ESCAPE := 255
  const MAX_SYMBOLS := 255

  type Symbol = seq<byte>

  /** At most 255 distinct symbols of 1 to 8 bytes; symbol i has code i. */
  ghost predicate SymbolsOk(syms: seq<Symbol>) {
    && |syms| <= MAX_SYMBOLS
    && (forall i :: 0 <= i < |syms| ==> 1 <= |syms[i]| <= 8)
    && (forall i, j :: 0 <= i < j < |syms| ==> syms[i] != syms[j])
  }

  /** Symbol c matches at s[p..] and no matching symbol is longer. */
  ghost predicate IsLongest(syms: seq<Symbol>, s: seq<byte>, p: nat, c: nat) {
    && c < |syms| && At(s, p, syms[c])
    && forall d :: 0 <= d < |syms| && At(s, p, syms[d]) ==> |syms[d]| <= |syms[c]|
  }

  /** The longest match among the first n symbols. */
  ghost function Best(syms: seq<Symbol>, s: seq<byte>, p: nat, n: nat): (r: Option<nat>)
    requires n <= |syms|
    ensures r.None? ==> forall d :: 0 <= d < n ==> !At(s, p, syms[d])
    ensures r.Some? ==> r.value < n && At(s, p, syms[r.value])
    ensures r.Some? ==> forall d :: 0 <= d < n && At(s, p, syms[d]) ==> |syms[d]| <= |syms[r.value]|
  {
    if n == 0 then None
    else
      var b := Best(syms, s, p, n - 1);
      if At(s, p, syms[n - 1]) && (b.None? || |syms[n - 1]| > |syms[b.value]|) then Some(n - 1) else b
  }

  /** Distinct symbols leave no choice: the longest match is unique. */
  lemma {:induction false} LongestIsUnique(syms: seq<Symbol>, s: seq<byte>, p: nat, c: nat, d: nat)
    requires SymbolsOk(syms) && IsLongest(syms, s, p, c) && IsLongest(syms, s, p, d)
    ensures c == d
  {
    assert |syms[c]| == |syms[d]|;
    assert syms[c] == syms[d];
  }

  ghost function Longest(syms: seq<Symbol>, s: seq<byte>, p: nat): (r: Option<nat>)
    ensures r.Some? ==> IsLongest(syms, s, p, r.value)
    ensures r.None? ==> forall d :: 0 <= d < |syms| ==> !At(s, p, syms[d])
  {
    Best(syms, s, p, |syms|)
  }

  /** The plain greedy codes of s[p..]: the longest symbol, else the escaped byte. */
  ghost function Greedy(syms: seq<Symbol>, s: seq<byte>, p: nat): (codes: seq<byte>)
    requires SymbolsOk(syms) && p <= |s|
    ensures |codes| <= 2 * (|s| - p)
    decreases |s| - p
  {
    if p == |s| then []
    else
      match Longest(syms, s, p)
      case Some(c) => [c] + Greedy(syms, s, p + |syms[c]|)
      case None => [ESCAPE, s[p]] + Greedy(syms, s, p + 1)
  }

  /** What a list of codes stands for; None for an unknown code or an escape without its byte. */
  function Expand(syms: seq<Symbol>, codes: seq<byte>): (r: Option<seq<byte>>)
    decreases |codes|
  {
    if |codes| == 0 then Some([])
    else if codes[0] == ESCAPE then
      if |codes| == 1 then None
      else
        match Expand(syms, codes[2..])
        case None => None
        case Some(rest) => Some([codes[1]] + rest)
    else if codes[0] >= |syms| then None
    else
      match Expand(syms, codes[1..])
      case None => None
      case Some(rest) => Some(syms[codes[0]] + rest)
  }

  /** Expanding the greedy codes restores the bytes. */
  lemma {:induction false} GreedyExpands(syms: seq<Symbol>, s: seq<byte>, p: nat)
    requires SymbolsOk(syms) && p <= |s|
    ensures Expand(syms, Greedy(syms, s, p)) == Some(s[p..])
    decreases |s| - p
  {
    hide Best, At, Longest;
    if p == |s| {
      assert s[p..] == [];
    } else {
      match Longest(syms, s, p)
      case Some(c) =>
        AtSlice(s, p, syms[c]);
        var rest := Greedy(syms, s, p + |syms[c]|);
        GreedyExpands(syms, s, p + |syms[c]|);
        assert ([c] + rest)[1..] == rest;
        assert syms[c] + s[p + |syms[c]|..] == s[p..];
      case None =>
        var rest := Greedy(syms, s, p + 1);
        GreedyExpands(syms, s, p + 1);
        assert ([ESCAPE, s[p]] + rest)[2..] == rest;
        assert [s[p]] + s[p + 1..] == s[p..];
    }
  }
}
