/** A datagram cut into pieces and delivered in any order completes exactly on its last piece, with
    its own bytes (include/nanom_shark/defrag.hpp:198-200). */
module Delivery {
  import opened Bytes
  import opened Assembly
  import opened Reassembly
  import opened ReassemblyRuns

  function Offset(pieces: seq<seq<byte>>, i: nat): nat
    requires i <= |pieces|
  {
    |Flat(pieces[..i])|
  }

  lemma {:induction false} OffsetNext(pieces: seq<seq<byte>>, i: nat)
    requires i < |pieces|
    ensures Offset(pieces, i + 1) == Offset(pieces, i) + |pieces[i]|
    ensures Flat(pieces[..i + 1]) == Flat(pieces[..i]) + pieces[i]
  {
    assert pieces[..i + 1] == pieces[..i] + [pieces[i]];
    FlatAppend(pieces[..i], pieces[i]);
  }

  lemma {:induction false} OffsetMonotone(pieces: seq<seq<byte>>, i: nat, j: nat)
    requires i <= j <= |pieces|
    ensures Offset(pieces, i) <= Offset(pieces, j)
    ensures Flat(pieces[..i]) <= Flat(pieces[..j])
    decreases j - i
  {
    if i < j {
      OffsetMonotone(pieces, i, j - 1);
      OffsetNext(pieces, j - 1);
    }
  }

  /** Piece i lies in the datagram where its offset says. */
  lemma {:induction false} PieceBytes(pieces: seq<seq<byte>>, i: nat)
    requires i < |pieces|
    ensures Offset(pieces, i) + |pieces[i]| <= |Flat(pieces)|
    ensures Flat(pieces)[Offset(pieces, i)..Offset(pieces, i) + |pieces[i]|] == pieces[i]
  {
    OffsetNext(pieces, i);
    OffsetMonotone(pieces, i + 1, |pieces|);
    assert pieces[..|pieces|] == pieces;
    var upTo := Flat(pieces[..i + 1]);
    assert Flat(pieces)[..|upTo|] == upTo;
    assert upTo[Offset(pieces, i)..] == pieces[i];
  }

  ghost predicate IsPiece(pieces: seq<seq<byte>>, i: nat, f: Fragment) {
    && i < |pieces|
    && f.offset == Offset(pieces, i) && f.data == pieces[i] && f.more == (i < |pieces| - 1)
  }

  ghost predicate Distinct(order: seq<nat>) {
    forall i, j :: 0 <= i < j < |order| ==> order[i] != order[j]
  }

  /** fs are the pieces named by order. */
  ghost predicate Named(pieces: seq<seq<byte>>, order: seq<nat>, fs: seq<Fragment>) {
    |fs| <= |order| && forall j :: 0 <= j < |fs| ==> IsPiece(pieces, order[j], fs[j])
  }

  ghost predicate NonEmpty(pieces: seq<seq<byte>>) {
    |pieces| > 0 && forall i :: 0 <= i < |pieces| ==> |pieces[i]| > 0
  }

  // ------------------------------------------------------------------
  // Coverage
  // ------------------------------------------------------------------

  /** Two different pieces share no byte. */
  lemma {:induction false} PiecesDisjoint(pieces: seq<seq<byte>>, i: nat, j: nat, f: Fragment)
    requires NonEmpty(pieces) && i < |pieces| && i != j && IsPiece(pieces, j, f)
    ensures !f.Covers(Offset(pieces, i))
  {
    OffsetNext(pieces, i);
    OffsetNext(pieces, j);
    if j < i {
      OffsetMonotone(pieces, j + 1, i);
    } else {
      OffsetMonotone(pieces, i + 1, j);
    }
  }

  /** While a piece is missing there is a hole. */
  lemma {:induction false} MissingPieceIsHole(pieces: seq<seq<byte>>, order: seq<nat>, fs: seq<Fragment>)
    requires NonEmpty(pieces) && Distinct(order) && Named(pieces, order, fs) && |fs| < |order| == |pieces|
    requires order[|fs|] < |pieces|
    ensures !NoHole(fs, |Flat(pieces)|)
  {
    hide NonEmpty, IsPiece;
    var i := order[|fs|];
    var x := Offset(pieces, i);
    forall j | 0 <= j < |fs| ensures !fs[j].Covers(x) {
      PiecesDisjoint(pieces, i, order[j], fs[j]);
    }
    assert !Covered(fs, x);
    PieceBytes(pieces, i);
    assert |pieces[i]| > 0 by { PieceNonEmpty(pieces, i); }
  }

  lemma {:induction false} PieceNonEmpty(pieces: seq<seq<byte>>, i: nat)
    requires NonEmpty(pieces) && i < |pieces|
    ensures |pieces[i]| > 0
  {
  }

  lemma {:induction false} PieceAt(pieces: seq<seq<byte>>, x: nat) returns (i: nat)
    requires x < |Flat(pieces)|
    ensures i < |pieces| && Offset(pieces, i) <= x < Offset(pieces, i) + |pieces[i]|
  {
    i := 0;
    assert pieces[..|pieces|] == pieces;
    while x >= Offset(pieces, i + 1)
      invariant i < |pieces| && Offset(pieces, i) <= x
      decreases |pieces| - i
    {
      i := i + 1;
    }
    OffsetNext(pieces, i);
  }

  /** Distinct indices below n, n of them: every index occurs. */
  lemma {:induction false} EveryIndexOccurs(order: seq<nat>, i: nat) returns (j: nat)
    requires Distinct(order) && (forall k :: 0 <= k < |order| ==> order[k] < |order|) && i < |order|
    ensures j < |order| && order[j] == i
  {
    var seen := set k | 0 <= k < |order| :: order[k];
    var all := Below(|order|);
    DistinctSize(order);
    BelowHas(|order|);
    assert seen <= all;
    if i !in seen {
      SubsetSize(seen, all - {i});
      assert false;
    }
    j :| 0 <= j < |order| && order[j] == i;
  }

  lemma {:induction false} DistinctSize(order: seq<nat>)
    requires Distinct(order)
    ensures |set k | 0 <= k < |order| :: order[k]| == |order|
  {
    if |order| > 0 {
      var n := |order| - 1;
      var front := order[..n];
      DistinctSize(front);
      assert (set k | 0 <= k < |order| :: order[k]) == (set k | 0 <= k < |front| :: front[k]) + {order[n]};
    }
  }

  ghost function Below(n: nat): set<nat> {
    if n == 0 then {} else Below(n - 1) + {n - 1}
  }

  lemma {:induction false} BelowHas(n: nat)
    ensures |Below(n)| == n && forall k: nat :: k in Below(n) <==> k < n
  {
    if n > 0 {
      BelowHas(n - 1);
    }
  }

  lemma {:induction false} PiecesConsistent(pieces: seq<seq<byte>>, order: seq<nat>, fs: seq<Fragment>)
    requires Named(pieces, order, fs)
    ensures Consistent(fs, Flat(pieces)) && Agree(fs, |Flat(pieces)|)
  {
    var d := Flat(pieces);
    forall j, x: nat | 0 <= j < |fs| && x < |d| && fs[j].Covers(x)
      ensures d[x] == fs[j].data[x - fs[j].offset]
    {
      PieceBytes(pieces, order[j]);
      assert d[fs[j].offset..fs[j].End()][x - fs[j].offset] == d[x];
    }
    ConsistentAgree(fs, d);
  }

  lemma {:induction false} ConsistentAgree(fs: seq<Fragment>, d: seq<byte>)
    requires Consistent(fs, d)
    ensures Agree(fs, |d|)
  {
    forall i, j, x: nat | 0 <= i < |fs| && 0 <= j < |fs| && x < |d| && fs[i].Covers(x) && fs[j].Covers(x)
      ensures fs[i].data[x - fs[i].offset] == fs[j].data[x - fs[j].offset]
    {
      assert d[x] == fs[i].data[x - fs[i].offset];
    }
  }

  /** All the pieces, in any order, are a complete datagram. */
  lemma {:induction false} AllPiecesComplete(pieces: seq<seq<byte>>, order: seq<nat>, fs: seq<Fragment>)
    requires Distinct(order) && Named(pieces, order, fs) && |fs| == |order| == |pieces|
    requires forall k :: 0 <= k < |order| ==> order[k] < |order|
    ensures Complete(fs, |Flat(pieces)|)
  {
    hide Flat;
    var d := Flat(pieces);
    PiecesConsistent(pieces, order, fs);
    forall x: nat {:trigger Covered(fs, x)} | x < |d| ensures Covered(fs, x) {
      var i := PieceAt(pieces, x);
      var j := EveryIndexOccurs(order, i);
      assert fs[j].Covers(x);
    }
    forall j, x: nat | 0 <= j < |fs| && x < fs[j].offset ensures Covered(fs, x) {
      PieceBytes(pieces, order[j]);
    }
  }

  // ------------------------------------------------------------------
  // Size
  // ------------------------------------------------------------------

  /** Distinct pieces never hold more bytes than the datagram. */
  lemma {:induction false} PiecesFit(pieces: seq<seq<byte>>, order: seq<nat>, fs: seq<Fragment>)
    requires Distinct(order) && |fs| == |order|
    requires forall j :: 0 <= j < |fs| ==> order[j] < |pieces| && fs[j].data == pieces[order[j]]
    ensures TotalBytes(fs) <= |Flat(pieces)|
    decreases |pieces|
  {
    hide Flat;
    if |pieces| == 0 {
      assert fs == [];
    } else {
      var n := |pieces| - 1;
      OffsetNext(pieces, n);
      assert pieces[..n + 1] == pieces;
      if j :| 0 <= j < |order| && order[j] == n {
        TotalWithout(fs, j);
        PiecesFit(pieces[..n], order[..j] + order[j + 1..], fs[..j] + fs[j + 1..]);
      } else {
        PiecesFit(pieces[..n], order, fs);
      }
    }
  }

  // ------------------------------------------------------------------
  // The run
  // ------------------------------------------------------------------

  ghost function Deliveries<Key>(es: seq<Event<Key>>, key: Key): seq<Fragment> {
    if |es| == 0 then []
    else
      var e := es[|es| - 1];
      Deliveries(es[..|es| - 1], key) + (if e.Added? && e.key == key then [e.f] else [])
  }

  lemma {:induction false} DeliveriesPrefix<Key>(es: seq<Event<Key>>, key: Key, i: nat)
    requires i <= |es|
    ensures Deliveries(es[..i], key) <= Deliveries(es, key)
    decreases |es| - i
  {
    if i < |es| {
      DeliveriesPrefix(es, key, i + 1);
      assert es[..i + 1][..i] == es[..i];
    } else {
      assert es[..i] == es;
    }
  }

  /** The run brings key exactly the pieces, in the given order, among adds for other keys and
      retirements; there is room when the first piece arrives. */
  ghost predicate Brings<Key>(cfg: Config, ts: seq<Table<Key>>, es: seq<Event<Key>>, key: Key,
                              pieces: seq<seq<byte>>, order: seq<nat>)
    requires |ts| == |es| + 1
  {
    && NonEmpty(pieces) && |Flat(pieces)| <= cfg.maxBytes
    && Distinct(order) && |order| == |pieces| && (forall k :: 0 <= k < |order| ==> order[k] < |order|)
    && key !in ts[0].keyToId
    && (forall i :: 0 <= i < |es| ==> !es[i].Evicted?)
    && (forall i :: 0 <= i < |es| && es[i].Added? && es[i].key == key && Deliveries(es[..i], key) == [] ==>
          |ts[i].byId| < cfg.maxConcurrent)
    && |Deliveries(es, key)| == |pieces| && Named(pieces, order, Deliveries(es, key))
  }

  /** The entry once fs has been delivered. */
  ghost predicate Waiting<Key>(t: Table<Key>, key: Key, pieces: seq<seq<byte>>, fs: seq<Fragment>) {
    if |fs| == 0 then key !in t.keyToId
    else if |fs| < |pieces| then
      && key in t.keyToId && t.keyToId[key] in t.byId
      && Holding(t.byId[t.keyToId[key]], pieces, fs)
    else true
  }

  ghost predicate Holding(e: Entry, pieces: seq<seq<byte>>, fs: seq<Fragment>) {
    && e.fragments == fs
    && (e.haveLast <==> exists j :: 0 <= j < |fs| && !fs[j].more)
    && (e.haveLast ==> e.totalLength == |Flat(pieces)|)
  }

  lemma {:induction false} OtherKeyWaits<Key(!new)>(cfg: Config, t: Table<Key>, e: Event<Key>, t': Table<Key>, key: Key,
                                 pieces: seq<seq<byte>>, fs: seq<Fragment>)
    requires Inv(cfg, t) && Step(cfg, t, e, t') && Waiting(t, key, pieces, fs)
    requires !e.Evicted? && !(e.Added? && e.key == key)
    ensures Waiting(t', key, pieces, fs)
  {
    hide EntryOk, Complete, Agree, NoHole, Consistent, Flat, TotalBytes, Holding;
  }

  lemma {:induction false} LastPieceTotal(pieces: seq<seq<byte>>, i: nat, f: Fragment)
    requires IsPiece(pieces, i, f) && !f.more
    ensures f.End() == |Flat(pieces)|
  {
    OffsetNext(pieces, i);
    assert pieces[..i + 1] == pieces;
  }

  lemma {:induction false} NotedHolds(e: Entry, f: Fragment, pieces: seq<seq<byte>>, fs: seq<Fragment>, i: nat)
    requires Holding(e, pieces, fs) && IsPiece(pieces, i, f) && |Flat(pieces)| < U32
    ensures Holding(Stored(Noted(e, f), f), pieces, fs + [f])
  {
    hide Flat;
    var s := Stored(Noted(e, f), f);
    if !f.more {
      LastPieceTotal(pieces, i, f);
      assert !(fs + [f])[|fs|].more;
    } else if e.haveLast {
      var j :| 0 <= j < |fs| && !fs[j].more;
      assert !(fs + [f])[j].more;
    }
  }

  /** One piece arrives. */
  lemma {:induction false} PieceArrives<Key(!new)>(cfg: Config, t: Table<Key>, key: Key, f: Fragment, t': Table<Key>,
                                                   r: Result,
                                pieces: seq<seq<byte>>, order: seq<nat>, fs: seq<Fragment>)
    requires cfg.maxBytes < U32 && Inv(cfg, t) && AddStep(cfg, t, key, f, t', r)
    requires NonEmpty(pieces) && |Flat(pieces)| <= cfg.maxBytes
    requires Distinct(order) && |order| == |pieces| && forall k :: 0 <= k < |order| ==> order[k] < |order|
    requires |fs| < |pieces| && Named(pieces, order, fs + [f]) && Waiting(t, key, pieces, fs)
    requires |fs| == 0 ==> |t.byId| < cfg.maxConcurrent
    ensures r.retained && (r.completed <==> |fs| + 1 == |pieces|)
    ensures r.completed ==> Flat(r.parts) == Flat(pieces)
    ensures Waiting(t', key, pieces, fs + [f])
  {
    hide EntryOk, Complete, NoHole, Agree, Consistent, TotalBytes, Flat, Inv, NonEmpty, IsPiece, Distinct, Stored, Noted;
    var id, t1 := IdFor(t, key), Opened(t, key, f.pid);
    OpenedKeeps(cfg, t, key, f.pid);
    var e := t1.byId[id];
    var gs := fs + [f];
    assert Holding(e, pieces, fs);
    assert IsPiece(pieces, order[|fs|], f) by { assert gs[|fs|] == f; }
    NotedHolds(e, f, pieces, fs, order[|fs|]);
    PieceFits(pieces, order, fs, f);
    var s := Stored(Noted(e, f), f);
    NotedFragments(e, f);
    assert Settled(t1, id, key, s, t', r);
    Verdict(pieces, order, gs, s);
    if s.haveLast && Complete(gs, s.totalLength) {
      SameDatagram(pieces, order, gs, Flat(r.parts));
    }
  }

  lemma {:induction false} NotedFragments(e: Entry, f: Fragment)
    ensures Noted(e, f).fragments == e.fragments
  {
  }

  lemma {:induction false} PieceFits(pieces: seq<seq<byte>>, order: seq<nat>, fs: seq<Fragment>, f: Fragment)
    requires Distinct(order) && |fs| < |order| && Named(pieces, order, fs + [f])
    ensures TotalBytes(fs) + |f.data| <= |Flat(pieces)|
  {
    hide Flat;
    var gs := fs + [f];
    TotalBytesAppend(fs, f);
    forall j | 0 <= j < |gs| ensures order[..|gs|][j] < |pieces| && gs[j].data == pieces[order[..|gs|][j]] {
      assert IsPiece(pieces, order[j], gs[j]);
    }
    PiecesFit(pieces, order[..|gs|], gs);
  }

  /** Complete exactly when every piece is there. */
  lemma {:induction false} Verdict(pieces: seq<seq<byte>>, order: seq<nat>, gs: seq<Fragment>, s: Entry)
    requires NonEmpty(pieces) && Distinct(order) && |order| == |pieces| && forall k :: 0 <= k < |order| ==> order[k] < |order|
    requires Named(pieces, order, gs) && Holding(s, pieces, gs)
    ensures s.haveLast && Complete(s.fragments, s.totalLength) <==> |gs| == |pieces|
  {
    hide NoHole, Agree, Flat;
    if |gs| == |pieces| {
      AllPiecesComplete(pieces, order, gs);
      var j := EveryIndexOccurs(order, |pieces| - 1);
      assert IsPiece(pieces, order[j], gs[j]);
    } else {
      MissingPieceIsHole(pieces, order, gs);
    }
  }

  lemma {:induction false} SameDatagram(pieces: seq<seq<byte>>, order: seq<nat>, gs: seq<Fragment>, d: seq<byte>)
    requires Named(pieces, order, gs) && Complete(gs, |Flat(pieces)|) && Consistent(gs, d) && |d| == |Flat(pieces)|
    ensures d == Flat(pieces)
  {
    PiecesConsistent(pieces, order, gs);
    DatagramUnique(gs, |d|, d, Flat(pieces));
  }

  lemma {:induction false} WaitingAt<Key(!new)>(cfg: Config, ts: seq<Table<Key>>, es: seq<Event<Key>>, key: Key,
                                                pieces: seq<seq<byte>>, order: seq<nat>, i: nat)
    requires cfg.maxBytes < U32 && IsRun(cfg, ts, es) && Inv(cfg, ts[0])
    requires Brings(cfg, ts, es, key, pieces, order) && i <= |es|
    ensures Waiting(ts[i], key, pieces, Deliveries(es[..i], key))
    decreases i
  {
    hide Inv, Step, NonEmpty, Distinct, Flat, Waiting, IsPiece;
    if i == 0 {
      WaitingNone(ts[0], key, pieces);
    } else {
      WaitingAt(cfg, ts, es, key, pieces, order, i - 1);
      RunKeepsInv(cfg, ts, es, i - 1);
      assert es[..i][..i - 1] == es[..i - 1];
      assert Step(cfg, ts[i - 1], es[i - 1], ts[i - 1 + 1]);
      var e, fs := es[i - 1], Deliveries(es[..i - 1], key);
      if e.Added? && e.key == key {
        Arrival(cfg, ts, es, key, pieces, order, i - 1);
      } else {
        OtherKeyWaits(cfg, ts[i - 1], e, ts[i], key, pieces, fs);
        assert Deliveries(es[..i], key) == fs;
      }
    }
  }

  lemma {:induction false} WaitingNone<Key>(t: Table<Key>, key: Key, pieces: seq<seq<byte>>)
    requires key !in t.keyToId
    ensures Waiting(t, key, pieces, [])
  {
  }

  lemma {:induction false} DeliveredUpTo<Key>(es: seq<Event<Key>>, key: Key, i: nat)
    requires i < |es| && es[i].Added? && es[i].key == key
    ensures Deliveries(es[..i + 1], key) == Deliveries(es[..i], key) + [es[i].f] <= Deliveries(es, key)
  {
    assert es[..i + 1][..i] == es[..i];
    DeliveriesPrefix(es, key, i + 1);
  }

  lemma {:induction false} Arrival<Key(!new)>(cfg: Config, ts: seq<Table<Key>>, es: seq<Event<Key>>, key: Key,
                           pieces: seq<seq<byte>>, order: seq<nat>, i: nat)
    requires cfg.maxBytes < U32 && IsRun(cfg, ts, es) && i < |es| && Inv(cfg, ts[i])
    requires Brings(cfg, ts, es, key, pieces, order) && es[i].Added? && es[i].key == key
    requires Waiting(ts[i], key, pieces, Deliveries(es[..i], key))
    ensures |Deliveries(es[..i], key)| < |pieces| && es[i].r.retained
    ensures es[i].r.completed <==> |Deliveries(es[..i], key)| == |pieces| - 1
    ensures es[i].r.completed ==> Flat(es[i].r.parts) == Flat(pieces)
    ensures Waiting(ts[i + 1], key, pieces, Deliveries(es[..i + 1], key))
  {
    hide Inv, AddStep, NonEmpty, Distinct, Flat, Waiting, IsPiece, Deliveries;
    var fs := Deliveries(es[..i], key);
    assert Step(cfg, ts[i], es[i], ts[i + 1]);
    DeliveredUpTo(es, key, i);
    PieceArrives(cfg, ts[i], key, es[i].f, ts[i + 1], es[i].r, pieces, order, fs);
  }

  /** Main theorem: of the adds that bring the pieces, every one is retained, exactly the last one
      reports completion, and what it reports is the datagram. */
  lemma {:induction false} CompletesOnLastPiece<Key(!new)>(cfg: Config, ts: seq<Table<Key>>, es: seq<Event<Key>>,
                                                           key: Key, pieces: seq<seq<byte>>, order: seq<nat>, i: nat)
    requires cfg.maxBytes < U32 && IsRun(cfg, ts, es) && Inv(cfg, ts[0])
    requires Brings(cfg, ts, es, key, pieces, order)
    requires i < |es| && es[i].Added? && es[i].key == key
    ensures es[i].r.retained
    ensures es[i].r.completed <==> Deliveries(es[..i + 1], key) == Deliveries(es, key)
    ensures es[i].r.completed ==> Flat(es[i].r.parts) == Flat(pieces)
  {
    hide Inv, Step, NonEmpty, Distinct, Flat, Waiting, IsPiece;
    WaitingAt(cfg, ts, es, key, pieces, order, i);
    RunKeepsInv(cfg, ts, es, i);
    Arrival(cfg, ts, es, key, pieces, order, i);
    assert es[..i + 1][..i] == es[..i];
    DeliveriesPrefix(es, key, i + 1);
  }
}
