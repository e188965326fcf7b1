/** The table of open datagrams: include/nanom_shark/defrag.hpp, ReassemblyTable. */
module Reassembly {
  import opened Bytes
  import opened Assembly

  const U64 := 0x1_0000_0000_0000_0000
  const NO_PACKET := 0xFFFF_FFFF_FFFF_FFFF

  datatype Config = Config(maxBytes: nat, maxConcurrent: nat, timeout: nat)

  datatype Entry = Entry(
    fragments: seq<Fragment>, totalLength: nat, haveLast: bool, conflict: bool,
    firstPid: nat, lastPid: nat, completed: bool, retired: bool,
    fragmentCount: nat, coveredHigh: nat, parts: seq<seq<byte>>, materialized: seq<byte>)

  datatype Result = Result(id: nat, completed: bool, retained: bool, parts: seq<seq<byte>>)

  datatype Status = Finished | TimedOut | OverlapConflict

  datatype Summary = Summary(
    id: nat, totalLength: nat, fragmentCount: nat, firstPid: nat, lastPid: nat,
    status: Status, gapBytes: nat, tokens: seq<nat>)

  datatype Table<Key> = Table(keyToId: map<Key, nat>, byId: map<nat, Entry>, nextId: nat)

  // ------------------------------------------------------------------
  // The invariant of every reachable table
  // ------------------------------------------------------------------

  ghost predicate EntryOk(cfg: Config, e: Entry) {
    && e.totalLength < U32
    && TotalBytes(e.fragments) <= cfg.maxBytes
    && (!e.completed ==> e.parts == [] && e.materialized == [] && !e.retired)
    && (e.retired ==> e.fragments == [] && e.parts == [])
    && (e.completed && !e.retired ==>
          && Complete(e.fragments, e.totalLength)
          && |Flat(e.parts)| == e.totalLength && Consistent(e.fragments, Flat(e.parts)))
    && (e.materialized != [] ==> |e.materialized| == e.totalLength && (e.retired || e.materialized == Flat(e.parts)))
  }

  /** Every mapped key points to a live open entry, every open entry has exactly one key, ids are
      unique and below nextId, and the table is never over its limit. */
  ghost predicate Inv<Key(!new)>(cfg: Config, t: Table<Key>) {
    && (forall k :: k in t.keyToId ==> t.keyToId[k] in t.byId && !t.byId[t.keyToId[k]].completed)
    && (forall k, l :: k in t.keyToId && l in t.keyToId && t.keyToId[k] == t.keyToId[l] ==> k == l)
    && (forall id :: id in t.byId ==> 1 <= id < t.nextId)
    && (forall id :: id in t.byId ==> EntryOk(cfg, t.byId[id]))
    && (forall id :: id in t.byId && !t.byId[id].completed ==> exists k :: k in t.keyToId && t.keyToId[k] == id)
    && |t.byId| <= cfg.maxConcurrent
    && t.nextId >= 1
  }

  // ------------------------------------------------------------------
  // The three steps
  // ------------------------------------------------------------------

  function Fresh(pid: nat): Entry {
    Entry([], 0, false, false, pid, NO_PACKET, false, false, 0, 0, [], [])
  }

  /** defrag.hpp:239-243: noted before the fragment is accepted. */
  function Noted(e: Entry, f: Fragment): Entry {
    var e' := e.(lastPid := f.pid);
    if f.more then e' else e'.(haveLast := true, totalLength := f.End() % U32)
  }

  /** defrag.hpp:249-252. */
  function Stored(e: Entry, f: Fragment): Entry {
    e.(fragments := e.fragments + [f],
       fragmentCount := (e.fragmentCount + 1) % U32,
       coveredHigh := Max(e.coveredHigh, f.End() % U32))
  }

  predicate Refused<Key>(cfg: Config, t: Table<Key>, key: Key) {
    key !in t.keyToId && |t.byId| >= cfg.maxConcurrent
  }

  function IdFor<Key>(t: Table<Key>, key: Key): nat {
    if key in t.keyToId then t.keyToId[key] else t.nextId
  }

  function Opened<Key>(t: Table<Key>, key: Key, pid: nat): Table<Key> {
    if key in t.keyToId then t
    else Table(t.keyToId[key := t.nextId], t.byId[t.nextId := Fresh(pid)], t.nextId + 1)
  }

  /** What a stored fragment leads to: completion exactly when the stored fragments are complete. */
  ghost predicate Settled<Key>(t: Table<Key>, id: nat, key: Key, s: Entry, t': Table<Key>, r: Result) {
    if s.haveLast && Complete(s.fragments, s.totalLength) then
      && r.id == id && r.completed && r.retained
      && |Flat(r.parts)| == s.totalLength && Consistent(s.fragments, Flat(r.parts))
      && t' == Table(t.keyToId - {key}, t.byId[id := s.(parts := r.parts, completed := true)], t.nextId)
    else
      && r == Result(id, false, true, [])
      && id in t'.byId
      && var c := t'.byId[id].conflict;
      && t' == t.(byId := t.byId[id := s.(conflict := c)])
      && (s.conflict ==> c)
      && (c && !s.conflict ==> s.haveLast && !Agree(s.fragments, s.totalLength))
      && (s.haveLast && NoHole(s.fragments, s.totalLength) ==> c)
  }

  ghost predicate AddStep<Key>(cfg: Config, t: Table<Key>, key: Key, f: Fragment, t': Table<Key>, r: Result) {
    if Refused(cfg, t, key) then t' == t && r == Result(0, false, false, [])
    else
      var id, t1 := IdFor(t, key), Opened(t, key, f.pid);
      && id in t1.byId
      && var e := Noted(t1.byId[id], f);
      if TotalBytes(e.fragments) + |f.data| > cfg.maxBytes then
        t' == t1.(byId := t1.byId[id := e]) && r == Result(id, false, false, [])
      else
        Settled(t1, id, key, Stored(e, f), t', r)
  }

  function Tokens(fs: seq<Fragment>): (ts: seq<nat>)
    ensures |ts| == |fs|
  {
    seq(|fs|, i requires 0 <= i < |fs| => fs[i].token)
  }

  predicate Retirable<Key>(t: Table<Key>, id: nat) {
    id in t.byId && t.byId[id].completed && !t.byId[id].retired
  }

  ghost predicate RetireStep<Key>(t: Table<Key>, id: nat, t': Table<Key>, released: seq<nat>) {
    if Retirable(t, id) then
      && released == Tokens(t.byId[id].fragments)
      && t' == t.(byId := t.byId[id := t.byId[id].(fragments := [], parts := [], retired := true)])
    else
      t' == t && released == []
  }

  /** The age test; the sum is a 64-bit one. */
  predicate Aged(cfg: Config, e: Entry, now: nat) {
    now >= (e.lastPid + cfg.timeout) % U64 || e.lastPid == NO_PACKET
  }

  /** The tokens of fs that name a buffer, in order. */
  function TrackedTokens(fs: seq<Fragment>): (ts: seq<nat>)
  {
    if |fs| == 0 then []
    else TrackedTokens(fs[..|fs| - 1]) + (if fs[|fs| - 1].token == NO_TOKEN then [] else [fs[|fs| - 1].token])
  }

  function SummaryOf(id: nat, e: Entry): Summary {
    Summary(id, e.totalLength, e.fragmentCount, e.firstPid, e.lastPid,
            if e.conflict then OverlapConflict else if e.completed then Finished else TimedOut,
            if e.haveLast && e.totalLength > e.coveredHigh then e.totalLength - e.coveredHigh else 0,
            TrackedTokens(e.fragments))
  }

  ghost function AgedIds<Key>(cfg: Config, t: Table<Key>, now: nat): set<nat> {
    set id | id in t.byId && Aged(cfg, t.byId[id], now)
  }

  function Without<Key>(m: map<Key, nat>, ids: set<nat>): map<Key, nat> {
    map k | k in m && m[k] !in ids :: m[k]
  }

  /** One summary for each id of `ids`, in some order. */
  ghost predicate Summarize(out: seq<Summary>, byId: map<nat, Entry>, ids: set<nat>) {
    && (forall i :: 0 <= i < |out| ==> out[i].id in ids && out[i].id in byId && out[i] == SummaryOf(out[i].id, byId[out[i].id]))
    && (forall i, j :: 0 <= i < j < |out| ==> out[i].id != out[j].id)
    && (forall id :: id in ids ==> exists i :: 0 <= i < |out| && out[i].id == id)
  }

  ghost predicate EvictStep<Key>(cfg: Config, t: Table<Key>, now: nat, t': Table<Key>, out: seq<Summary>) {
    var aged := AgedIds(cfg, t, now);
    && t' == Table(Without(t.keyToId, aged), t.byId - aged, t.nextId)
    && Summarize(out, t.byId, aged)
  }

  // ------------------------------------------------------------------
  // Every step keeps the invariant
  // ------------------------------------------------------------------

  lemma {:induction false} OpenedKeeps<Key(!new)>(cfg: Config, t: Table<Key>, key: Key, pid: nat)
    requires Inv(cfg, t) && !Refused(cfg, t, key)
    ensures Inv(cfg, Opened(t, key, pid)) && IdFor(t, key) in Opened(t, key, pid).byId
    ensures key in Opened(t, key, pid).keyToId && Opened(t, key, pid).keyToId[key] == IdFor(t, key)
  {
    if key !in t.keyToId {
      var t1 := Opened(t, key, pid);
      assert t1.keyToId[key] == t.nextId;
      forall id | id in t1.byId && !t1.byId[id].completed
        ensures exists k :: k in t1.keyToId && t1.keyToId[k] == id
      {
        if id != t.nextId {
          var k :| k in t.keyToId && t.keyToId[k] == id;
          assert t1.keyToId[k] == id;
        }
      }
    }
  }

  lemma {:induction false} UpdateOpen<Key(!new)>(cfg: Config, t: Table<Key>, key: Key, e: Entry)
    requires Inv(cfg, t) && key in t.keyToId && EntryOk(cfg, e) && !e.completed
    ensures Inv(cfg, t.(byId := t.byId[t.keyToId[key] := e]))
  {
    hide EntryOk;
    var t' := t.(byId := t.byId[t.keyToId[key] := e]);
    assert t'.byId.Keys == t.byId.Keys;
    assert |t'.byId| == |t'.byId.Keys|;
    forall id | id in t'.byId && !t'.byId[id].completed
      ensures exists k :: k in t'.keyToId && t'.keyToId[k] == id
    {
      assert !t.byId[id].completed;
      var k :| k in t.keyToId && t.keyToId[k] == id;
    }
  }

  lemma {:induction false} UpdateComplete<Key(!new)>(cfg: Config, t: Table<Key>, key: Key, e: Entry)
    requires Inv(cfg, t) && key in t.keyToId && EntryOk(cfg, e) && e.completed
    ensures Inv(cfg, Table(t.keyToId - {key}, t.byId[t.keyToId[key] := e], t.nextId))
  {
    hide EntryOk;
    var id0 := t.keyToId[key];
    var t' := Table(t.keyToId - {key}, t.byId[id0 := e], t.nextId);
    assert t'.byId.Keys == t.byId.Keys;
    assert |t'.byId| == |t'.byId.Keys|;
    forall id | id in t'.byId && !t'.byId[id].completed
      ensures exists k :: k in t'.keyToId && t'.keyToId[k] == id
    {
      var k :| k in t.keyToId && t.keyToId[k] == id;
      assert k in t'.keyToId;
    }
  }

  lemma {:induction false} StoredOk(cfg: Config, e: Entry, f: Fragment)
    requires EntryOk(cfg, e) && !e.completed && TotalBytes(e.fragments) + |f.data| <= cfg.maxBytes
    ensures EntryOk(cfg, Stored(Noted(e, f), f)) && !Stored(Noted(e, f), f).completed
  {
    TotalBytesAppend(e.fragments, f);
  }

  lemma {:induction false} AddKeepsInv<Key(!new)>(cfg: Config, t: Table<Key>, key: Key, f: Fragment, t': Table<Key>,
                                                  r: Result)
    requires Inv(cfg, t) && AddStep(cfg, t, key, f, t', r)
    ensures Inv(cfg, t')
  {
    hide Inv, Complete, NoHole, Agree, Consistent, TotalBytes, Flat;
    if !Refused(cfg, t, key) {
      var id, t1 := IdFor(t, key), Opened(t, key, f.pid);
      OpenedKeeps(cfg, t, key, f.pid);
      InvAt(cfg, t1, key);
      var e := Noted(t1.byId[id], f);
      if TotalBytes(e.fragments) + |f.data| > cfg.maxBytes {
        UpdateOpen(cfg, t1, key, e);
      } else {
        StoredOk(cfg, t1.byId[id], f);
        if r.completed {
          UpdateComplete(cfg, t1, key, t'.byId[id]);
        } else {
          UpdateOpen(cfg, t1, key, t'.byId[id]);
        }
      }
    }
  }

  lemma {:induction false} InvAt<Key(!new)>(cfg: Config, t: Table<Key>, key: Key)
    requires Inv(cfg, t) && key in t.keyToId
    ensures t.keyToId[key] in t.byId
    ensures EntryOk(cfg, t.byId[t.keyToId[key]]) && !t.byId[t.keyToId[key]].completed
  {
  }

  lemma {:induction false} RetireKeepsInv<Key(!new)>(cfg: Config, t: Table<Key>, id: nat, t': Table<Key>,
                                                     released: seq<nat>)
    requires Inv(cfg, t) && RetireStep(t, id, t', released)
    ensures Inv(cfg, t')
  {
    if Retirable(t, id) {
      assert t'.byId.Keys == t.byId.Keys;
      assert |t'.byId| == |t'.byId.Keys|;
      assert EntryOk(cfg, t'.byId[id]);
      forall i | i in t'.byId && !t'.byId[i].completed
        ensures exists k :: k in t'.keyToId && t'.keyToId[k] == i
      {
        var k :| k in t.keyToId && t.keyToId[k] == i;
      }
    }
  }

  lemma {:induction false} EvictKeepsInv<Key(!new)>(cfg: Config, t: Table<Key>, now: nat, t': Table<Key>,
                                                    out: seq<Summary>)
    requires Inv(cfg, t) && EvictStep(cfg, t, now, t', out)
    ensures Inv(cfg, t')
  {
    hide EntryOk, Summarize, AgedIds;
    var gone := AgedIds(cfg, t, now);
    RemovalKeepsInv(cfg, t, gone);
  }

  lemma {:induction false} RemovalKeepsInv<Key(!new)>(cfg: Config, t: Table<Key>, gone: set<nat>)
    requires Inv(cfg, t)
    ensures Inv(cfg, Table(Without(t.keyToId, gone), t.byId - gone, t.nextId))
  {
    hide EntryOk, Without;
    var t' := Table(Without(t.keyToId, gone), t.byId - gone, t.nextId);
    WithoutIs(t.keyToId, gone);
    Smaller(t.byId, gone);
    forall id | id in t'.byId && !t'.byId[id].completed
      ensures exists k :: k in t'.keyToId && t'.keyToId[k] == id
    {
      StillKeyed(cfg, t, gone, id);
    }
  }

  lemma {:induction false} WithoutIs<Key(!new)>(m: map<Key, nat>, gone: set<nat>)
    ensures forall k :: k in Without(m, gone) <==> k in m && m[k] !in gone
    ensures forall k :: k in Without(m, gone) ==> Without(m, gone)[k] == m[k]
  {
  }

  lemma {:induction false} StillKeyed<Key(!new)>(cfg: Config, t: Table<Key>, gone: set<nat>, id: nat)
    requires Inv(cfg, t) && id in t.byId && id !in gone && !t.byId[id].completed
    ensures exists k :: k in Without(t.keyToId, gone) && Without(t.keyToId, gone)[k] == id
  {
    hide EntryOk;
    var k :| k in t.keyToId && t.keyToId[k] == id;
    assert k in Without(t.keyToId, gone);
  }

  lemma {:induction false} Smaller(m: map<nat, Entry>, gone: set<nat>)
    ensures |m - gone| <= |m|
  {
    assert |m| == |m.Keys| && |m - gone| == |(m - gone).Keys|;
    SubsetSize((m - gone).Keys, m.Keys);
  }

  lemma {:induction false} SubsetSize<T>(a: set<T>, b: set<T>)
    requires a <= b
    ensures |a| <= |b|
  {
    if a != {} {
      var x :| x in a;
      SubsetSize(a - {x}, b - {x});
    }
  }
}
