/** Which datagrams an eviction reports, told from the events alone: include/nanom_shark/defrag.hpp:222-262, 365-412. */
module Eviction {
  import opened Bytes
  import opened Assembly
  import opened Reassembly
  import opened ReassemblyRuns

  // ------------------------------------------------------------------
  // What the events say of one datagram
  // ------------------------------------------------------------------

  datatype Add<Key> = Add(key: Key, f: Fragment, r: Result)

  /** The adds the table answered with this id, in order. */
  ghost function AddsTo<Key>(es: seq<Event<Key>>, id: nat): seq<Add<Key>> {
    if |es| == 0 then []
    else
      var e := es[|es| - 1];
      AddsTo(es[..|es| - 1], id) + (if e.Added? && e.r.id == id then [Add(e.key, e.f, e.r)] else [])
  }

  ghost predicate Mentions(out: seq<Summary>, id: nat) {
    exists j :: 0 <= j < |out| && out[j].id == id
  }

  ghost predicate Evicted<Key>(es: seq<Event<Key>>, id: nat) {
    |es| > 0 &&
    (Evicted(es[..|es| - 1], id) || (es[|es| - 1].Evicted? && Mentions(es[|es| - 1].summaries, id)))
  }

  /** A datagram the table was given a piece of and has not evicted. */
  ghost predicate Open<Key>(es: seq<Event<Key>>, id: nat) {
    id != 0 && AddsTo(es, id) != [] && !Evicted(es, id)
  }

  /** The fragments stored, in order. */
  ghost function Kept<Key>(adds: seq<Add<Key>>): seq<Fragment> {
    if |adds| == 0 then []
    else Kept(adds[..|adds| - 1]) + (if adds[|adds| - 1].r.retained then [adds[|adds| - 1].f] else [])
  }

  /** The end of the last piece that closes the datagram. */
  ghost function Closing<Key>(adds: seq<Add<Key>>): Option<nat> {
    if |adds| == 0 then None
    else if !adds[|adds| - 1].f.more then Some(adds[|adds| - 1].f.End() % U32)
    else Closing(adds[..|adds| - 1])
  }

  /** The highest end among the pieces stored. */
  ghost function High(fs: seq<Fragment>): nat {
    if |fs| == 0 then 0 else Max(High(fs[..|fs| - 1]), fs[|fs| - 1].End() % U32)
  }

  /** The entry a datagram's adds leave, its conflict flag and parts apart. */
  ghost predicate Told<Key>(e: Entry, adds: seq<Add<Key>>) {
    && |adds| > 0
    && e.firstPid == adds[0].f.pid && e.lastPid == adds[|adds| - 1].f.pid
    && e.fragmentCount == |Kept(adds)| % U32
    && e.haveLast == Closing(adds).Some? && e.totalLength == (if Closing(adds).Some? then Closing(adds).value else 0)
    && e.coveredHigh == High(Kept(adds))
    && e.completed == adds[|adds| - 1].r.completed
    && (!e.retired ==> e.fragments == Kept(adds))
  }

  /** All under one key, which an open datagram still has. */
  ghost predicate Keyed<Key>(t: Table<Key>, id: nat, adds: seq<Add<Key>>)
    requires id in t.byId
  {
    && |adds| > 0 && (forall i :: 0 <= i < |adds| ==> adds[i].key == adds[0].key)
    && (!t.byId[id].completed ==> adds[0].key in t.keyToId && t.keyToId[adds[0].key] == id)
  }

  /** The table holds exactly the datagrams the events left open, each as its adds left it. */
  ghost predicate Tracks<Key>(t: Table<Key>, es: seq<Event<Key>>) {
    && (forall id :: id in t.byId <==> Open(es, id))
    && (forall id :: id in t.byId ==> Told(t.byId[id], AddsTo(es, id)) && Keyed(t, id, AddsTo(es, id)))
    && (forall id: nat :: id >= t.nextId ==> AddsTo(es, id) == [] && !Evicted(es, id))
  }

  // ------------------------------------------------------------------
  // Every step keeps it
  // ------------------------------------------------------------------

  lemma {:induction false} AddsNext<Key>(es: seq<Event<Key>>, e: Event<Key>, id: nat)
    ensures AddsTo(es + [e], id) ==
            if e.Added? && e.r.id == id then AddsTo(es, id) + [Add(e.key, e.f, e.r)] else AddsTo(es, id)
    ensures Evicted(es + [e], id) <==> Evicted(es, id) || (e.Evicted? && Mentions(e.summaries, id))
  {
    assert (es + [e])[..|es + [e]| - 1] == es;
  }

  /** What an add does to its entry, the conflict flag and the parts apart. */
  ghost predicate Became(e: Entry, f: Fragment, r: Result, e': Entry) {
    var n := if r.retained then Stored(Noted(e, f), f) else Noted(e, f);
    e' == n.(conflict := e'.conflict, parts := e'.parts, completed := r.completed)
  }

  lemma {:induction false} ToldMore<Key>(e: Entry, adds: seq<Add<Key>>, a: Add<Key>, e': Entry)
    requires Told(e, adds) && !e.completed && !e.retired
    requires Became(e, a.f, a.r, e')
    ensures Told(e', adds + [a])
  {
    hide High;
    assert (adds + [a])[..|adds + [a]| - 1] == adds;
    HighNext(Kept(adds), a.f);
    if !a.r.retained {
      assert Kept(adds + [a]) == Kept(adds);
    }
  }

  lemma {:induction false} HighNext(fs: seq<Fragment>, f: Fragment)
    ensures High(fs + [f]) == Max(High(fs), f.End() % U32)
  {
    assert (fs + [f])[..|fs + [f]| - 1] == fs;
  }

  lemma {:induction false} ToldFirst<Key>(a: Add<Key>, e': Entry)
    requires Became(Fresh(a.f.pid), a.f, a.r, e')
    ensures Told(e', [a])
  {
    assert [a][..0] == [];
    assert [a.f][..0] == [];
  }

  /** An add that is not refused, as far as the events tell it. */
  ghost predicate Touched<Key>(t: Table<Key>, e: Event<Key>, t': Table<Key>, id: nat)
    requires e.Added?
  {
    && id == IdFor(t, e.key) && e.r.id == id && id >= 1 && id in t'.byId && t'.byId == t.byId[id := t'.byId[id]]
    && t'.nextId == (if e.key in t.keyToId then t.nextId else t.nextId + 1)
    && t'.keyToId == (if e.r.completed then t.keyToId - {e.key} else t.keyToId[e.key := id])
    && (e.key in t.keyToId ==> id in t.byId && !t.byId[id].completed && !t.byId[id].retired)
    && Became(if e.key in t.keyToId then t.byId[id] else Fresh(e.f.pid), e.f, e.r, t'.byId[id])
  }

  lemma {:induction false} AddTouches<Key(!new)>(cfg: Config, t: Table<Key>, e: Event<Key>, t': Table<Key>)
    requires Inv(cfg, t) && e.Added? && AddStep(cfg, t, e.key, e.f, t', e.r) && !Refused(cfg, t, e.key)
    ensures e.r.id == IdFor(t, e.key) && Touched(t, e, t', IdFor(t, e.key))
  {
    hide Inv, AddStep, Opened, Fresh, Became, Refused;
    var id, t1 := IdFor(t, e.key), Opened(t, e.key, e.f.pid);
    OpenedIs(cfg, t, e.key, e.f.pid);
    AddShape(cfg, t, e, t');
    Twice(t.byId, id, t1.byId[id], t'.byId[id]);
    Dropped(t.keyToId, e.key, id);
  }

  lemma {:induction false} Dropped<Key>(m: map<Key, nat>, key: Key, id: nat)
    ensures m[key := id] - {key} == m - {key}
  {
  }

  lemma {:induction false} Twice(m: map<nat, Entry>, id: nat, a: Entry, b: Entry)
    ensures m[id := a][id := b] == m[id := b]
  {
  }

  lemma {:induction false} AddShape<Key(!new)>(cfg: Config, t: Table<Key>, e: Event<Key>, t': Table<Key>)
    requires e.Added? && AddStep(cfg, t, e.key, e.f, t', e.r) && !Refused(cfg, t, e.key)
    requires IdFor(t, e.key) in Opened(t, e.key, e.f.pid).byId
    requires !Opened(t, e.key, e.f.pid).byId[IdFor(t, e.key)].completed
    ensures
      var id, t1 := IdFor(t, e.key), Opened(t, e.key, e.f.pid);
      && e.r.id == id && id in t1.byId && id in t'.byId && t'.byId == t1.byId[id := t'.byId[id]]
      && t'.nextId == t1.nextId && t'.keyToId == (if e.r.completed then t1.keyToId - {e.key} else t1.keyToId)
      && Became(t1.byId[id], e.f, e.r, t'.byId[id])
  {
    hide TotalBytes, Settled, Noted, Stored, Opened;
    var id, t1 := IdFor(t, e.key), Opened(t, e.key, e.f.pid);
    var n := Noted(t1.byId[id], e.f);
    NotedIs(t1.byId[id], e.f);
    if TotalBytes(n.fragments) + |e.f.data| <= cfg.maxBytes {
      SettledIs(t1, id, e.key, Stored(n, e.f), t', e.r);
    }
  }

  lemma {:induction false} OpenedIs<Key(!new)>(cfg: Config, t: Table<Key>, key: Key, pid: nat)
    requires Inv(cfg, t)
    ensures
      var id, t1 := IdFor(t, key), Opened(t, key, pid);
      && id >= 1 && id in t1.byId && t1.byId == t.byId[id := t1.byId[id]] && t1.keyToId == t.keyToId[key := id]
      && t1.nextId == (if key in t.keyToId then t.nextId else t.nextId + 1)
      && (key in t.keyToId ==> id in t.byId)
      && t1.byId[id] == (if key in t.keyToId then t.byId[id] else Fresh(pid))
      && !t1.byId[id].completed && !t1.byId[id].retired && t1.byId[id].parts == []
  {
    if key in t.keyToId {
      assert EntryOk(cfg, t.byId[t.keyToId[key]]);
    }
  }

  lemma {:induction false} SettledIs<Key>(t: Table<Key>, id: nat, key: Key, s: Entry, t': Table<Key>, r: Result)
    requires Settled(t, id, key, s, t', r) && !s.completed
    ensures r.id == id && r.retained && id in t'.byId && t'.byId == t.byId[id := t'.byId[id]] && t'.nextId == t.nextId
    ensures t'.keyToId == if r.completed then t.keyToId - {key} else t.keyToId
    ensures t'.byId[id] ==
            s.(conflict := t'.byId[id].conflict, parts := t'.byId[id].parts, completed := r.completed)
  {
    hide Complete, NoHole, Agree, Consistent, Flat;
  }

  lemma {:induction false} NotedIs(e: Entry, f: Fragment)
    ensures Noted(e, f).completed == e.completed && Stored(Noted(e, f), f).completed == e.completed
    ensures var n := Noted(e, f); n == n.(conflict := n.conflict, parts := n.parts, completed := e.completed)
  {
  }

  lemma {:induction false} AddTracks<Key(!new)>(cfg: Config, t: Table<Key>, es: seq<Event<Key>>, e: Event<Key>,
                                                t': Table<Key>)
    requires Inv(cfg, t) && Tracks(t, es) && e.Added? && AddStep(cfg, t, e.key, e.f, t', e.r)
    ensures Tracks(t', es + [e])
  {
    hide Told, AddsTo, Evicted, Keyed, AddStep, Touched, Inv;
    forall id: nat
      ensures AddsTo(es + [e], id) == if e.r.id == id then AddsTo(es, id) + [Add(e.key, e.f, e.r)] else AddsTo(es, id)
      ensures Evicted(es + [e], id) <==> Evicted(es, id)
    {
      AddsNext(es, e, id);
    }
    if Refused(cfg, t, e.key) {
      RefusedStays(cfg, t, e, t');
      InvIds(cfg, t);
    } else {
      AddTouches(cfg, t, e, t');
      TouchedTracks(cfg, t, es, e, t', IdFor(t, e.key));
    }
  }

  lemma {:induction false} RefusedStays<Key(!new)>(cfg: Config, t: Table<Key>, e: Event<Key>, t': Table<Key>)
    requires e.Added? && AddStep(cfg, t, e.key, e.f, t', e.r) && Refused(cfg, t, e.key)
    ensures t' == t && e.r.id == 0 && !e.r.retained && e.key !in t.keyToId && |t.byId| >= cfg.maxConcurrent
  {
  }

  lemma {:induction false} TouchedTracks<Key(!new)>(cfg: Config, t: Table<Key>, es: seq<Event<Key>>, e: Event<Key>,
                                                    t': Table<Key>, id: nat)
    requires Inv(cfg, t) && Tracks(t, es) && e.Added? && Touched(t, e, t', id)
    requires forall k: nat ::
      AddsTo(es + [e], k) == if k == id then AddsTo(es, k) + [Add(e.key, e.f, e.r)] else AddsTo(es, k)
    requires forall k: nat :: Evicted(es + [e], k) <==> Evicted(es, k)
    ensures Tracks(t', es + [e])
  {
    hide Told, AddsTo, Evicted, Keyed, Inv;
    var a := Add(e.key, e.f, e.r);
    InvIds(cfg, t);
    assert Open(es + [e], id) by { assert a in AddsTo(es + [e], id); }
    TouchedEntry(cfg, t, es, e, t', id);
    forall k | k in t'.byId && k != id
      ensures Told(t'.byId[k], AddsTo(es + [e], k)) && Keyed(t', k, AddsTo(es + [e], k))
    {
      assert AddsTo(es + [e], k) == AddsTo(es, k);
      OtherKeyed(cfg, t, e, t', id, k, AddsTo(es, k));
    }
    forall k: nat | k >= t'.nextId ensures AddsTo(es + [e], k) == [] && !Evicted(es + [e], k) {
      assert k != id;
    }
  }

  lemma {:induction false} InvIds<Key(!new)>(cfg: Config, t: Table<Key>)
    requires Inv(cfg, t)
    ensures t.nextId >= 1 && forall id :: id in t.byId ==> 1 <= id < t.nextId
    ensures forall key :: key in t.keyToId ==> t.keyToId[key] in t.byId
  {
  }

  lemma {:induction false} TouchedEntry<Key(!new)>(cfg: Config, t: Table<Key>, es: seq<Event<Key>>, e: Event<Key>,
                                                   t': Table<Key>, id: nat)
    requires Inv(cfg, t) && Tracks(t, es) && e.Added? && Touched(t, e, t', id)
    ensures
      var adds := AddsTo(es, id) + [Add(e.key, e.f, e.r)];
      Told(t'.byId[id], adds) && Keyed(t', id, adds)
  {
    hide Told, AddsTo, Evicted, Keyed, Inv, Became, Fresh;
    InvIds(cfg, t);
    var a, adds := Add(e.key, e.f, e.r), AddsTo(es, id);
    if e.key in t.keyToId {
      KeyAgain(cfg, t, e, t', id, adds);
      ToldMore(t.byId[id], adds, a, t'.byId[id]);
    } else {
      assert adds == [] && adds + [a] == [a];
      ToldFirst(a, t'.byId[id]);
      KeyFirst(t, e, t', id);
    }
  }

  lemma {:induction false} KeyAgain<Key(!new)>(cfg: Config, t: Table<Key>, e: Event<Key>, t': Table<Key>, id: nat,
                                               adds: seq<Add<Key>>)
    requires Inv(cfg, t) && e.Added? && Touched(t, e, t', id) && e.key in t.keyToId && Keyed(t, id, adds)
    ensures Keyed(t', id, adds + [Add(e.key, e.f, e.r)])
  {
    hide EntryOk, Noted, Stored, Fresh;
    assert adds[0].key == e.key;
  }

  lemma {:induction false} KeyFirst<Key(!new)>(t: Table<Key>, e: Event<Key>, t': Table<Key>, id: nat)
    requires e.Added? && Touched(t, e, t', id)
    ensures Keyed(t', id, [Add(e.key, e.f, e.r)])
  {
    hide Fresh;
  }

  lemma {:induction false} OtherKeyed<Key(!new)>(cfg: Config, t: Table<Key>, e: Event<Key>, t': Table<Key>, id: nat,
                                                 k: nat, adds: seq<Add<Key>>)
    requires Inv(cfg, t) && e.Added? && Touched(t, e, t', id) && k in t.byId && k != id && Keyed(t, k, adds)
    ensures k in t'.byId && t'.byId[k] == t.byId[k] && Keyed(t', k, adds)
  {
    InvIds(cfg, t);
  }

  lemma {:induction false} RetireTracks<Key(!new)>(t: Table<Key>, es: seq<Event<Key>>, e: Event<Key>, t': Table<Key>)
    requires Tracks(t, es) && e.Retired? && RetireStep(t, e.id, t', e.released)
    ensures Tracks(t', es + [e])
  {
    hide AddsTo, Evicted;
    forall id: nat
      ensures AddsTo(es + [e], id) == AddsTo(es, id)
      ensures Evicted(es + [e], id) <==> Evicted(es, id)
    {
      AddsNext(es, e, id);
    }
    forall id | id in t'.byId ensures Told(t'.byId[id], AddsTo(es, id)) && Keyed(t', id, AddsTo(es, id)) {
      assert Told(t.byId[id], AddsTo(es, id)) && Keyed(t, id, AddsTo(es, id));
    }
  }

  lemma {:induction false} EvictTracks<Key(!new)>(cfg: Config, t: Table<Key>, es: seq<Event<Key>>, e: Event<Key>,
                                                  t': Table<Key>)
    requires Inv(cfg, t) && Tracks(t, es) && e.Evicted? && EvictStep(cfg, t, e.now, t', e.summaries)
    ensures Tracks(t', es + [e])
  {
    hide AddsTo, Evicted, Told, Aged, SummaryOf, Inv;
    InvIds(cfg, t);
    var aged := AgedIds(cfg, t, e.now);
    assert forall id :: Mentions(e.summaries, id) <==> id in aged;
    forall id: nat
      ensures AddsTo(es + [e], id) == AddsTo(es, id)
      ensures Evicted(es + [e], id) <==> Evicted(es, id) || id in aged
    {
      AddsNext(es, e, id);
    }
    forall id | id in t'.byId ensures Told(t'.byId[id], AddsTo(es, id)) && Keyed(t', id, AddsTo(es, id)) {
      assert Told(t.byId[id], AddsTo(es, id)) && Keyed(t, id, AddsTo(es, id));
    }
  }

  lemma {:induction false} StepTracks<Key(!new)>(cfg: Config, t: Table<Key>, es: seq<Event<Key>>, e: Event<Key>,
                                                 t': Table<Key>)
    requires Inv(cfg, t) && Tracks(t, es) && Step(cfg, t, e, t')
    ensures Tracks(t', es + [e])
  {
    hide Inv, Tracks, AddStep, RetireStep, EvictStep;
    match e
    case Added(_, _, _) => AddTracks(cfg, t, es, e, t');
    case Retired(_, _) => RetireTracks(t, es, e, t');
    case Evicted(_, _) => EvictTracks(cfg, t, es, e, t');
  }

  /** Over every run from an empty table the events tell which datagrams are open and what each holds. */
  lemma {:induction false} RunTracks<Key(!new)>(cfg: Config, ts: seq<Table<Key>>, es: seq<Event<Key>>, n: nat)
    requires IsRun(cfg, ts, es) && Inv(cfg, ts[0]) && ts[0].byId == map[] && n < |ts|
    ensures Tracks(ts[n], es[..n])
    decreases n
  {
    hide Inv, Step, Tracks;
    if n == 0 {
      assert es[..0] == [];
      NothingYet(ts[0]);
    } else {
      RunTracks(cfg, ts, es, n - 1);
      RunKeepsInv(cfg, ts, es, n - 1);
      assert Step(cfg, ts[n - 1], es[n - 1], ts[n - 1 + 1]);
      StepTracks(cfg, ts[n - 1], es[..n - 1], es[n - 1], ts[n]);
      assert es[..n - 1] + [es[n - 1]] == es[..n];
    }
  }

  lemma {:induction false} NothingYet<Key(!new)>(t: Table<Key>)
    requires t.byId == map[]
    ensures Tracks(t, [])
  {
  }

  // ------------------------------------------------------------------
  // What an eviction reports
  // ------------------------------------------------------------------

  ghost function LastPid<Key>(adds: seq<Add<Key>>): nat
    requires adds != []
  {
    adds[|adds| - 1].f.pid
  }

  /** The last packet's id plus the timeout, a 64-bit sum, has been reached. */
  predicate Due(last: nat, timeout: nat, now: nat) {
    last == NO_PACKET || (last + timeout) % U64 <= now
  }

  /** The summary of a datagram with these adds. */
  ghost predicate Reports<Key>(s: Summary, adds: seq<Add<Key>>) {
    && |adds| > 0
    && s.firstPid == adds[0].f.pid && s.lastPid == adds[|adds| - 1].f.pid
    && s.fragmentCount == |Kept(adds)| % U32
    && s.totalLength == (if Closing(adds).Some? then Closing(adds).value else 0)
    && s.gapBytes == (if s.totalLength > High(Kept(adds)) then s.totalLength - High(Kept(adds)) else 0)
    && (!s.status.OverlapConflict? ==> (s.status.Finished? <==> adds[|adds| - 1].r.completed))
  }

  /** An eviction reports a datagram exactly when it is open and the packet of its last add has aged by the timeout;
      the report says what its adds were. Every other datagram keeps its id, its key and all it holds. */
  lemma {:induction false} EvictsExactly<Key(!new)>(cfg: Config, ts: seq<Table<Key>>, es: seq<Event<Key>>, n: nat)
    requires IsRun(cfg, ts, es) && Inv(cfg, ts[0]) && ts[0].byId == map[] && n < |es| && es[n].Evicted?
    ensures forall id :: Mentions(es[n].summaries, id) <==>
      Open(es[..n], id) && Due(LastPid(AddsTo(es[..n], id)), cfg.timeout, es[n].now)
    ensures forall j :: 0 <= j < |es[n].summaries| ==>
      Reports(es[n].summaries[j], AddsTo(es[..n], es[n].summaries[j].id))
    ensures forall id :: id in ts[n + 1].byId <==> id in ts[n].byId && !Mentions(es[n].summaries, id)
    ensures forall id :: id in ts[n + 1].byId ==> ts[n + 1].byId[id] == ts[n].byId[id]
    ensures forall key :: key in ts[n + 1].keyToId <==>
      key in ts[n].keyToId && !Mentions(es[n].summaries, ts[n].keyToId[key])
    ensures forall key :: key in ts[n + 1].keyToId ==> ts[n + 1].keyToId[key] == ts[n].keyToId[key]
  {
    hide Inv, AddsTo, Evicted, Told, Keyed, Aged, Due, Reports, SummaryOf;
    RunTracks(cfg, ts, es, n);
    assert Step(cfg, ts[n], es[n], ts[n + 1]);
    var t, out := ts[n], es[n].summaries;
    forall id | id in t.byId
      ensures Aged(cfg, t.byId[id], es[n].now) <==> Due(LastPid(AddsTo(es[..n], id)), cfg.timeout, es[n].now)
    {
      AgedIsDue(cfg, t.byId[id], AddsTo(es[..n], id), es[n].now);
    }
    forall id
      ensures Mentions(out, id) <==> Open(es[..n], id) && Due(LastPid(AddsTo(es[..n], id)), cfg.timeout, es[n].now)
    {
      assert Mentions(out, id) <==> id in AgedIds(cfg, t, es[n].now);
    }
    forall j | 0 <= j < |out| ensures Reports(out[j], AddsTo(es[..n], out[j].id)) {
      ToldReports(out[j].id, t.byId[out[j].id], AddsTo(es[..n], out[j].id));
    }
  }

  lemma {:induction false} AgedIsDue<Key>(cfg: Config, e: Entry, adds: seq<Add<Key>>, now: nat)
    requires Told(e, adds)
    ensures adds != [] && (Aged(cfg, e, now) <==> Due(LastPid(adds), cfg.timeout, now))
  {
  }

  lemma {:induction false} ToldReports<Key>(id: nat, e: Entry, adds: seq<Add<Key>>)
    requires Told(e, adds)
    ensures Reports(SummaryOf(id, e), adds)
  {
    hide Kept, Closing, High, TrackedTokens;
  }

  /** While the sum fits 64 bits: evicted exactly once `now` reaches the last add's packet id plus the timeout. */
  lemma {:induction false} EvictsWhenDue<Key(!new)>(cfg: Config, ts: seq<Table<Key>>, es: seq<Event<Key>>, n: nat,
                                                    id: nat)
    requires IsRun(cfg, ts, es) && Inv(cfg, ts[0]) && ts[0].byId == map[] && n < |es| && es[n].Evicted?
    requires Open(es[..n], id) && LastPid(AddsTo(es[..n], id)) < NO_PACKET
    requires LastPid(AddsTo(es[..n], id)) + cfg.timeout < U64
    ensures Mentions(es[n].summaries, id) <==> LastPid(AddsTo(es[..n], id)) + cfg.timeout <= es[n].now
  {
    hide Inv, IsRun, AddsTo, Evicted, Reports, Mentions;
    EvictsExactly(cfg, ts, es, n);
  }

  // ------------------------------------------------------------------
  // What an add answers
  // ------------------------------------------------------------------

  /** The open datagram a piece under this key belongs to. */
  ghost predicate Awaits<Key>(es: seq<Event<Key>>, key: Key, id: nat) {
    Open(es, id) && var adds := AddsTo(es, id); adds[0].key == key && !adds[|adds| - 1].r.completed
  }

  lemma {:induction false} AwaitsIsMapped<Key(!new)>(cfg: Config, t: Table<Key>, es: seq<Event<Key>>, key: Key, id: nat)
    requires Inv(cfg, t) && Tracks(t, es)
    ensures Awaits(es, key, id) <==> key in t.keyToId && t.keyToId[key] == id
  {
    hide AddsTo, Evicted, EntryOk, Kept, Closing, High;
    if id in t.byId {
      assert Told(t.byId[id], AddsTo(es, id)) && Keyed(t, id, AddsTo(es, id));
    }
  }

  /** A piece goes to the datagram that awaits its key, else to a new one unless the table is full of open datagrams; it
      is kept exactly when the bytes kept there leave room for it. */
  lemma {:induction false} AddAnswers<Key(!new)>(cfg: Config, ts: seq<Table<Key>>, es: seq<Event<Key>>, n: nat)
    requires IsRun(cfg, ts, es) && Inv(cfg, ts[0]) && ts[0].byId == map[] && n < |es| && es[n].Added?
    ensures forall id :: id in ts[n].byId <==> Open(es[..n], id)
    ensures
      var past, e := es[..n], es[n];
      && (forall id :: Awaits(past, e.key, id) ==> e.r.id == id)
      && (e.r.id == 0 <==> (forall id :: !Awaits(past, e.key, id)) && |ts[n].byId| >= cfg.maxConcurrent)
      && (e.r.id != 0 && !Awaits(past, e.key, e.r.id) ==> AddsTo(past, e.r.id) == [])
      && (e.r.retained <==>
          e.r.id != 0 && TotalBytes(Kept(AddsTo(past, e.r.id))) + |e.f.data| <= cfg.maxBytes)
  {
    hide Inv, AddsTo, Evicted, Told, Keyed, Awaits, AddStep, TotalBytes, Kept;
    RunTracks(cfg, ts, es, n);
    RunKeepsInv(cfg, ts, es, n);
    assert Step(cfg, ts[n], es[n], ts[n + 1]);
    var t, e := ts[n], es[n];
    forall id: nat ensures Awaits(es[..n], e.key, id) <==> e.key in t.keyToId && t.keyToId[e.key] == id {
      AwaitsIsMapped(cfg, t, es[..n], e.key, id);
    }
    assert e.key in t.keyToId ==> Awaits(es[..n], e.key, t.keyToId[e.key]);
    InvIds(cfg, t);
    if Refused(cfg, t, e.key) {
      RefusedStays(cfg, t, e, ts[n + 1]);
    } else {
      AddKeeps(cfg, t, es[..n], e, ts[n + 1]);
    }
  }

  lemma {:induction false} AddKeeps<Key(!new)>(cfg: Config, t: Table<Key>, es: seq<Event<Key>>, e: Event<Key>,
                                               t': Table<Key>)
    requires Inv(cfg, t) && Tracks(t, es) && e.Added? && AddStep(cfg, t, e.key, e.f, t', e.r)
    requires !Refused(cfg, t, e.key)
    ensures e.r.id == IdFor(t, e.key) != 0 && (e.key !in t.keyToId ==> AddsTo(es, e.r.id) == [])
    ensures e.r.retained <==> TotalBytes(Kept(AddsTo(es, e.r.id))) + |e.f.data| <= cfg.maxBytes
  {
    hide AddsTo, Evicted, Keyed, Inv, TotalBytes, Settled, Opened, Closing, High, Kept;
    var id, t1 := IdFor(t, e.key), Opened(t, e.key, e.f.pid);
    OpenedIs(cfg, t, e.key, e.f.pid);
    InvIds(cfg, t);
    AddShape(cfg, t, e, t');
    var was := t1.byId[id];
    assert was.fragments == Kept(AddsTo(es, id)) by {
      if e.key in t.keyToId {
        assert Told(t.byId[id], AddsTo(es, id));
      } else {
        NoneKept<Key>();
      }
    }
    var s := Noted(was, e.f);
    assert s.fragments == was.fragments;
    if TotalBytes(s.fragments) + |e.f.data| <= cfg.maxBytes {
      SettledIs(t1, id, e.key, Stored(s, e.f), t', e.r);
    }
  }

  lemma {:induction false} NoneKept<Key>()
    ensures Kept<Key>([]) == []
  {
  }
}
