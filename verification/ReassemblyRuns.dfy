/** Whole runs of the reassembly table: the invariant, and the buffer-token contract
    (include/nanom_shark/defrag.hpp:32-56). */
module ReassemblyRuns {
  import opened Bytes
  import opened Assembly
  import opened Reassembly

  datatype Event<Key> =
    | Added(key: Key, f: Fragment, r: Result)
    | Retired(id: nat, released: seq<nat>)
    | Evicted(now: nat, summaries: seq<Summary>)

  ghost predicate Step<Key>(cfg: Config, t: Table<Key>, e: Event<Key>, t': Table<Key>) {
    match e
    case Added(key, f, r) => AddStep(cfg, t, key, f, t', r)
    case Retired(id, released) => RetireStep(t, id, t', released)
    case Evicted(now, summaries) => EvictStep(cfg, t, now, t', summaries)
  }

  /** ts[0] -es[0]-> ts[1] -es[1]-> ... */
  ghost predicate IsRun<Key>(cfg: Config, ts: seq<Table<Key>>, es: seq<Event<Key>>) {
    && |ts| == |es| + 1
    && forall i :: 0 <= i < |es| ==> Step(cfg, ts[i], es[i], ts[i + 1])
  }

  lemma {:induction false} StepKeepsInv<Key(!new)>(cfg: Config, t: Table<Key>, e: Event<Key>, t': Table<Key>)
    requires Inv(cfg, t) && Step(cfg, t, e, t')
    ensures Inv(cfg, t')
  {
    hide Inv, AddStep, RetireStep, EvictStep;
    match e
    case Added(key, f, r) => AddKeepsInv(cfg, t, key, f, t', r);
    case Retired(id, released) => RetireKeepsInv(cfg, t, id, t', released);
    case Evicted(now, summaries) => EvictKeepsInv(cfg, t, now, t', summaries);
  }

  /** The invariant holds in every state of every run. */
  lemma {:induction false} RunKeepsInv<Key(!new)>(cfg: Config, ts: seq<Table<Key>>, es: seq<Event<Key>>, n: nat)
    requires IsRun(cfg, ts, es) && Inv(cfg, ts[0]) && n < |ts|
    ensures Inv(cfg, ts[n])
    decreases n
  {
    hide Inv, Step;
    if n > 0 {
      RunKeepsInv(cfg, ts, es, n - 1);
      assert Step(cfg, ts[n - 1], es[n - 1], ts[n - 1 + 1]);
      StepKeepsInv(cfg, ts[n - 1], es[n - 1], ts[n]);
    }
  }

  // ------------------------------------------------------------------
  // Tokens
  // ------------------------------------------------------------------

  /** The tokens that name a buffer. */
  ghost function Tracked(ts: seq<nat>): multiset<nat> {
    multiset(ts)[NO_TOKEN := 0]
  }

  ghost function EntryTokens(e: Entry): multiset<nat> {
    Tracked(Tokens(e.fragments))
  }

  /** Every token pinned by a span some entry still holds. */
  ghost function Pinned(byId: map<nat, Entry>): multiset<nat>
    decreases |byId|
  {
    if byId == map[] then multiset{}
    else
      var id :| id in byId;
      EntryTokens(byId[id]) + Pinned(byId - {id})
  }

  lemma {:induction false} PinnedAt(byId: map<nat, Entry>, id: nat)
    requires id in byId
    ensures Pinned(byId) == EntryTokens(byId[id]) + Pinned(byId - {id})
    decreases |byId|
  {
    hide EntryTokens;
    var k :| k in byId && Pinned(byId) == EntryTokens(byId[k]) + Pinned(byId - {k});
    if k != id {
      PinnedAt(byId - {k}, id);
      PinnedAt(byId - {id}, k);
      assert byId - {k} - {id} == byId - {id} - {k};
    }
  }

  lemma {:induction false} PinnedUpdate(byId: map<nat, Entry>, id: nat, e: Entry)
    ensures Pinned(byId[id := e]) == EntryTokens(e) + Pinned(byId - {id})
    ensures id in byId ==> Pinned(byId) == EntryTokens(byId[id]) + Pinned(byId - {id})
    ensures id !in byId ==> Pinned(byId - {id}) == Pinned(byId)
  {
    hide EntryTokens;
    PinnedAt(byId[id := e], id);
    assert byId[id := e] - {id} == byId - {id};
    if id in byId {
      PinnedAt(byId, id);
    } else {
      assert byId - {id} == byId;
    }
  }

  lemma {:induction false} TrackedAppend(ts: seq<nat>, t: nat)
    ensures Tracked(ts + [t]) == Tracked(ts) + (if t == NO_TOKEN then multiset{} else multiset{t})
  {
  }

  lemma {:induction false} TokensAppend(fs: seq<Fragment>, f: Fragment)
    ensures Tokens(fs + [f]) == Tokens(fs) + [f.token]
  {
  }

  lemma {:induction false} TrackedTokensAll(fs: seq<Fragment>)
    ensures multiset(TrackedTokens(fs)) == Tracked(Tokens(fs))
  {
    if |fs| > 0 {
      var front, f := fs[..|fs| - 1], fs[|fs| - 1];
      TrackedTokensAll(front);
      assert fs == front + [f];
      TokensAppend(front, f);
      TrackedAppend(Tokens(front), f.token);
    }
  }

  ghost function SummaryTokens(out: seq<Summary>): multiset<nat> {
    if |out| == 0 then multiset{} else multiset(out[0].tokens) + SummaryTokens(out[1..])
  }

  /** Tokens an event hands to the table, and tokens it hands back. */
  ghost function StoredBy<Key>(e: Event<Key>): multiset<nat> {
    match e
    case Added(_, f, r) => if r.retained && f.token != NO_TOKEN then multiset{f.token} else multiset{}
    case _ => multiset{}
  }

  ghost function ReleasedBy<Key>(e: Event<Key>): multiset<nat> {
    match e
    case Added(_, _, _) => multiset{}
    case Retired(_, released) => Tracked(released)
    case Evicted(_, summaries) => SummaryTokens(summaries)
  }

  lemma {:induction false} AddConserves<Key(!new)>(cfg: Config, t: Table<Key>, key: Key, f: Fragment, t': Table<Key>,
                                                   r: Result)
    requires Inv(cfg, t) && AddStep(cfg, t, key, f, t', r)
    ensures Pinned(t'.byId) == Pinned(t.byId) + StoredBy(Added(key, f, r))
  {
    hide Pinned, Complete, Agree, NoHole, Consistent, Flat, TotalBytes, Tracked, Tokens;
    if !Refused(cfg, t, key) {
      var id, t1 := IdFor(t, key), Opened(t, key, f.pid);
      var e := t1.byId[id];
      assert Pinned(t1.byId) == Pinned(t.byId) by {
        if key !in t.keyToId {
          PinnedUpdate(t.byId, id, e);
          NoTokens();
        }
      }
      var e' := t'.byId[id];
      PinnedUpdate(t1.byId, id, e');
      assert t'.byId == t1.byId[id := e'];
      TokensAppend(e.fragments, f);
      TrackedAppend(Tokens(e.fragments), f.token);
    }
  }

  lemma {:induction false} NoTokens()
    ensures Tracked(Tokens([])) == multiset{}
  {
    assert Tokens([]) == [];
  }

  lemma {:induction false} RetireConserves<Key(!new)>(t: Table<Key>, id: nat, t': Table<Key>, released: seq<nat>)
    requires RetireStep(t, id, t', released)
    ensures Pinned(t.byId) == Pinned(t'.byId) + Tracked(released)
  {
    hide Pinned;
    if Retirable(t, id) {
      PinnedUpdate(t.byId, id, t'.byId[id]);
      NoTokens();
    } else {
      assert Tracked([]) == multiset{};
    }
  }

  lemma {:induction false} EvictConserves(byId: map<nat, Entry>, ids: set<nat>, out: seq<Summary>)
    requires Summarize(out, byId, ids) && ids <= byId.Keys
    ensures Pinned(byId) == Pinned(byId - ids) + SummaryTokens(out)
    decreases |out|
  {
    hide Pinned;
    if |out| == 0 {
      assert ids == {};
      assert byId - ids == byId;
    } else {
      var id := out[0].id;
      PinnedAt(byId, id);
      TrackedTokensAll(byId[id].fragments);
      SummarizeRest(out, byId, ids);
      EvictConserves(byId - {id}, ids - {id}, out[1..]);
      assert byId - {id} - (ids - {id}) == byId - ids;
    }
  }

  lemma {:induction false} SummarizeRest(out: seq<Summary>, byId: map<nat, Entry>, ids: set<nat>)
    requires Summarize(out, byId, ids) && |out| > 0
    ensures Summarize(out[1..], byId - {out[0].id}, ids - {out[0].id})
  {
    hide SummaryOf;
    var rest := out[1..];
    forall id | id in ids - {out[0].id} ensures exists i :: 0 <= i < |rest| && rest[i].id == id {
      var i :| 0 <= i < |out| && out[i].id == id;
      assert rest[i - 1].id == id;
    }
  }

  /** Every event: what was pinned plus what it stored is what is pinned plus what it released. */
  lemma {:induction false} StepConserves<Key(!new)>(cfg: Config, t: Table<Key>, e: Event<Key>, t': Table<Key>)
    requires Inv(cfg, t) && Step(cfg, t, e, t')
    ensures Pinned(t.byId) + StoredBy(e) == Pinned(t'.byId) + ReleasedBy(e)
  {
    hide Inv, AddStep, RetireStep, Pinned, Summarize, Aged, Tracked, SummaryTokens;
    match e
    case Added(key, f, r) => AddConserves(cfg, t, key, f, t', r);
    case Retired(id, released) => RetireConserves(t, id, t', released);
    case Evicted(now, summaries) => EvictConserves(t.byId, AgedIds(cfg, t, now), summaries);
  }

  ghost function StoredIn<Key>(es: seq<Event<Key>>): multiset<nat> {
    if |es| == 0 then multiset{} else StoredIn(es[..|es| - 1]) + StoredBy(es[|es| - 1])
  }

  ghost function ReleasedIn<Key>(es: seq<Event<Key>>): multiset<nat> {
    if |es| == 0 then multiset{} else ReleasedIn(es[..|es| - 1]) + ReleasedBy(es[|es| - 1])
  }

  /** Over every run from an empty table, the tracked tokens stored by retained adds are exactly
      those still pinned plus those reported released. */
  lemma {:induction false} TokensConserved<Key(!new)>(cfg: Config, ts: seq<Table<Key>>, es: seq<Event<Key>>)
    requires IsRun(cfg, ts, es) && Inv(cfg, ts[0]) && ts[0].byId == map[]
    ensures StoredIn(es) == Pinned(ts[|es|].byId) + ReleasedIn(es)
    decreases |es|
  {
    hide Inv, Step, Pinned, StoredBy, ReleasedBy;
    if |es| == 0 {
      PinnedEmpty();
    } else {
      var n := |es| - 1;
      assert es[..n] + [es[n]] == es;
      TokensConserved(cfg, ts[..n + 1], es[..n]);
      RunKeepsInv(cfg, ts, es, n);
      assert Step(cfg, ts[n], es[n], ts[n + 1]);
      StepConserves(cfg, ts[n], es[n], ts[n + 1]);
      assert ts[..n + 1][n] == ts[n];
      Exchange(StoredIn(es[..n]), Pinned(ts[n].byId), ReleasedIn(es[..n]), StoredBy(es[n]),
               Pinned(ts[n + 1].byId), ReleasedBy(es[n]));
    }
  }

  lemma {:induction false} Exchange(stored: multiset<nat>, pinned: multiset<nat>, released: multiset<nat>,
                 s: multiset<nat>, pinned': multiset<nat>, r: multiset<nat>)
    requires stored == pinned + released && pinned + s == pinned' + r
    ensures stored + s == pinned' + (released + r)
  {
    calc {
      stored + s;
      pinned + released + s;
      (pinned + s) + released;
      pinned' + (released + r);
    }
  }

  lemma {:induction false} Counts(pinned: multiset<nat>, s: multiset<nat>, pinned': multiset<nat>, r: multiset<nat>,
                                  k: nat)
    requires pinned + s == pinned' + r
    ensures pinned[k] + s[k] == pinned'[k] + r[k]
  {
    assert (pinned + s)[k] == (pinned' + r)[k];
  }

  lemma {:induction false} PinnedEmpty()
    ensures Pinned(map[]) == multiset{}
  {
  }

  /** A caller that never hands over a token still pinned. */
  ghost predicate Disciplined<Key>(ts: seq<Table<Key>>, es: seq<Event<Key>>)
    requires |ts| == |es| + 1
  {
    forall i, k :: 0 <= i < |es| && k in StoredBy(es[i]) ==> k !in Pinned(ts[i].byId)
  }

  lemma {:induction false} PinnedOnce<Key(!new)>(cfg: Config, ts: seq<Table<Key>>, es: seq<Event<Key>>, n: nat, k: nat)
    requires IsRun(cfg, ts, es) && Inv(cfg, ts[0]) && ts[0].byId == map[] && Disciplined(ts, es) && n < |ts|
    ensures Pinned(ts[n].byId)[k] <= 1
    decreases n
  {
    hide Inv, Step, Pinned, ReleasedBy;
    if n == 0 {
      PinnedEmpty();
    } else {
      PinnedOnce(cfg, ts, es, n - 1, k);
      RunKeepsInv(cfg, ts, es, n - 1);
      assert Step(cfg, ts[n - 1], es[n - 1], ts[n - 1 + 1]);
      StepConserves(cfg, ts[n - 1], es[n - 1], ts[n]);
      Counts(Pinned(ts[n - 1].byId), StoredBy(es[n - 1]), Pinned(ts[n].byId), ReleasedBy(es[n - 1]), k);
    }
  }

  /** Nothing is released while a span with that token remains: after the event that reports it, no
      entry holds the token, and it is reported once. */
  lemma {:induction false} ReleasedIsFree<Key(!new)>(cfg: Config, ts: seq<Table<Key>>, es: seq<Event<Key>>, n: nat,
                                                     k: nat)
    requires IsRun(cfg, ts, es) && Inv(cfg, ts[0]) && ts[0].byId == map[] && Disciplined(ts, es) && n < |es|
    requires k in ReleasedBy(es[n])
    ensures k !in Pinned(ts[n + 1].byId) && ReleasedBy(es[n])[k] == 1
  {
    hide Inv, Step, Pinned, Tracked, SummaryTokens;
    RunKeepsInv(cfg, ts, es, n);
    PinnedOnce(cfg, ts, es, n, k);
    assert Step(cfg, ts[n], es[n], ts[n + 1]);
    StepConserves(cfg, ts[n], es[n], ts[n + 1]);
    assert StoredBy(es[n]) == multiset{};
    Counts(Pinned(ts[n].byId), StoredBy(es[n]), Pinned(ts[n + 1].byId), ReleasedBy(es[n]), k);
  }
}
