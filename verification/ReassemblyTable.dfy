/** The table as the program holds it: fields updated in place, each method one step of
    module Reassembly. */
module ReassemblyTable {
  import opened Bytes
  import opened Assembly
  import opened Reassembly

  class ReassemblyTable<Key(==, !new)> {
    var keyToId: map<Key, nat>
    var byId: map<nat, Entry>
    var nextId: nat
    const cfg: Config

    ghost function View(): Table<Key>
      reads this
    {
      Table(keyToId, byId, nextId)
    }

    ghost predicate Valid()
      reads this
    {
      cfg.maxBytes < U32 && Inv(cfg, View())
    }

    constructor (cfg: Config)
      requires cfg.maxBytes < U32
      ensures Valid() && View() == Table(map[], map[], 1) && this.cfg == cfg
    {
      keyToId, byId, nextId := map[], map[], 1;
      this.cfg := cfg;
    }

    /** defrag.hpp:220-307. The id counter is 32 bits wide: it must not have run out. */
    method AddFragment(key: Key, f: Fragment) returns (r: Result)
      requires Valid() && nextId < U32 && f.offset < U32
      modifies this
      ensures Valid() && AddStep(cfg, old(View()), key, f, View(), r)
    {
      hide EntryOk, Complete, NoHole, Agree, Consistent, TotalBytes, Flat, ScanMeans, Inv;
      ghost var t := View();
      r := Result(0, false, false, []);
      if Refused(cfg, Table(keyToId, byId, nextId), key) {
        return;
      }
      var id := Open(key, f.pid);
      ghost var t1 := View();
      InvAt(cfg, t1, key);
      var e := Noted(byId[id], f);
      r := r.(id := id);
      var already := SumBytes(e.fragments);
      if already + |f.data| > cfg.maxBytes {
        byId := byId[id := e];
        AddKeepsInv(cfg, t, key, f, View(), r);
        return;
      }
      StoredOk(cfg, t1.byId[id], f);
      var s := Stored(e, f);
      r := r.(retained := true);
      if s.haveLast {
        BoundedBytes(cfg, s);
        var scan := Assemble(s.fragments, s.totalLength);
        if scan.Done? {
          r := r.(completed := true, parts := scan.parts);
          byId := byId[id := s.(parts := scan.parts, completed := true)];
          keyToId := keyToId - {key};
        } else {
          s := s.(conflict := s.conflict || scan.Conflict?);
          byId := byId[id := s];
        }
        SettledByScan(t1, id, key, Stored(e, f), View(), r, scan);
      } else {
        byId := byId[id := s];
      }
      AddKeepsInv(cfg, t, key, f, View(), r);
    }

    /** defrag.hpp:224-238. */
    method Open(key: Key, pid: nat) returns (id: nat)
      requires Valid() && !Refused(cfg, View(), key)
      modifies this
      ensures Valid() && View() == Opened(old(View()), key, pid) && id == IdFor(old(View()), key)
      ensures key in keyToId && keyToId[key] == id && id in byId
    {
      hide Inv;
      OpenedKeeps(cfg, View(), key, pid);
      if key !in keyToId {
        id := nextId;
        nextId := nextId + 1;
        keyToId := keyToId[key := id];
        byId := byId[id := Fresh(pid)];
      } else {
        id := keyToId[key];
      }
    }

    /** defrag.hpp:323-337. */
    method Retire(id: nat) returns (released: seq<nat>)
      requires Valid()
      modifies this
      ensures Valid() && RetireStep(old(View()), id, View(), released)
    {
      hide Inv;
      ghost var t := View();
      released := [];
      if id in byId && byId[id].completed && !byId[id].retired {
        var fs := byId[id].fragments;
        for i := 0 to |fs|
          invariant released == Tokens(fs)[..i]
        {
          released := released + [fs[i].token];
        }
        byId := byId[id := byId[id].(fragments := [], parts := [], retired := true)];
      }
      RetireKeepsInv(cfg, t, id, View(), released);
    }

    /** defrag.hpp:345-355: the datagram as one buffer, copied at most once. */
    method Materialize(id: nat) returns (r: Option<seq<byte>>)
      requires Valid()
      modifies this
      ensures Valid() && keyToId == old(keyToId) && nextId == old(nextId) && byId.Keys == old(byId.Keys)
      ensures forall i :: i in byId && i != id ==> byId[i] == old(byId)[i]
      ensures r.Some? <==> id in byId && byId[id].completed &&
                           !(byId[id].retired && old(byId)[id].materialized == [] && byId[id].totalLength > 0)
      ensures id in byId ==> byId[id] == old(byId)[id].(materialized := byId[id].materialized)
      ensures r.Some? ==> |r.value| == byId[id].totalLength && r.value == byId[id].materialized
      ensures r.Some? && !byId[id].retired ==> r.value == Flat(byId[id].parts)
    {
      ghost var t := View();
      if id !in byId || !byId[id].completed {
        return None;
      }
      var e := byId[id];
      if e.retired && e.materialized == [] && e.totalLength > 0 {
        return None;
      }
      if e.materialized == [] && e.totalLength > 0 {
        var all := Stitch(e.parts);
        e := e.(materialized := all);
        byId := byId[id := e];
      }
      MaterializeKeepsInv(t, id, e.materialized);
      return Some(e.materialized);
    }

    lemma {:induction false} MaterializeKeepsInv(t: Table<Key>, id: nat, m: seq<byte>)
      requires Inv(cfg, t) && id in t.byId && t.byId[id].completed
      requires m != [] ==> |m| == t.byId[id].totalLength && (t.byId[id].retired || m == Flat(t.byId[id].parts))
      ensures Inv(cfg, t.(byId := t.byId[id := t.byId[id].(materialized := m)]))
    {
      var t' := t.(byId := t.byId[id := t.byId[id].(materialized := m)]);
      assert t'.byId.Keys == t.byId.Keys;
      assert |t'.byId| == |t'.byId.Keys|;
      assert EntryOk(cfg, t'.byId[id]);
      forall i | i in t'.byId && !t'.byId[i].completed
        ensures exists k :: k in t'.keyToId && t'.keyToId[k] == i
      {
        var k :| k in t.keyToId && t.keyToId[k] == i;
      }
    }

    /** defrag.hpp:365-412: entries are visited in no particular order. */
    method EvictStale(now: nat) returns (out: seq<Summary>)
      requires Valid()
      modifies this
      ensures Valid() && EvictStep(cfg, old(View()), now, View(), out)
    {
      hide Inv, Aged, SummaryOf, Summarize, Without;
      ghost var t := View();
      out := [];
      var todo := byId.Keys;
      ghost var gone: set<nat> := {};
      NothingGone(keyToId, byId);
      while todo != {}
        invariant todo <= t.byId.Keys && gone !! todo && gone <= t.byId.Keys
        invariant nextId == t.nextId && byId == t.byId - gone && keyToId == Without(t.keyToId, gone)
        invariant gone == set id | id in t.byId && id !in todo && Aged(cfg, t.byId[id], now)
        invariant Summarize(out, t.byId, gone)
        decreases |todo|
      {
        var id :| id in todo;
        todo := todo - {id};
        if Aged(cfg, byId[id], now) {
          var s := Summarized(id, byId[id]);
          SummarizeMore(out, t.byId, gone, s);
          out := out + [s];
          keyToId := EraseId(keyToId, id);
          WithoutMore(t.keyToId, gone, id);
          byId := byId - {id};
          gone := gone + {id};
        }
      }
      assert gone == AgedIds(cfg, t, now);
      EvictKeepsInv(cfg, t, now, View(), out);
    }
  }

  lemma {:induction false} NothingGone<Key>(m: map<Key, nat>, byId: map<nat, Entry>)
    ensures Without(m, {}) == m && byId - {} == byId && Summarize([], byId, {})
  {
  }

  // ------------------------------------------------------------------
  // The loops inside the methods
  // ------------------------------------------------------------------

  method SumBytes(fs: seq<Fragment>) returns (n: nat)
    ensures n == TotalBytes(fs)
  {
    n := 0;
    for i := 0 to |fs|
      invariant n == TotalBytes(fs[..i])
    {
      assert fs[..i + 1] == fs[..i] + [fs[i]];
      TotalBytesAppend(fs[..i], fs[i]);
      n := n + |fs[i].data|;
    }
    assert fs[..|fs|] == fs;
  }

  method Stitch(parts: seq<seq<byte>>) returns (all: seq<byte>)
    ensures all == Flat(parts)
  {
    all := [];
    for i := 0 to |parts|
      invariant all == Flat(parts[..i])
    {
      assert parts[..i + 1] == parts[..i] + [parts[i]];
      FlatAppend(parts[..i], parts[i]);
      all := all + parts[i];
    }
    assert parts[..|parts|] == parts;
  }

  method Summarized(id: nat, e: Entry) returns (s: Summary)
    ensures s == SummaryOf(id, e) && s.id == id
  {
    var tokens: seq<nat> := [];
    for i := 0 to |e.fragments|
      invariant tokens == TrackedTokens(e.fragments[..i])
    {
      assert e.fragments[..i + 1][..i] == e.fragments[..i];
      if e.fragments[i].token != NO_TOKEN {
        tokens := tokens + [e.fragments[i].token];
      }
    }
    assert e.fragments[..|e.fragments|] == e.fragments;
    var status := if e.conflict then OverlapConflict else if e.completed then Finished else TimedOut;
    var gap := if e.haveLast && e.totalLength > e.coveredHigh then e.totalLength - e.coveredHigh else 0;
    s := Summary(id, e.totalLength, e.fragmentCount, e.firstPid, e.lastPid, status, gap, tokens);
  }

  method EraseId<Key(==)>(m: map<Key, nat>, id: nat) returns (r: map<Key, nat>)
    ensures r == Without(m, {id})
  {
    r := m;
    var todo := m.Keys;
    while todo != {}
      invariant todo <= m.Keys
      invariant r == map k | k in m && (k in todo || m[k] != id) :: m[k]
      decreases |todo|
    {
      var k :| k in todo;
      todo := todo - {k};
      if m[k] == id {
        r := r - {k};
      }
    }
  }

  lemma {:induction false} WithoutMore<Key>(m: map<Key, nat>, ids: set<nat>, id: nat)
    ensures Without(Without(m, ids), {id}) == Without(m, ids + {id})
  {
  }

  lemma {:induction false} SummarizeMore(out: seq<Summary>, byId: map<nat, Entry>, ids: set<nat>, s: Summary)
    requires Summarize(out, byId, ids) && s.id in byId && s.id !in ids && s == SummaryOf(s.id, byId[s.id])
    ensures Summarize(out + [s], byId, ids + {s.id})
  {
    hide SummaryOf;
    var out' := out + [s];
    forall id | id in ids + {s.id} ensures exists i :: 0 <= i < |out'| && out'[i].id == id {
      if id in ids {
        var i :| 0 <= i < |out| && out[i].id == id;
        assert out'[i].id == id;
      } else {
        assert out'[|out|].id == id;
      }
    }
  }

  lemma {:induction false} BoundedBytes(cfg: Config, e: Entry)
    requires cfg.maxBytes < U32 && EntryOk(cfg, e)
    ensures TotalBytes(e.fragments) < U32 && e.totalLength < U32
  {
  }

  /** The scan's verdict is the one Settled asks for. */
  lemma {:induction false} SettledByScan<Key>(t: Table<Key>, id: nat, key: Key, s: Entry, t': Table<Key>, r: Result,
                                              scan: Scan)
    requires s.haveLast && ScanMeans(scan, s.fragments, s.totalLength)
    requires scan.Done? ==>
               && r == Result(id, true, true, scan.parts)
               && t' == Table(t.keyToId - {key}, t.byId[id := s.(parts := scan.parts, completed := true)], t.nextId)
    requires !scan.Done? ==>
               && r == Result(id, false, true, [])
               && t' == t.(byId := t.byId[id := s.(conflict := s.conflict || scan.Conflict?)])
    ensures Settled(t, id, key, s, t', r)
  {
    hide NoHole, Agree, Consistent, Flat;
  }
}
