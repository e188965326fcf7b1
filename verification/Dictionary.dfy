/** The dictionary builders and their open-addressing table: include/nanom/columnar_encode.hpp:353-449. */
module Dictionary {
  import opened Bytes
  import opened BitOps

  // ------------------------------------------------------------------
  // The first-seen list
  // ------------------------------------------------------------------

  ghost predicate Distinct<T>(values: seq<T>) {
    forall i, j :: 0 <= i < j < |values| ==> values[i] != values[j]
  }

  /** Where v stands in the list, or the next free index. */
  function IndexIn<T(==)>(values: seq<T>, v: T): (i: nat)
    ensures i <= |values|
    ensures i < |values| ==> values[i] == v
    ensures i == |values| ==> v !in values
  {
    if |values| == 0 then 0
    else if values[0] == v then 0
    else 1 + IndexIn(values[1..], v)
  }

  /** The list once v has been looked up. */
  function With<T(==)>(values: seq<T>, v: T): (values': seq<T>) {
    if v in values then values else values + [v]
  }

  // ------------------------------------------------------------------
  // Slots
  // ------------------------------------------------------------------

  /** Table sizes, so that masking with size - 1 is taking the remainder. */
  ghost predicate PowerOfTwo(size: nat) {
    exists k: nat :: size == Pow2(k)
  }

  /** The d-th slot probed for a hash. */
  function Probe(h: nat, d: nat, size: nat): (s: nat)
    requires size > 0
    ensures s < size
  {
    (h + d) % size
  }

  /** Slots hold entry index + 1, 0 for empty. Entry i of `dist` sits dist[i] probes from its hash, with no
      empty slot on the way, and every full slot is some entry's. */
  ghost predicate Placed(slots: seq<nat>, hashes: seq<nat>, dist: map<nat, nat>) {
    && (forall i :: i in dist ==> EntryOk(slots, hashes, dist, i))
    && (forall s :: 0 <= s < |slots| && slots[s] != 0 ==> SlotOk(slots, hashes, dist, s))
  }

  ghost predicate EntryOk(slots: seq<nat>, hashes: seq<nat>, dist: map<nat, nat>, i: nat)
    requires i in dist
  {
    && i < |hashes| && dist[i] < |slots| && slots[Probe(hashes[i], dist[i], |slots|)] == i + 1
    && forall d :: 0 <= d < dist[i] ==> slots[Probe(hashes[i], d, |slots|)] != 0
  }

  ghost predicate SlotOk(slots: seq<nat>, hashes: seq<nat>, dist: map<nat, nat>, s: nat)
    requires s < |slots| && slots[s] != 0
  {
    var i := slots[s] - 1;
    i in dist && i < |hashes| && s == Probe(hashes[i], dist[i], |slots|)
  }

  /** Distinct slots hold distinct entries, so a table with more slots than entries has an empty one. */
  lemma {:induction false} HasEmpty(slots: seq<nat>, hashes: seq<nat>, dist: map<nat, nat>)
    requires Placed(slots, hashes, dist) && |dist.Keys| < |slots|
    ensures exists s :: 0 <= s < |slots| && slots[s] == 0
  {
    if forall s :: 0 <= s < |slots| ==> slots[s] != 0 {
      var held := Held(slots, |slots|);
      HeldCount(slots, hashes, dist, |slots|);
      forall i | i in held ensures i in dist.Keys {
        HeldFrom(slots, |slots|, i);
      }
      Smaller(held, dist.Keys);
    }
  }

  lemma {:induction false} Smaller(a: set<nat>, b: set<nat>)
    requires a <= b
    ensures |a| <= |b|
  {
    assert b == a + (b - a);
    assert |b| == |a| + |b - a|;
  }

  /** The entries in the first n slots. */
  ghost function Held(slots: seq<nat>, n: nat): (held: set<nat>)
    requires n <= |slots| && forall s :: 0 <= s < n ==> slots[s] != 0
  {
    if n == 0 then {} else Held(slots, n - 1) + {slots[n - 1] - 1}
  }

  lemma {:induction false} HeldFrom(slots: seq<nat>, n: nat, i: nat)
    requires n <= |slots| && (forall s :: 0 <= s < n ==> slots[s] != 0) && i in Held(slots, n)
    ensures exists s :: 0 <= s < n && slots[s] - 1 == i
    decreases n
  {
    if i == slots[n - 1] - 1 {
    } else {
      HeldFrom(slots, n - 1, i);
    }
  }

  lemma {:induction false} HeldCount(slots: seq<nat>, hashes: seq<nat>, dist: map<nat, nat>, n: nat)
    requires n <= |slots| && (forall s :: 0 <= s < |slots| ==> slots[s] != 0) && Placed(slots, hashes, dist)
    ensures |Held(slots, n)| == n
    decreases n
  {
    if n > 0 {
      HeldCount(slots, hashes, dist, n - 1);
      var i := slots[n - 1] - 1;
      if i in Held(slots, n - 1) {
        HeldFrom(slots, n - 1, i);
      }
    }
  }

  /** Putting a new entry in the empty slot its probe stopped at. */
  lemma {:induction false} PlacedMore(slots: seq<nat>, hashes: seq<nat>, dist: map<nat, nat>, i: nat, d: nat)
    requires Placed(slots, hashes, dist) && i !in dist && i < |hashes| && d < |slots|
    requires slots[Probe(hashes[i], d, |slots|)] == 0
    requires forall e :: 0 <= e < d ==> slots[Probe(hashes[i], e, |slots|)] != 0
    ensures Placed(slots[Probe(hashes[i], d, |slots|) := i + 1], hashes, dist[i := d])
  {
    hide Probe;
    var s := Probe(hashes[i], d, |slots|);
    var slots', dist' := slots[s := i + 1], dist[i := d];
    forall j | j in dist' ensures EntryOk(slots', hashes, dist', j) {
      if j != i {
        assert EntryOk(slots, hashes, dist, j);
      }
    }
    forall t | 0 <= t < |slots'| && slots'[t] != 0 ensures SlotOk(slots', hashes, dist', t) {
      if t != s {
        assert SlotOk(slots, hashes, dist, t);
      }
    }
  }

  /** The first empty slot from a hash on, in fewer probes than there are slots. */
  method EmptySlot(slots: seq<nat>, h: nat, ghost hashes: seq<nat>, ghost dist: map<nat, nat>)
    returns (s: nat, ghost d: nat)
    requires Placed(slots, hashes, dist) && |dist.Keys| < |slots| && PowerOfTwo(|slots|)
    ensures d < |slots| && s == Probe(h, d, |slots|) && slots[s] == 0
    ensures forall e :: 0 <= e < d ==> slots[Probe(h, e, |slots|)] != 0
  {
    hide Placed, Probe, And, PowerOfTwo;
    HasEmpty(slots, hashes, dist);
    ghost var gap :| 0 <= gap < |slots| && slots[gap] == 0;
    ghost var far := ProbeReaches(h, gap, |slots|);
    var mask := |slots| - 1;
    MaskIsProbe(h, |slots|);
    d, s := 0, And(h, mask);
    while slots[s] != 0
      invariant d <= far && s == Probe(h, d, |slots|)
      invariant forall e :: 0 <= e < d ==> slots[Probe(h, e, |slots|)] != 0
      decreases far - d
    {
      ProbeNext(h, d, |slots|);
      MaskIsProbe(s + 1, |slots|);
      d, s := d + 1, And(s + 1, mask);
    }
  }

  /** Probing reaches every slot. */
  ghost function ProbeReaches(h: nat, s: nat, size: nat): (d: nat)
    requires s < size
    ensures d < size && Probe(h, d, size) == s
  {
    var a := h % size;
    var d := if s >= a then s - a else s + size - a;
    ProbeAt(h, d, size, s);
    d
  }

  lemma {:induction false} ProbeAt(h: nat, d: nat, size: nat, s: nat)
    requires s < size && d < size && (h % size + d == s || h % size + d == s + size)
    ensures Probe(h, d, size) == s
  {
    var q := h / size;
    assert h == q * size + h % size;
    if h % size + d == s {
      DivModUnique(h + d, size, q, s);
    } else {
      assert (q + 1) * size == q * size + size;
      DivModUnique(h + d, size, q + 1, s);
    }
  }

  /** h & mask is where probing for h begins. */
  lemma {:induction false} MaskIsProbe(h: nat, size: nat)
    requires size > 0 && PowerOfTwo(size)
    ensures And(h, size - 1) == Probe(h, 0, size)
  {
    var k: nat :| size == Pow2(k);
    MaskIsRemainder(h, k);
  }

  lemma {:induction false} ProbeNext(h: nat, d: nat, size: nat)
    requires size > 0
    ensures Probe(h, d + 1, size) == Probe(Probe(h, d, size) + 1, 0, size)
  {
    var q, r := (h + d) / size, (h + d) % size;
    assert h + d == q * size + r;
    if r + 1 < size {
      DivModUnique(h + d + 1, size, q, r + 1);
      DivModUnique(r + 1, size, 0, r + 1);
    } else {
      assert (q + 1) * size == q * size + size;
      DivModUnique(h + d + 1, size, q + 1, 0);
      DivModUnique(size, size, 1, 0);
    }
  }

  /** The slot of an entry is found before any empty slot. */
  lemma {:induction false} FoundFirst(slots: seq<nat>, hashes: seq<nat>, dist: map<nat, nat>, i: nat, d: nat)
    requires Placed(slots, hashes, dist) && i in dist && i < |hashes| && d < |slots|
    requires slots[Probe(hashes[i], d, |slots|)] == 0
    ensures dist[i] < d
  {
    hide Probe;
    assert EntryOk(slots, hashes, dist, i);
  }

  // ------------------------------------------------------------------
  // The dictionary
  // ------------------------------------------------------------------

  ghost function Upto(n: nat): (s: set<nat>)
    ensures forall i :: i in s <==> 0 <= i < n
    ensures |s| == n
  {
    if n == 0 then {} else Upto(n - 1) + {n - 1}
  }

  function TotalWeight<T>(values: seq<T>, weight: T -> nat): nat {
    if |values| == 0 then 0 else TotalWeight(values[..|values| - 1], weight) + weight(values[|values| - 1])
  }

  /** fixed_dictionary and string_dictionary: one table over any hash; `weight` is a value's size in bytes. */
  class Dictionary<T(==)> {
    const hash: T -> nat
    const weight: T -> nat
    var values: seq<T>
    var hashes: seq<nat>
    var slots: seq<nat>
    var bytes: nat
    ghost var dist: map<nat, nat>

    ghost predicate Valid()
      reads this
    {
      && Distinct(values) && HashesOf(hashes, values, hash)
      && dist.Keys == Upto(|values|) && Placed(slots, hashes, dist) && 2 * |values| <= |slots|
      && (slots == [] || PowerOfTwo(|slots|)) && bytes == TotalWeight(values, weight)
    }

    constructor (hash: T -> nat, weight: T -> nat)
      ensures Valid() && values == []
    {
      this.hash, this.weight := hash, weight;
      values, hashes, slots, bytes, dist := [], [], [], 0, map[];
    }

    /** index_of (columnar_encode.hpp:379-394, 416-432): the first-seen index of v, added at the end when new. */
    method IndexOf(v: T) returns (r: nat)
      requires Valid()
      modifies this`values, this`hashes, this`slots, this`bytes, this`dist
      ensures Valid() && r == IndexIn(old(values), v) && values == With(old(values), v)
    {
      hide Placed, Probe, TotalWeight, Distinct, HashesOf, Upto, IndexIn, With, PowerOfTwo;
      if (|values| + 1) * 2 > |slots| {
        slots, dist := Grow(slots, hashes, dist, |values|);
      }
      var h := hash(v);
      var found, s;
      ghost var d;
      found, s, d := Search(slots, values, hashes, hash, v, h, dist);
      if found.Some? {
        SameIndex(values, v, found.value);
        return found.value;
      }
      r := |values|;
      NewIndex(values, v);
      AddEntry(slots, values, hashes, hash, v, dist, d);
      slots := slots[s := r + 1];
      WeightMore(values, v, weight);
      values, hashes, bytes := values + [v], hashes + [h], bytes + weight(v);
      dist := dist[r := d];
    }

    method Clear()
      requires Valid()
      modifies this`values, this`hashes, this`slots, this`bytes, this`dist
      ensures Valid() && values == []
    {
      hide Placed, TotalWeight, PowerOfTwo;
      slots := seq(|slots|, i => 0);
      NothingPlaced(slots, []);
      NoWeight(weight);
      values, hashes, bytes, dist := [], [], 0, map[];
    }
  }

  ghost predicate HashesOf<T>(hashes: seq<nat>, values: seq<T>, hash: T -> nat) {
    |hashes| == |values| && forall i :: 0 <= i < |values| ==> hashes[i] == hash(values[i])
  }

  /** probe_slots::grow (columnar_encode.hpp:357-368): 64 slots, or twice as many, every entry put in again. */
  method Grow(slots: seq<nat>, hashes: seq<nat>, ghost dist: map<nat, nat>, ghost n: nat)
    returns (table: seq<nat>, ghost placed: map<nat, nat>)
    requires Placed(slots, hashes, dist) && dist.Keys == Upto(n) && 2 * n <= |slots|
    requires slots == [] || PowerOfTwo(|slots|)
    ensures |table| == (if |slots| == 0 then 64 else 2 * |slots|) && PowerOfTwo(|table|)
    ensures Placed(table, hashes, placed) && placed.Keys == Upto(n)
  {
    hide Placed, Probe, PowerOfTwo, Upto;
    var size := if |slots| == 0 then 64 else 2 * |slots|;
    Doubles(|slots|);
    table, placed := seq(size, i => 0), map[];
    NothingPlaced(table, hashes);
    for k := 0 to |slots|
      invariant |table| == size && Placed(table, hashes, placed)
      invariant forall i :: i in placed <==> Among(slots, k, i)
      invariant placed.Keys <= Upto(n)
    {
      var at := slots[k];
      if at != 0 {
        FullSlot(slots, hashes, dist, k);
        NotYet(slots, hashes, dist, k);
        Smaller(placed.Keys, Upto(n));
        ghost var d;
        var s;
        s, d := EmptySlot(table, hashes[at - 1], hashes, placed);
        PlacedMore(table, hashes, placed, at - 1, d);
        table := table[s := at];
        placed := placed[at - 1 := d];
      }
    }
    forall i | i in Upto(n) ensures i in placed {
      EntrySlot(slots, hashes, dist, i);
    }
    assert placed.Keys == Upto(n);
  }

  lemma {:induction false} Doubles(size: nat)
    ensures PowerOfTwo(64) && (PowerOfTwo(size) ==> PowerOfTwo(2 * size))
  {
    assert Pow2(3) == 8 && 64 == Pow2(6);
    if PowerOfTwo(size) {
      var k: nat :| size == Pow2(k);
      assert 2 * size == Pow2(k + 1);
    }
  }

  /** Entry i stands in one of the first k slots. */
  ghost predicate Among(slots: seq<nat>, k: nat, i: nat)
    requires k <= |slots|
  {
    exists t :: 0 <= t < k && slots[t] == i + 1
  }

  /** The probe loop: it stops at v's own slot or at an empty one, before it has seen every slot. */
  method Search<T(==)>(slots: seq<nat>, values: seq<T>, hashes: seq<nat>, hash: T -> nat, v: T, h: nat,
                       ghost dist: map<nat, nat>)
    returns (found: Option<nat>, s: nat, ghost d: nat)
    requires Placed(slots, hashes, dist) && dist.Keys == Upto(|values|) && |values| < |slots| && PowerOfTwo(|slots|)
    requires HashesOf(hashes, values, hash) && h == hash(v)
    ensures found.Some? ==> found.value < |values| && values[found.value] == v
    ensures found.None? ==> v !in values && d < |slots| && s == Probe(h, d, |slots|) && slots[s] == 0
    ensures found.None? ==> forall e :: 0 <= e < d ==> slots[Probe(h, e, |slots|)] != 0
  {
    hide Placed, Probe, And, PowerOfTwo, Upto, Differs, HashesOf;
    HasEmpty(slots, hashes, dist);
    ghost var gap :| 0 <= gap < |slots| && slots[gap] == 0;
    ghost var far := ProbeReaches(h, gap, |slots|);
    var mask := |slots| - 1;
    MaskIsProbe(h, |slots|);
    s, d := And(h, mask), 0;
    while slots[s] != 0
      invariant d <= far && s == Probe(h, d, |slots|)
      invariant forall e :: 0 <= e < d ==> Differs(slots, values, v, Probe(h, e, |slots|))
      decreases far - d
    {
      var at := slots[s];
      FullSlot(slots, hashes, dist, s);
      HashAt(hashes, values, hash, at - 1);
      if hashes[at - 1] == h && values[at - 1] == v {
        return Some(at - 1), s, d;
      }
      NoMatch(slots, values, v, s);
      ProbeNext(h, d, |slots|);
      MaskIsProbe(s + 1, |slots|);
      d, s := d + 1, And(s + 1, mask);
    }
    Missed(slots, values, hashes, hash, v, dist, d);
    found := None;
  }

  lemma {:induction false} Missed<T>(slots: seq<nat>, values: seq<T>, hashes: seq<nat>, hash: T -> nat, v: T,
                                     dist: map<nat, nat>, d: nat)
    requires Placed(slots, hashes, dist) && dist.Keys == Upto(|values|) && HashesOf(hashes, values, hash)
    requires d < |slots| && slots[Probe(hash(v), d, |slots|)] == 0
    requires forall e :: 0 <= e < d ==> Differs(slots, values, v, Probe(hash(v), e, |slots|))
    ensures v !in values && forall e :: 0 <= e < d ==> slots[Probe(hash(v), e, |slots|)] != 0
  {
    hide Placed, Probe, Upto, HashesOf;
    forall i | 0 <= i < |values| ensures values[i] != v {
      NotThere(slots, values, hashes, hash, v, dist, d, i);
    }
  }

  /** An empty slot after slots of other values: v is not entry i. */
  lemma {:induction false} NotThere<T>(slots: seq<nat>, values: seq<T>, hashes: seq<nat>, hash: T -> nat, v: T,
                                       dist: map<nat, nat>, d: nat, i: nat)
    requires Placed(slots, hashes, dist) && dist.Keys == Upto(|values|) && HashesOf(hashes, values, hash)
    requires i < |values| && d < |slots| && slots[Probe(hash(v), d, |slots|)] == 0
    requires forall e :: 0 <= e < d ==> Differs(slots, values, v, Probe(hash(v), e, |slots|))
    ensures values[i] != v
  {
    hide Placed, Probe;
    if values[i] == v {
      FoundFirst(slots, hashes, dist, i, d);
      EntryAt(slots, hashes, dist, i);
    }
  }

  lemma {:induction false} HashAt<T>(hashes: seq<nat>, values: seq<T>, hash: T -> nat, i: nat)
    requires HashesOf(hashes, values, hash) && i < |hashes|
    ensures |hashes| == |values| && hashes[i] == hash(values[i])
  {
  }

  lemma {:induction false} NoMatch<T>(slots: seq<nat>, values: seq<T>, v: T, s: nat)
    requires s < |slots| && 0 < slots[s] <= |values| && values[slots[s] - 1] != v
    ensures Differs(slots, values, v, s)
  {
  }

  /** A new value at the end of the list, its entry in the slot found. */
  lemma {:induction false} AddEntry<T>(slots: seq<nat>, values: seq<T>, hashes: seq<nat>, hash: T -> nat, v: T,
                                       dist: map<nat, nat>, d: nat)
    requires Placed(slots, hashes, dist) && dist.Keys == Upto(|values|) && HashesOf(hashes, values, hash)
    requires Distinct(values) && v !in values && d < |slots| && slots[Probe(hash(v), d, |slots|)] == 0
    requires forall e :: 0 <= e < d ==> slots[Probe(hash(v), e, |slots|)] != 0
    ensures Distinct(values + [v]) && HashesOf(hashes + [hash(v)], values + [v], hash)
    ensures dist[|values| := d].Keys == Upto(|values| + 1)
    ensures Placed(slots[Probe(hash(v), d, |slots|) := |values| + 1], hashes + [hash(v)], dist[|values| := d])
  {
    hide Placed, Probe;
    MoreHashes(slots, hashes, dist, hash(v));
    PlacedMore(slots, hashes + [hash(v)], dist, |values|, d);
  }

  ghost predicate Differs<T>(slots: seq<nat>, values: seq<T>, v: T, s: nat) {
    s < |slots| && 0 < slots[s] <= |values| && values[slots[s] - 1] != v
  }

  lemma {:induction false} NothingPlaced(slots: seq<nat>, hashes: seq<nat>)
    requires forall s :: 0 <= s < |slots| ==> slots[s] == 0
    ensures Placed(slots, hashes, map[])
  {
  }

  lemma {:induction false} FullSlot(slots: seq<nat>, hashes: seq<nat>, dist: map<nat, nat>, s: nat)
    requires Placed(slots, hashes, dist) && s < |slots| && slots[s] != 0
    ensures slots[s] - 1 in dist && slots[s] - 1 < |hashes|
  {
    assert SlotOk(slots, hashes, dist, s);
  }

  lemma {:induction false} EntryAt(slots: seq<nat>, hashes: seq<nat>, dist: map<nat, nat>, i: nat)
    requires Placed(slots, hashes, dist) && i in dist
    ensures i < |hashes| && dist[i] < |slots| && slots[Probe(hashes[i], dist[i], |slots|)] == i + 1
  {
    assert EntryOk(slots, hashes, dist, i);
  }

  lemma {:induction false} EntrySlot(slots: seq<nat>, hashes: seq<nat>, dist: map<nat, nat>, i: nat)
    requires Placed(slots, hashes, dist) && i in dist
    ensures Among(slots, |slots|, i)
  {
    EntryAt(slots, hashes, dist, i);
  }

  /** An entry stands in one slot only. */
  lemma {:induction false} NotYet(slots: seq<nat>, hashes: seq<nat>, dist: map<nat, nat>, k: nat)
    requires Placed(slots, hashes, dist) && k < |slots| && slots[k] != 0
    ensures forall t :: 0 <= t < k ==> slots[t] != slots[k]
  {
    assert SlotOk(slots, hashes, dist, k);
    forall t | 0 <= t < k ensures slots[t] != slots[k] {
      if slots[t] != 0 {
        assert SlotOk(slots, hashes, dist, t);
      }
    }
  }

  lemma {:induction false} SameIndex<T>(values: seq<T>, v: T, i: nat)
    requires Distinct(values) && i < |values| && values[i] == v
    ensures IndexIn(values, v) == i && With(values, v) == values
  {
  }

  lemma {:induction false} NewIndex<T>(values: seq<T>, v: T)
    requires v !in values
    ensures IndexIn(values, v) == |values| && With(values, v) == values + [v]
  {
  }

  lemma {:induction false} MoreHashes(slots: seq<nat>, hashes: seq<nat>, dist: map<nat, nat>, h: nat)
    requires Placed(slots, hashes, dist)
    ensures Placed(slots, hashes + [h], dist)
  {
    hide Probe;
    var hs := hashes + [h];
    forall i | i in dist ensures EntryOk(slots, hs, dist, i) {
      assert EntryOk(slots, hashes, dist, i);
    }
    forall s | 0 <= s < |slots| && slots[s] != 0 ensures SlotOk(slots, hs, dist, s) {
      assert SlotOk(slots, hashes, dist, s);
    }
  }

  lemma {:induction false} NoWeight<T>(weight: T -> nat)
    ensures TotalWeight([], weight) == 0
  {
  }

  lemma {:induction false} WeightMore<T>(values: seq<T>, v: T, weight: T -> nat)
    ensures TotalWeight(values + [v], weight) == TotalWeight(values, weight) + weight(v)
  {
    assert (values + [v])[..|values|] == values;
  }

  // ------------------------------------------------------------------
  // Whole runs
  // ------------------------------------------------------------------

  /** The list after looking up every value of vs in turn, starting from a cleared dictionary. */
  function FirstSeen<T(==)>(vs: seq<T>): (values: seq<T>) {
    if |vs| == 0 then [] else With(FirstSeen(vs[..|vs| - 1]), vs[|vs| - 1])
  }

  /** What look-up number k of such a run returned. */
  function Returned<T(==)>(vs: seq<T>, k: nat): (i: nat)
    requires k < |vs|
  {
    IndexIn(FirstSeen(vs[..k]), vs[k])
  }

  lemma {:induction false} SeenDistinct<T>(vs: seq<T>)
    ensures Distinct(FirstSeen(vs))
  {
    if |vs| > 0 {
      SeenDistinct(vs[..|vs| - 1]);
    }
  }

  /** Entries never move. */
  lemma {:induction false} SeenGrows<T>(vs: seq<T>, k: nat)
    requires k <= |vs|
    ensures FirstSeen(vs[..k]) <= FirstSeen(vs)
    decreases |vs|
  {
    if k < |vs| {
      SeenGrows(vs[..|vs| - 1], k);
      assert vs[..|vs| - 1][..k] == vs[..k];
    } else {
      assert vs[..k] == vs;
    }
  }

  /** Every index returned names its value in the final list, and equal values get equal indices and no others
      do. */
  lemma {:induction false} RunIndices<T>(vs: seq<T>, j: nat, k: nat)
    requires j < |vs| && k < |vs|
    ensures Returned(vs, k) < |FirstSeen(vs)| && FirstSeen(vs)[Returned(vs, k)] == vs[k]
    ensures Returned(vs, j) == Returned(vs, k) <==> vs[j] == vs[k]
  {
    hide FirstSeen, IndexIn;
    SeenDistinct(vs);
    ReturnedNames(vs, j);
    ReturnedNames(vs, k);
  }

  lemma {:induction false} ReturnedNames<T>(vs: seq<T>, k: nat)
    requires k < |vs|
    ensures Returned(vs, k) < |FirstSeen(vs)| && FirstSeen(vs)[Returned(vs, k)] == vs[k]
  {
    hide IndexIn;
    SeenGrows(vs, k + 1);
    assert vs[..k + 1][..k] == vs[..k];
    assert FirstSeen(vs[..k + 1]) == With(FirstSeen(vs[..k]), vs[k]);
  }

  // ------------------------------------------------------------------
  // Any run of look-ups and clears
  // ------------------------------------------------------------------

  datatype Call<T> = Look(v: T) | Forget

  /** The values looked up since the last clear. */
  function Stretch<T>(calls: seq<Call<T>>): (vs: seq<T>) {
    if |calls| == 0 || calls[|calls| - 1].Forget? then []
    else Stretch(calls[..|calls| - 1]) + [calls[|calls| - 1].v]
  }

  /** What call number k returns: the place of its value in the first-seen list of its stretch. */
  function Answer<T(==)>(calls: seq<Call<T>>, k: nat): (r: Option<nat>)
    requires k < |calls|
  {
    match calls[k]
    case Look(v) => Some(IndexIn(FirstSeen(Stretch(calls[..k])), v))
    case Forget => None
  }

  /** The calls on one dictionary. */
  method Follow<T(==)>(hash: T -> nat, weight: T -> nat, calls: seq<Call<T>>)
    returns (answers: seq<Option<nat>>, values: seq<T>)
    ensures |answers| == |calls| && forall k :: 0 <= k < |calls| ==> answers[k] == Answer(calls, k)
    ensures values == FirstSeen(Stretch(calls))
  {
    hide IndexIn, With, FirstSeen, Stretch, Dictionary.Valid;
    var d := new Dictionary(hash, weight);
    answers := [];
    StretchNone<T>();
    for i := 0 to |calls|
      invariant fresh(d) && d.Valid() && d.values == FirstSeen(Stretch(calls[..i]))
      invariant |answers| == i && forall k :: 0 <= k < i ==> answers[k] == Answer(calls, k)
    {
      StretchNext(calls, i);
      match calls[i]
      case Look(v) =>
        var r := d.IndexOf(v);
        answers := answers + [Some(r)];
      case Forget =>
        d.Clear();
        answers := answers + [None];
    }
    assert calls[..|calls|] == calls;
    values := d.values;
  }

  lemma {:induction false} StretchNone<T>()
    ensures FirstSeen(Stretch<T>([])) == []
  {
  }

  lemma {:induction false} StretchNext<T>(calls: seq<Call<T>>, i: nat)
    requires i < |calls|
    ensures Stretch(calls[..i + 1]) == if calls[i].Look? then Stretch(calls[..i]) + [calls[i].v] else []
    ensures FirstSeen(Stretch(calls[..i + 1])) ==
            if calls[i].Look? then With(FirstSeen(Stretch(calls[..i])), calls[i].v) else []
  {
    hide With;
    assert calls[..i + 1][..i] == calls[..i];
    if calls[i].Look? {
      assert (Stretch(calls[..i]) + [calls[i].v])[..|Stretch(calls[..i])|] == Stretch(calls[..i]);
    }
  }

  /** A look-up keeps its place in its stretch until the next clear. */
  lemma {:induction false} StretchHolds<T>(calls: seq<Call<T>>, j: nat, n: nat)
    requires j < n <= |calls| && forall i :: j <= i < n ==> calls[i].Look?
    ensures
      var vs, p := Stretch(calls[..n]), |Stretch(calls[..j])|;
      p < |vs| && vs[..p] == Stretch(calls[..j]) && vs[p] == calls[j].v
    decreases n
  {
    hide Stretch, FirstSeen;
    StretchNext(calls, n - 1);
    if j < n - 1 {
      StretchHolds(calls, j, n - 1);
    }
  }

  /** Within one stretch an index names its value, and equal values get equal indices and no others do. */
  lemma {:induction false} StretchIndices<T>(calls: seq<Call<T>>, j: nat, k: nat)
    requires j <= k < |calls| && forall i :: j <= i <= k ==> calls[i].Look?
    ensures
      var values, a, b := FirstSeen(Stretch(calls[..k + 1])), Answer(calls, j), Answer(calls, k);
      && a.Some? && b.Some? && a.value < |values| && values[a.value] == calls[j].v
      && (a == b <==> calls[j].v == calls[k].v)
  {
    hide Stretch, FirstSeen, IndexIn;
    StretchHolds(calls, j, k + 1);
    StretchHolds(calls, k, k + 1);
    RunIndices(Stretch(calls[..k + 1]), |Stretch(calls[..k])|, |Stretch(calls[..j])|);
  }
}
