/** The segmented cursor: include/nanom/segmented.hpp:128-276, 350-373, 450-490. */
module Segments {
  import opened Bytes

  /** seg_max_parts, the inline descriptors a subrange can hold. */
  const MAX_PARTS := 64

  type Parts = seq<seq<byte>>

  /** seg_input: the part list, the current part, the place in it (None for a null cursor), the absolute offset. */
  datatype Cursor = Cursor(parts: Parts, seg: nat, cur: Option<nat>, abs: nat)

  /** What is left to read. */
  function Rest(c: Cursor): (s: seq<byte>)
    requires c.cur.Some? ==> c.seg < |c.parts| && c.cur.value <= |c.parts[c.seg]|
  {
    if c.cur.None? then [] else c.parts[c.seg][c.cur.value..] + Flat(c.parts[c.seg + 1..])
  }

  /** The cursor stands at byte `abs` of the concatenation, and inside a non-empty part or past them all. */
  ghost predicate Valid(c: Cursor) {
    && (c.cur.Some? ==> c.seg < |c.parts| && c.cur.value < |c.parts[c.seg]|)
    && c.abs <= |Flat(c.parts)| && Rest(c) == Flat(c.parts)[c.abs..]
  }

  /** cur is null exactly when nothing is left. */
  lemma {:induction false} NullIsExhausted(c: Cursor)
    requires Valid(c)
    ensures c.cur.None? <==> Rest(c) == []
    ensures |Rest(c)| == |Flat(c.parts)| - c.abs
  {
    if c.cur.Some? {
      assert Rest(c)[0] == c.parts[c.seg][c.cur.value];
    }
  }

  lemma {:induction false} FlatNone(parts: Parts, i: nat)
    requires i >= |parts|
    ensures i == |parts| ==> Flat(parts[i..]) == []
  {
  }

  // ------------------------------------------------------------------
  // Moving between parts
  // ------------------------------------------------------------------

  /** enter(): the start of the first non-empty part from i on (segmented.hpp:263-275). */
  method Enter(parts: Parts, i: nat) returns (seg: nat, cur: Option<nat>)
    requires i <= |parts|
    ensures i <= seg <= |parts| && (cur.Some? ==> seg < |parts| && cur == Some(0) && |parts[seg]| > 0)
    ensures Rest(Cursor(parts, seg, cur, 0)) == Flat(parts[i..])
  {
    hide Flat;
    seg := i;
    while seg < |parts|
      invariant i <= seg <= |parts| && Flat(parts[seg..]) == Flat(parts[i..])
    {
      FlatFrom(parts, seg);
      if |parts[seg]| > 0 {
        assert parts[seg][0..] == parts[seg];
        return seg, Some(0);
      }
      assert parts[seg] + Flat(parts[seg + 1..]) == Flat(parts[seg + 1..]);
      seg := seg + 1;
    }
    FlatNone(parts, seg);
    cur := None;
  }

  /** The next non-empty part; the caller knows there is one. */
  method NextPart(parts: Parts, seg: nat) returns (seg': nat)
    requires seg < |parts| && Flat(parts[seg + 1..]) != []
    ensures seg < seg' < |parts| && |parts[seg']| > 0 && forall i :: seg < i < seg' ==> |parts[i]| == 0
    ensures Flat(parts[seg + 1..]) == parts[seg'] + Flat(parts[seg' + 1..])
  {
    hide Flat;
    seg' := seg + 1;
    SomeLeft(parts, seg');
    FlatFrom(parts, seg');
    while |parts[seg']| == 0
      invariant seg < seg' < |parts| && Flat(parts[seg'..]) == Flat(parts[seg + 1..])
      invariant forall i :: seg < i < seg' ==> |parts[i]| == 0
      invariant Flat(parts[seg'..]) == parts[seg'] + Flat(parts[seg' + 1..])
      decreases |parts| - seg'
    {
      assert parts[seg'] + Flat(parts[seg' + 1..]) == Flat(parts[seg' + 1..]);
      seg' := seg' + 1;
      SomeLeft(parts, seg');
      FlatFrom(parts, seg');
    }
  }

  lemma {:induction false} SomeLeft(parts: Parts, i: nat)
    requires i <= |parts| && Flat(parts[i..]) != []
    ensures i < |parts|
  {
  }

  /** from(). */
  method Start(parts: Parts) returns (c: Cursor)
    ensures Valid(c) && c.parts == parts && c.abs == 0 && Rest(c) == Flat(parts)
  {
    hide Flat;
    var seg, cur := Enter(parts, 0);
    c := Cursor(parts, seg, cur, 0);
    assert parts[0..] == parts && Flat(parts)[0..] == Flat(parts);
  }

  // ------------------------------------------------------------------
  // Reading
  // ------------------------------------------------------------------

  /** What stands before byte `at` of part `seg` is read: the rest of that part and the parts after it. */
  function Ahead(parts: Parts, seg: nat, at: nat): (s: seq<byte>)
    requires seg < |parts| && at <= |parts[seg]|
  {
    parts[seg][at..] + Flat(parts[seg + 1..])
  }

  lemma {:induction false} AheadByte(parts: Parts, seg: nat, at: nat, k: nat)
    requires seg < |parts| && at + k < |parts[seg]|
    ensures k < |Ahead(parts, seg, at)| && Ahead(parts, seg, at)[k] == parts[seg][at + k]
  {
    hide Flat;
  }

  /** Within a part the cursor just moves. */
  lemma {:induction false} AheadWithin(parts: Parts, seg: nat, at: nat, k: nat)
    requires seg < |parts| && at + k <= |parts[seg]|
    ensures k <= |Ahead(parts, seg, at)| && Ahead(parts, seg, at)[k..] == Ahead(parts, seg, at + k)
    ensures Ahead(parts, seg, at)[..k] == parts[seg][at..at + k]
  {
    hide Flat;
  }

  /** Past its end come the parts after it. */
  lemma {:induction false} AheadBeyond(parts: Parts, seg: nat, at: nat)
    requires seg < |parts| && at <= |parts[seg]|
    ensures |parts[seg]| - at <= |Ahead(parts, seg, at)|
    ensures Ahead(parts, seg, at)[|parts[seg]| - at..] == Flat(parts[seg + 1..])
  {
    hide Flat;
  }

  lemma {:induction false} DropDrop(s: seq<byte>, k: nat, m: nat)
    requires k + m <= |s|
    ensures s[k..][m..] == s[k + m..]
  {
  }

  lemma {:induction false} AheadStart(parts: Parts, seg: nat)
    requires seg < |parts|
    ensures Ahead(parts, seg, 0) == parts[seg] + Flat(parts[seg + 1..])
  {
    assert parts[seg][0..] == parts[seg];
  }

  /** operator[] (segmented.hpp:150-163). */
  method Index(c: Cursor, i: nat) returns (b: byte)
    requires Valid(c) && i < |Rest(c)|
    ensures b == Rest(c)[i]
  {
    hide Flat, Ahead;
    ghost var rest := Rest(c);
    var seg: nat, at: nat, left: nat := c.seg, c.cur.value, i;
    assert Ahead(c.parts, seg, at) == rest by { RestIsAhead(c); }
    assert rest[0..] == rest;
    while left >= |c.parts[seg]| - at
      invariant seg < |c.parts| && at <= |c.parts[seg]| && left <= i
      invariant Ahead(c.parts, seg, at) == rest[i - left..]
      decreases |c.parts| - seg
    {
      var here := |c.parts[seg]| - at;
      AheadBeyond(c.parts, seg, at);
      DropDrop(rest, i - left, here);
      seg := NextPart(c.parts, seg);
      left, at := left - here, 0;
      AheadStart(c.parts, seg);
    }
    AheadByte(c.parts, seg, at, left);
    b := c.parts[seg][at + left];
  }

  lemma {:induction false} RestIsAhead(c: Cursor)
    requires Valid(c) && c.cur.Some?
    ensures Rest(c) == Ahead(c.parts, c.seg, c.cur.value)
  {
  }

  /** safe_at. */
  method SafeAt(c: Cursor, i: nat) returns (b: Option<byte>)
    requires Valid(c)
    ensures b == if i < |Rest(c)| then Some(Rest(c)[i]) else None
  {
    hide Flat;
    NullIsExhausted(c);
    if i >= |Flat(c.parts)| - c.abs {
      return None;
    }
    var x := Index(c, i);
    b := Some(x);
  }

  lemma {:induction false} InsidePart(c: Cursor)
    requires Valid(c)
    ensures c.cur.Some? ==> c.seg < |c.parts| && c.cur.value < |c.parts[c.seg]|
    ensures c.abs <= |Flat(c.parts)|
  {
  }

  /** A cursor k bytes on. */
  lemma {:induction false} ValidAhead(c: Cursor, o: Cursor, k: nat)
    requires Valid(c) && k <= |Rest(c)| && o.parts == c.parts && o.abs == c.abs + k
    requires o.cur.Some? ==> o.seg < |o.parts| && o.cur.value < |o.parts[o.seg]|
    requires Rest(o) == Rest(c)[k..]
    ensures Valid(o)
  {
    hide Flat;
    NullIsExhausted(c);
    DropDrop(Flat(c.parts), c.abs, k);
  }

  /** advance (segmented.hpp:173-188): clamps at the end. */
  method Advance(c: Cursor, n: nat) returns (o: Cursor)
    requires Valid(c)
    ensures Valid(o) && o.parts == c.parts && o.abs == Min(c.abs + n, |Flat(c.parts)|)
    ensures Rest(o) == if n <= |Rest(c)| then Rest(c)[n..] else []
  {
    hide Flat, Ahead, Rest, Valid;
    NullIsExhausted(c);
    InsidePart(c);
    ghost var rest := Rest(c);
    var seg: nat, cur: Option<nat>, left: nat := c.seg, c.cur, n;
    assert rest[0..] == rest;
    if cur.Some? {
      RestIsAhead(c);
    }
    while cur.Some?
      invariant left <= n && n - left <= |rest|
      invariant cur.Some? ==> seg < |c.parts| && cur.value < |c.parts[seg]| && Ahead(c.parts, seg, cur.value) == rest[n - left..]
      invariant cur.None? ==> rest[n - left..] == [] && (left > 0 || n == 0)
      decreases |c.parts| - seg, cur.Some?
    {
      var here := |c.parts[seg]| - cur.value;
      AheadBeyond(c.parts, seg, cur.value);
      if left < here {
        AheadWithin(c.parts, seg, cur.value, left);
        DropDrop(rest, n - left, left);
        o := Cursor(c.parts, seg, Some(cur.value + left), c.abs + n);
        CursorRest(o);
        ValidAhead(c, o, n);
        return;
      }
      DropDrop(rest, n - left, here);
      left := left - here;
      seg, cur := Enter(c.parts, seg + 1);
      EnterRest(c.parts, seg, cur);
      if left == 0 {
        o := Cursor(c.parts, seg, cur, c.abs + n);
        if cur.Some? {
          CursorRest(o);
        } else {
          NullRest(o);
        }
        ValidAhead(c, o, n);
        return;
      }
    }
    o := Cursor(c.parts, seg, None, |Flat(c.parts)|);
    NullRest(o);
    AtEnd(o);
  }

  lemma {:induction false} CursorRest(o: Cursor)
    requires o.cur.Some? && o.seg < |o.parts| && o.cur.value < |o.parts[o.seg]|
    ensures Rest(o) == Ahead(o.parts, o.seg, o.cur.value)
  {
  }

  lemma {:induction false} NullRest(o: Cursor)
    requires o.cur.None?
    ensures Rest(o) == []
  {
  }

  lemma {:induction false} AtEnd(o: Cursor)
    requires o.cur.None? && o.abs == |Flat(o.parts)|
    ensures Valid(o)
  {
  }

  lemma {:induction false} EnterRest(parts: Parts, seg: nat, cur: Option<nat>)
    requires cur.Some? ==> seg < |parts| && cur == Some(0) && |parts[seg]| > 0
    ensures cur.Some? ==> Rest(Cursor(parts, seg, cur, 0)) == Ahead(parts, seg, 0)
    ensures cur.None? ==> Rest(Cursor(parts, seg, cur, 0)) == []
  {
  }

  // ------------------------------------------------------------------
  // Windows
  // ------------------------------------------------------------------

  /** gather (segmented.hpp:200-222, and 233-250 for a caller's buffer): n bytes at the cursor, read in place when
      they lie in one part. */
  method Gather(c: Cursor, n: nat) returns (w: Option<seq<byte>>)
    requires Valid(c)
    ensures w == if n <= |Rest(c)| then Some(Rest(c)[..n]) else None
  {
    hide Flat, Ahead, Rest;
    NullIsExhausted(c);
    ghost var rest := Rest(c);
    if c.cur.Some? && |c.parts[c.seg]| - c.cur.value >= n {
      RestIsAhead(c);
      AheadWithin(c.parts, c.seg, c.cur.value, n);
      return Some(c.parts[c.seg][c.cur.value..c.cur.value + n]);
    }
    if |Flat(c.parts)| - c.abs < n {
      return None;
    }
    var buf: seq<byte> := [];
    if n == 0 {
      assert rest[..0] == [];
      return Some(buf);
    }
    RestIsAhead(c);
    var seg: nat, at: nat := c.seg, c.cur.value;
    assert rest[0..] == rest && rest[..0] == [];
    while true
      invariant seg < |c.parts| && at <= |c.parts[seg]| && |buf| < n && buf == rest[..|buf|]
      invariant Ahead(c.parts, seg, at) == rest[|buf|..]
      decreases |c.parts| - seg
    {
      var here := Min(n - |buf|, |c.parts[seg]| - at);
      AheadWithin(c.parts, seg, at, here);
      TakeMore(rest, |buf|, here);
      DropDrop(rest, |buf|, here);
      buf := buf + c.parts[seg][at..at + here];
      if |buf| == n {
        return Some(buf);
      }
      AheadBeyond(c.parts, seg, at);
      seg := NextPart(c.parts, seg);
      at := 0;
      AheadStart(c.parts, seg);
    }
  }

  lemma {:induction false} TakeMore(s: seq<byte>, k: nat, m: nat)
    requires k + m <= |s|
    ensures s[..k] + s[k..][..m] == s[..k + m]
  {
  }

  /** The pieces of the next n bytes, one a part, empty parts left out. */
  ghost function Pieces(parts: Parts, seg: nat, at: nat, n: nat): (ps: Parts)
    requires seg < |parts| && at <= |parts[seg]|
    decreases |parts| - seg
  {
    var here := Min(n, |parts[seg]| - at);
    var tail := if n == here || seg + 1 == |parts| then [] else Pieces(parts, seg + 1, 0, n - here);
    if here == 0 then tail else [parts[seg][at..at + here]] + tail
  }

  /** They spell exactly those bytes and none is empty. */
  lemma {:induction false} PiecesSpell(parts: Parts, seg: nat, at: nat, n: nat)
    requires seg < |parts| && at <= |parts[seg]| && n <= |Ahead(parts, seg, at)|
    ensures Flat(Pieces(parts, seg, at, n)) == Ahead(parts, seg, at)[..n]
    ensures forall i :: 0 <= i < |Pieces(parts, seg, at, n)| ==> |Pieces(parts, seg, at, n)[i]| > 0
    decreases |parts| - seg
  {
    hide Ahead, Flat;
    var here := Min(n, |parts[seg]| - at);
    AheadWithin(parts, seg, at, here);
    var tail: Parts := [];
    FlatEmpty();
    if n > here {
      AheadBeyond(parts, seg, at);
      SomeLeft(parts, seg + 1);
      FlatFrom(parts, seg + 1);
      AheadStart(parts, seg + 1);
      PiecesSpell(parts, seg + 1, 0, n - here);
      TakeMore(Ahead(parts, seg, at), here, n - here);
      tail := Pieces(parts, seg + 1, 0, n - here);
    }
    FlatCons(parts[seg][at..at + here], tail);
    assert Flat(tail) == Ahead(parts, seg, at)[here..][..n - here];
    assert n == here ==> Ahead(parts, seg, at)[..here] + [] == Ahead(parts, seg, at)[..n];
  }

  lemma {:induction false} FlatEmpty()
    ensures Flat([]) == []
  {
  }

  lemma {:induction false} FlatCons(p: seq<byte>, ps: Parts)
    ensures Flat([p] + ps) == p + Flat(ps)
    ensures |p| == 0 ==> p + Flat(ps) == Flat(ps)
  {
    assert ([p] + ps)[1..] == ps;
  }


  /** subrange (segmented.hpp:350-373): the next n bytes as a part list of its own, refused when they span more
      than MAX_PARTS non-empty parts. */
  method Subrange(c: Cursor, n: nat) returns (r: Option<Parts>)
    requires Valid(c)
    ensures n > |Rest(c)| ==> r == None
    ensures n == 0 ==> r == Some([])
    ensures 0 < n <= |Rest(c)| ==>
      c.cur.Some? && r == (var ps := Pieces(c.parts, c.seg, c.cur.value, n); if |ps| <= MAX_PARTS then Some(ps) else None)
  {
    hide Flat, Ahead, Rest, Pieces;
    NullIsExhausted(c);
    if n > |Flat(c.parts)| - c.abs {
      return None;
    }
    var out: Parts := [];
    if n == 0 {
      return Some(out);
    }
    RestIsAhead(c);
    var seg: nat, at: nat, left: nat := c.seg, c.cur.value, n;
    ghost var goal := Pieces(c.parts, seg, at, n);
    assert [] + goal == goal;
    while true
      invariant seg < |c.parts| && at < |c.parts[seg]| && 0 < left <= |Ahead(c.parts, seg, at)|
      invariant goal == out + Pieces(c.parts, seg, at, left) && |out| <= MAX_PARTS
      decreases |c.parts| - seg
    {
      PiecesFirst(c.parts, seg, at, left);
      if |out| == MAX_PARTS {
        return None;
      }
      var here := Min(left, |c.parts[seg]| - at);
      out := out + [c.parts[seg][at..at + here]];
      left := left - here;
      if left == 0 {
        assert goal == out;
        return Some(out);
      }
      AheadBeyond(c.parts, seg, at);
      ghost var from := seg;
      seg := NextPart(c.parts, seg);
      at := 0;
      PiecesSkip(c.parts, from + 1, seg, left);
      AheadStart(c.parts, seg);
    }
  }

  /** The first piece, and the others. */
  lemma {:induction false} PiecesFirst(parts: Parts, seg: nat, at: nat, n: nat)
    requires seg < |parts| && at < |parts[seg]| && n > 0
    ensures
      var here := Min(n, |parts[seg]| - at);
      var ps := Pieces(parts, seg, at, n);
      && |ps| > 0 && ps[0] == parts[seg][at..at + here]
      && ps == [ps[0]] + (if n == here || seg + 1 == |parts| then [] else Pieces(parts, seg + 1, 0, n - here))
  {
  }

  /** Empty parts contribute no piece. */
  lemma {:induction false} PiecesSkip(parts: Parts, a: nat, b: nat, n: nat)
    requires a <= b < |parts| && n > 0 && forall i :: a <= i < b ==> |parts[i]| == 0
    ensures Pieces(parts, a, 0, n) == Pieces(parts, b, 0, n)
    decreases b - a
  {
    if a < b {
      PiecesSkip(parts, a + 1, b, n);
    }
  }

  // ------------------------------------------------------------------
  // Scalars and structs
  // ------------------------------------------------------------------

  datatype Got<T> = Short(missing: nat) | Got(value: T, rest: Cursor)

  /** seg_uint (segmented.hpp:478-490). */
  method SegUint(c: Cursor, n: nat, big: bool) returns (r: Got<nat>)
    requires Valid(c) && n <= 8
    ensures n > |Rest(c)| ==> r == Short(n - |Rest(c)|)
    ensures n <= |Rest(c)| ==>
      && r.Got? && r.value == (if big then BeNat(Rest(c)[..n]) else LeNat(Rest(c)[..n]))
      && Valid(r.rest) && r.rest.parts == c.parts && Rest(r.rest) == Rest(c)[n..] && r.rest.abs == c.abs + n
  {
    hide Flat, Rest, LeNat, Pow2;
    NullIsExhausted(c);
    var w := Gather(c, n);
    if w.None? {
      return Short(n - (|Flat(c.parts)| - c.abs));
    }
    var u := 0;
    assert w.value[..0] == [];
    EmptyNats();
    for i := 0 to n
      invariant u == if big then BeNat(w.value[..i]) else LeNat(w.value[..i])
    {
      NatStep(w.value, i);
      u := if big then 256 * u + w.value[i] as int else u + w.value[i] as int * Pow2(8 * i);
    }
    assert w.value[..n] == w.value;
    var rest := Advance(c, n);
    r := Got(u, rest);
  }

  lemma {:induction false} EmptyNats()
    ensures BeNat([]) == 0 && LeNat([]) == 0
  {
  }

  lemma {:induction false} NatStep(s: seq<byte>, i: nat)
    requires i < |s|
    ensures BeNat(s[..i + 1]) == 256 * BeNat(s[..i]) + s[i]
    ensures LeNat(s[..i + 1]) == LeNat(s[..i]) + s[i] * Pow2(8 * i)
  {
    hide Pow2;
    assert s[..i + 1][..i] == s[..i] && s[..i + 1] == s[..i] + [s[i]];
    LeNatConcat(s[..i], [s[i]]);
    assert [s[i]][1..] == [];
    assert LeNat([s[i]]) == s[i];
    assert Pow2(8 * i) * s[i] == s[i] * Pow2(8 * i);
  }

  /** strct_seg (segmented.hpp:450-468): whatever the decoder of a window of `need` bytes is. */
  method StrctSeg<T>(c: Cursor, need: nat, decode: seq<byte> -> T) returns (r: Got<T>)
    requires Valid(c)
    ensures need > |Rest(c)| ==> r == Short(need - |Rest(c)|)
    ensures need <= |Rest(c)| ==>
      && r.Got? && r.value == decode(Rest(c)[..need])
      && Valid(r.rest) && r.rest.parts == c.parts && Rest(r.rest) == Rest(c)[need..] && r.rest.abs == c.abs + need
  {
    hide Flat, Rest;
    NullIsExhausted(c);
    var w := Gather(c, need);
    if w.None? {
      return Short(need - (|Flat(c.parts)| - c.abs));
    }
    var rest := Advance(c, need);
    r := Got(decode(w.value), rest);
  }

  lemma {:induction false} RestIsSuffix(c: Cursor)
    requires Valid(c)
    ensures c.abs <= |Flat(c.parts)| && Rest(c) == Flat(c.parts)[c.abs..]
  {
  }

  // ------------------------------------------------------------------
  // How many parts a range meets
  // ------------------------------------------------------------------

  /** The parts with a byte in [a, b) of the concatenation. */
  function Touched(parts: Parts, a: int, b: int): (n: nat) {
    if |parts| == 0 then 0
    else
      var len := |parts[0]|;
      (if (if a > 0 then a else 0) < (if b < len then b else len) then 1 else 0) + Touched(parts[1..], a - len, b - len)
  }

  /** The parts that are not empty. */
  function Filled(parts: Parts): (n: nat) {
    if |parts| == 0 then 0 else (if |parts[0]| > 0 then 1 else 0) + Filled(parts[1..])
  }

  lemma {:induction false} TouchedFilled(parts: Parts, a: int, b: int)
    ensures Touched(parts, a, b) <= Filled(parts) <= |parts|
  {
    if |parts| > 0 {
      TouchedFilled(parts[1..], a - |parts[0]|, b - |parts[0]|);
    }
  }

  /** Nothing lies before the first byte. */
  lemma {:induction false} TouchedFromStart(parts: Parts, a: int, b: int)
    requires a <= 0
    ensures Touched(parts, a, b) == Touched(parts, 0, b) && (b <= 0 ==> Touched(parts, a, b) == 0)
  {
    if |parts| > 0 {
      var len := |parts[0]|;
      TouchedFromStart(parts[1..], a - len, b - len);
      TouchedFromStart(parts[1..], 0 - len, b - len);
    }
  }

  /** Parts before the range do not count. */
  lemma {:induction false} TouchedAfter(parts: Parts, seg: nat, a: int, b: int)
    requires seg <= |parts| && |Flat(parts[..seg])| <= a
    ensures Touched(parts, a, b) == Touched(parts[seg..], a - |Flat(parts[..seg])|, b - |Flat(parts[..seg])|)
    decreases seg
  {
    if seg == 0 {
      assert parts[0..] == parts;
    } else {
      var len := |parts[0]|;
      assert parts[..seg][1..] == parts[1..][..seg - 1] && parts[1..][seg - 1..] == parts[seg..];
      TouchedAfter(parts[1..], seg - 1, a - len, b - len);
    }
  }

  /** A subrange has one piece a part it meets. */
  lemma {:induction false} PiecesTouched(parts: Parts, seg: nat, at: nat, n: nat)
    requires seg < |parts| && at <= |parts[seg]|
    ensures |Pieces(parts, seg, at, n)| == Touched(parts[seg..], at, at + n)
    decreases |parts| - seg
  {
    var len := |parts[seg]|;
    assert parts[seg..][1..] == parts[seg + 1..];
    TouchedFromStart(parts[seg + 1..], at - len, at + n - len);
    if n > len - at && seg + 1 < |parts| {
      PiecesTouched(parts, seg + 1, 0, n - (len - at));
    }
  }

  lemma {:induction false} FlatSplit(parts: Parts, k: nat)
    requires k <= |parts|
    ensures Flat(parts) == Flat(parts[..k]) + Flat(parts[k..])
    decreases k
  {
    if k == 0 {
      assert parts[0..] == parts;
    } else {
      assert parts[..k][1..] == parts[1..][..k - 1] && parts[1..][k - 1..] == parts[k..];
      FlatSplit(parts[1..], k - 1);
    }
  }

  /** The pieces from the cursor on. */
  lemma {:induction false} CursorPieces(c: Cursor, n: nat)
    requires Valid(c) && 0 < n <= |Rest(c)|
    ensures c.cur.Some?
    ensures
      var ps := Pieces(c.parts, c.seg, c.cur.value, n);
      && Flat(ps) == Flat(c.parts)[c.abs..c.abs + n]
      && |ps| == Touched(c.parts, c.abs, c.abs + n)
  {
    hide Flat, Pieces, Touched;
    NullIsExhausted(c);
    var before := |Flat(c.parts[..c.seg])|;
    FlatSplit(c.parts, c.seg);
    FlatFrom(c.parts, c.seg);
    assert c.abs == before + c.cur.value;
    TouchedAfter(c.parts, c.seg, c.abs, c.abs + n);
    PiecesTouched(c.parts, c.seg, c.cur.value, n);
    RestIsAhead(c);
    PiecesSpell(c.parts, c.seg, c.cur.value, n);
    assert Flat(c.parts)[c.abs..][..n] == Flat(c.parts)[c.abs..c.abs + n];
  }

  // ------------------------------------------------------------------
  // Any program of reads
  // ------------------------------------------------------------------

  type ScalarSize = n: nat | n <= 8

  /** What a reader asks of a cursor; `Within` runs a program of its own over a subrange. */
  datatype Op =
    | Peek(i: nat) | Skip(n: nat) | Window(n: nat) | Number(size: ScalarSize, big: bool) | Struct(need: nat)
    | Within(n: nat, ops: seq<Op>)

  datatype Answer =
    | Byte(b: Option<byte>)
    | Left(size: nat, empty: bool)
    | Bytes(w: Option<seq<byte>>)
    | Read(value: nat)
    | Lacks(missing: nat)
    | Inside(answers: Option<seq<Answer>>)

  /** The plain string's answer at byte `at`. `split` decides only whether a subrange meets too many parts. */
  ghost function AnswerTo(s: seq<byte>, at: nat, op: Op, split: Parts): (a: Answer)
    requires at <= |s|
    decreases op
  {
    var left := |s| - at;
    match op
    case Peek(i) => Byte(if i < left then Some(s[at + i]) else None)
    case Skip(n) => Left(left - Min(n, left), n >= left)
    case Window(n) => Bytes(if n <= left then Some(s[at..at + n]) else None)
    case Number(n, big) =>
      if n > left then Lacks(n - left)
      else Read(if big then BeNat(s[at..at + n]) else LeNat(s[at..at + n]))
    case Struct(n) => if n > left then Lacks(n - left) else Bytes(Some(s[at..at + n]))
    case Within(n, ops) =>
      if n > left || Touched(split, at, at + n) > MAX_PARTS then Inside(None)
      else Inside(Some(Answers(s[at..at + n], 0, ops, [])))
  }

  /** Where it leaves the reader. */
  function MovesTo(size: nat, at: nat, op: Op): (at': nat)
    requires at <= size
    ensures at <= at' <= size
  {
    match op
    case Skip(n) => at + Min(n, size - at)
    case Number(n, _) => if n > size - at then at else at + n
    case Struct(n) => if n > size - at then at else at + n
    case _ => at
  }

  ghost function Answers(s: seq<byte>, at: nat, ops: seq<Op>, split: Parts): (answers: seq<Answer>)
    requires at <= |s|
    ensures |answers| == |ops|
    decreases ops
  {
    if |ops| == 0 then []
    else [AnswerTo(s, at, ops[0], split)] + Answers(s, MovesTo(|s|, at, ops[0]), ops[1..], split)
  }

  /** Two splits that let through the same subranges. */
  ghost predicate SameRanges(size: nat, split: Parts, split': Parts) {
    forall a: nat, b: nat :: a <= b <= size ==> (Touched(split, a, b) <= MAX_PARTS <==> Touched(split', a, b) <= MAX_PARTS)
  }

  lemma {:induction false} SameAnswers(s: seq<byte>, at: nat, ops: seq<Op>, split: Parts, split': Parts)
    requires at <= |s| && SameRanges(|s|, split, split')
    ensures Answers(s, at, ops, split) == Answers(s, at, ops, split')
    decreases |ops|
  {
    hide Touched;
    if |ops| > 0 {
      SameAnswers(s, MovesTo(|s|, at, ops[0]), ops[1..], split, split');
    }
  }

  /** No subrange of a string in few enough parts is refused. */
  lemma {:induction false} FewParts(size: nat, split: Parts, split': Parts)
    requires Filled(split) <= MAX_PARTS && Filled(split') <= MAX_PARTS
    ensures SameRanges(size, split, split')
  {
    hide Touched, Filled;
    forall a: nat, b: nat | a <= b <= size
      ensures Touched(split, a, b) <= MAX_PARTS && Touched(split', a, b) <= MAX_PARTS
    {
      TouchedFilled(split, a, b);
      TouchedFilled(split', a, b);
    }
  }

  /** One request. */
  method Ask(c: Cursor, op: Op) returns (a: Answer, o: Cursor)
    requires Valid(c)
    ensures a == AnswerTo(Flat(c.parts), c.abs, op, c.parts)
    ensures Valid(o) && o.parts == c.parts && o.abs == MovesTo(|Flat(c.parts)|, c.abs, op)
    decreases op
  {
    hide Flat, Pieces, Touched, LeNat, BeNat, Answers;
    ghost var s := Flat(c.parts);
    NullIsExhausted(c);
    RestIsSuffix(c);
    o := c;
    match op
    case Peek(i) =>
      var b := SafeAt(c, i);
      a := Byte(b);
    case Skip(n) =>
      o := Advance(c, n);
      NullIsExhausted(o);
      a := Left(|Flat(o.parts)| - o.abs, o.cur.None?);
    case Window(n) =>
      var w := Gather(c, n);
      TakeAhead(s, c.abs, n);
      a := Bytes(w);
    case Number(n, big) =>
      var r := SegUint(c, n, big);
      TakeAhead(s, c.abs, n);
      match r {
        case Short(missing) => a := Lacks(missing);
        case Got(u, rest) => a, o := Read(u), rest;
      }
    case Struct(n) =>
      var r := StrctSeg(c, n, (w: seq<byte>) => w);
      TakeAhead(s, c.abs, n);
      match r {
        case Short(missing) => a := Lacks(missing);
        case Got(w, rest) => a, o := Bytes(Some(w)), rest;
      }
    case Within(n, ops) =>
      var r := Subrange(c, n);
      if 0 < n <= |s| - c.abs {
        CursorPieces(c, n);
      } else {
        NoRange(s, c.abs, c.parts);
      }
      if r.None? {
        return Inside(None), c;
      }
      var inner := Follow(r.value, ops);
      TouchedFilled(r.value, 0, 0);
      FewParts(n, r.value, []);
      SameAnswers(Flat(r.value), 0, ops, r.value, []);
      a := Inside(Some(inner));
  }

  lemma {:induction false} TakeAhead(s: seq<byte>, at: nat, n: nat)
    requires at <= |s|
    ensures at + n <= |s| ==> s[at..][..n] == s[at..at + n]
  {
  }

  lemma {:induction false} NoRange(s: seq<byte>, at: nat, parts: Parts)
    requires at <= |s|
    ensures Flat([]) == [] == s[at..at] && Touched(parts, at, at) == 0
  {
    NothingTouched(parts, at);
  }

  lemma {:induction false} NothingTouched(parts: Parts, at: int)
    ensures Touched(parts, at, at) == 0
  {
    if |parts| > 0 {
      NothingTouched(parts[1..], at - |parts[0]|);
    }
  }

  /** The segmented cursor refines the plain one: any program of reads over any split, empty parts included, is
      answered as the concatenation answers it, down through nested subranges. */
  method Follow(parts: Parts, ops: seq<Op>) returns (answers: seq<Answer>)
    ensures answers == Answers(Flat(parts), 0, ops, parts)
    decreases ops
  {
    hide Flat, AnswerTo, MovesTo, Valid;
    ghost var s := Flat(parts);
    var c := Start(parts);
    answers := [];
    assert ops[0..] == ops;
    ghost var goal := Answers(s, 0, ops, parts);
    assert [] + goal == goal;
    for i := 0 to |ops|
      invariant Valid(c) && c.parts == parts && c.abs <= |s|
      invariant goal == answers + Answers(s, c.abs, ops[i..], parts)
    {
      assert ops[i..][0] == ops[i] && ops[i..][1..] == ops[i + 1..];
      var a, o := Ask(c, ops[i]);
      assert answers + ([a] + Answers(s, o.abs, ops[i + 1..], parts)) ==
             (answers + [a]) + Answers(s, o.abs, ops[i + 1..], parts);
      answers, c := answers + [a], o;
    }
  }

  /** Asks whether the subrange [a, b) is let through. */
  ghost function Probing(a: nat, b: nat): (ops: seq<Op>)
    requires a <= b
  {
    [Skip(a), Within(b - a, [])]
  }

  lemma {:induction false} ProbingTells(s: seq<byte>, a: nat, b: nat, split: Parts)
    requires a <= b <= |s|
    ensures Answers(s, 0, Probing(a, b), split)[1] == Inside(if Touched(split, a, b) <= MAX_PARTS then Some([]) else None)
  {
    hide Touched;
    var ops := Probing(a, b);
    assert ops[1..] == [ops[1]];
    assert Answers(s, a, ops[1..], split)[0] == AnswerTo(s, a, ops[1], split);
  }

  /** How the bytes are split does not show: two splits of one string answer every program of reads alike exactly
      when they let through the same subranges; with at most MAX_PARTS non-empty parts each, they do. */
  lemma {:induction false} SplitDoesNotShow(parts: Parts, parts': Parts)
    requires Flat(parts) == Flat(parts')
    ensures (forall ops :: Answers(Flat(parts), 0, ops, parts) == Answers(Flat(parts'), 0, ops, parts')) <==>
            SameRanges(|Flat(parts)|, parts, parts')
    ensures Filled(parts) <= MAX_PARTS && Filled(parts') <= MAX_PARTS ==> SameRanges(|Flat(parts)|, parts, parts')
  {
    hide Flat, Touched, Filled, Answers;
    var s := Flat(parts);
    if SameRanges(|s|, parts, parts') {
      forall ops ensures Answers(s, 0, ops, parts) == Answers(s, 0, ops, parts') {
        SameAnswers(s, 0, ops, parts, parts');
      }
    } else {
      var a: nat, b: nat :| a <= b <= |s| && !(Touched(parts, a, b) <= MAX_PARTS <==> Touched(parts', a, b) <= MAX_PARTS);
      ProbingTells(s, a, b, parts);
      ProbingTells(s, a, b, parts');
      assert Answers(s, 0, Probing(a, b), parts) != Answers(s, 0, Probing(a, b), parts');
    }
    if Filled(parts) <= MAX_PARTS && Filled(parts') <= MAX_PARTS {
      FewParts(|s|, parts, parts');
    }
  }
}
