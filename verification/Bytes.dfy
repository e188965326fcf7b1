/** Bytes, powers of two and little-endian numbers: the arithmetic every codec rests on. */
module Bytes {

  type byte = b: int | 0 <= b < 256

  datatype Option<+T> = None | Some(value: T)

  const SIZE_MAX := 0xFFFF_FFFF_FFFF_FFFF

  /** Unsigned 64-bit subtraction: wraps below zero. */
  function Sub64(a: nat, b: nat): (r: nat)
    requires a <= SIZE_MAX && b <= SIZE_MAX
  {
    if a >= b then a - b else a + SIZE_MAX + 1 - b
  }

  function Min(a: nat, b: nat): nat {
    if a <= b then a else b
  }

  function Max(a: nat, b: nat): nat {
    if a >= b then a else b
  }

  /** A slice that is a concatenation splits into its parts. */
  lemma {:induction false} SliceConcat<T>(s: seq<T>, a: nat, x: seq<T>, y: seq<T>)
    requires a + |x| + |y| <= |s| && s[a..a + |x| + |y|] == x + y
    ensures s[a..a + |x|] == x && s[a + |x|..a + |x| + |y|] == y
  {
    assert s[a..a + |x|] == s[a..a + |x| + |y|][..|x|];
    assert s[a + |x|..a + |x| + |y|] == s[a..a + |x| + |y|][|x|..];
  }

  /** s carries x at position p. */
  predicate At(s: seq<byte>, p: nat, x: seq<byte>) {
    p + |x| <= |s| && s[p..p + |x|] == x
  }

  lemma {:induction false} AtSlice(s: seq<byte>, p: nat, x: seq<byte>)
    requires At(s, p, x)
    ensures p + |x| <= |s| && s[p..p + |x|] == x
  {
  }

  lemma {:induction false} AtConcat(s: seq<byte>, p: nat, x: seq<byte>, y: seq<byte>)
    ensures At(s, p, x + y) <==> At(s, p, x) && At(s, p + |x|, y)
  {
    if At(s, p, x + y) {
      SliceConcat(s, p, x, y);
    }
    if At(s, p, x) && At(s, p + |x|, y) {
      assert s[p..p + |x + y|] == s[p..p + |x|] + s[p + |x|..p + |x| + |y|];
    }
  }

  // ------------------------------------------------------------------
  // Pieces back to back
  // ------------------------------------------------------------------

  /** The bytes the pieces spell, empty ones included. */
  function Flat(parts: seq<seq<byte>>): (s: seq<byte>) {
    if |parts| == 0 then [] else parts[0] + Flat(parts[1..])
  }

  lemma {:induction false} FlatAppend(parts: seq<seq<byte>>, p: seq<byte>)
    ensures Flat(parts + [p]) == Flat(parts) + p
  {
    if |parts| == 0 {
      assert parts + [p] == [p];
      assert Flat([p]) == p + Flat([]) == p;
    } else {
      FlatAppend(parts[1..], p);
      assert (parts + [p])[1..] == parts[1..] + [p];
    }
  }

  lemma {:induction false} FlatFrom(parts: seq<seq<byte>>, i: nat)
    requires i < |parts|
    ensures Flat(parts[i..]) == parts[i] + Flat(parts[i + 1..])
  {
    assert parts[i..][1..] == parts[i + 1..];
  }

  // ------------------------------------------------------------------
  // Powers of two
  // ------------------------------------------------------------------

  function Pow2(n: nat): (r: nat)
    ensures r >= 1
  {
    if n == 0 then 1 else 2 * Pow2(n - 1)
  }

  lemma {:induction false} Pow2Add(a: nat, b: nat)
    ensures Pow2(a + b) == Pow2(a) * Pow2(b)
  {
    if a == 0 {
    } else {
      Pow2Add(a - 1, b);
      assert Pow2(a + b) == 2 * Pow2(a - 1 + b);
      MulAssoc(2, Pow2(a - 1), Pow2(b));
    }
  }

  lemma {:induction false} Pow2Monotone(a: nat, b: nat)
    requires a <= b
    ensures Pow2(a) <= Pow2(b)
  {
    if a < b {
      Pow2Monotone(a, b - 1);
    }
  }

  /** std::bit_width. */
  function BitLen(n: nat): (k: nat) {
    if n == 0 then 0 else 1 + BitLen(n / 2)
  }

  lemma {:induction false} BitLenIsLeast(n: nat, k: nat)
    ensures BitLen(n) <= k <==> n < Pow2(k)
  {
    if n > 0 && k > 0 {
      BitLenIsLeast(n / 2, k - 1);
    }
  }

  lemma {:induction false} Pow2Values()
    ensures Pow2(7) == 128 && Pow2(8) == 256 && Pow2(16) == 0x1_0000 && Pow2(32) == 0x1_0000_0000
    ensures Pow2(64) == 0x1_0000_0000_0000_0000
  {
    assert Pow2(4) == 16;
    Pow2Add(4, 3);
    assert Pow2(3) == 8;
    Pow2Add(4, 4);
    Pow2Add(8, 8);
    Pow2Add(16, 16);
    Pow2Add(32, 32);
  }

  /** x << k, as repeated doubling (so that proofs about it stay linear). */
  function Shl(x: nat, k: nat): (r: nat)
  {
    if k == 0 then x else 2 * Shl(x, k - 1)
  }

  lemma {:induction false} ShlIsMul(x: nat, k: nat)
    ensures Shl(x, k) == x * Pow2(k)
  {
    if k > 0 {
      ShlIsMul(x, k - 1);
      assert x * Pow2(k) == 2 * (x * Pow2(k - 1));
    }
  }

  lemma {:induction false} ShlAdd(x: nat, y: nat, k: nat)
    ensures Shl(x + y, k) == Shl(x, k) + Shl(y, k)
  {
    if k > 0 {
      ShlAdd(x, y, k - 1);
    }
  }

  lemma {:induction false} ShlShl(x: nat, a: nat, b: nat)
    ensures Shl(Shl(x, a), b) == Shl(x, a + b)
  {
    if b > 0 {
      ShlShl(x, a, b - 1);
    }
  }

  // ------------------------------------------------------------------
  // Multiplication and division facts the solver needs spelled out
  // ------------------------------------------------------------------

  /** n >> k. */
  function Shr(n: nat, k: nat): (r: nat) {
    Quotient(n, Pow2(k))
  }

  function Quotient(n: nat, d: nat): (r: nat)
    requires d > 0
  {
    n / d
  }

  lemma {:induction false} MulAssoc(a: int, b: int, c: int)
    ensures a * b * c == a * (b * c)
  {
  }

  lemma {:induction false} MulMono(a: nat, b: nat, c: nat)
    requires a <= b
    ensures a * c <= b * c
  {
  }

  lemma {:induction false} DivModUnique(n: int, d: int, q: int, r: int)
    requires d > 0 && 0 <= r < d && n == q * d + r
    ensures n / d == q && n % d == r
  {
    if n / d < q {
      MulMonoInt(n / d + 1, q, d);
    } else if n / d > q {
      MulMonoInt(q + 1, n / d, d);
    }
  }

  lemma {:induction false} MulMonoInt(a: int, b: int, c: int)
    requires a <= b && c >= 0
    ensures a * c <= b * c
  {
  }

  /** (n / a) / b == n / (a * b) */
  lemma {:induction false} DivDiv(n: nat, a: nat, b: nat)
    requires a > 0 && b > 0
    ensures a * b > 0 && (n / a) / b == n / (a * b)
  {
    var q := (n / a) / b;
    var r1 := n % a;
    var r2 := (n / a) % b;
    assert n == (q * b + r2) * a + r1;
    assert (q * b + r2) * a + r1 == q * (a * b) + (r2 * a + r1);
    MulMonoInt(r2, b - 1, a);
    assert r2 * a + r1 < a * b;
    assert a * b > 0;
    DivModUnique(n, a * b, q, r2 * a + r1);
  }

  /** Taking a remainder by a * b first does not disturb the quotient by a taken modulo b. */
  lemma {:induction false} ModDiv(n: nat, a: nat, b: nat)
    requires a > 0 && b > 0
    ensures a * b > 0 && (n % (a * b)) / a == (n / a) % b
  {
    DivDiv(n, a, b);
    var q := n / (a * b);
    var m := n % (a * b);
    assert n == q * (a * b) + m;
    var k := (n / a) % b;
    assert n / a == q * b + k;
    assert n == (q * b + k) * a + n % a;
    assert (q * b + k) * a == q * (a * b) + k * a;
    assert m == k * a + n % a;
    DivModUnique(m, a, k, n % a);
  }

  /** A remainder modulo a multiple keeps the remainder modulo the factor. */
  lemma {:induction false} ModMod(n: nat, a: nat, b: nat)
    requires a > 0 && b > 0
    ensures a * b > 0 && (n % (a * b)) % a == n % a
  {
    ModDiv(n, a, b);
    var m := n % (a * b);
    var q := n / (a * b);
    assert n == q * (a * b) + m;
    assert q * (a * b) == (q * b) * a;
    assert m == (m / a) * a + m % a;
    assert n == (q * b + m / a) * a + m % a;
    DivModUnique(n, a, q * b + m / a, m % a);
  }

  // ------------------------------------------------------------------
  // Little-endian numbers
  // ------------------------------------------------------------------

  /** The number a byte string spells with its least significant byte first. */
  function LeNat(s: seq<byte>): (n: nat)
  {
    if |s| == 0 then 0 else s[0] + 256 * LeNat(s[1..])
  }

  /** The n low bytes of v, least significant first. */
  function LeBytes(v: nat, n: nat): (s: seq<byte>)
    ensures |s| == n
  {
    if n == 0 then [] else [v % 256] + LeBytes(v / 256, n - 1)
  }

  lemma {:induction false} LeNatBound(s: seq<byte>)
    ensures LeNat(s) < Pow2(8 * |s|)
  {
    if |s| == 0 {
    } else {
      LeNatBound(s[1..]);
      Pow2Values();
      Pow2Add(8, 8 * (|s| - 1));
    }
  }

  lemma {:induction false} LeNatConcat(s: seq<byte>, t: seq<byte>)
    ensures LeNat(s + t) == LeNat(s) + Pow2(8 * |s|) * LeNat(t)
  {
    if |s| == 0 {
      assert s + t == t;
    } else {
      assert (s + t)[1..] == s[1..] + t;
      LeNatConcat(s[1..], t);
      Pow2Values();
      Pow2Add(8, 8 * (|s| - 1));
      MulAssoc(256, Pow2(8 * (|s| - 1)), LeNat(t));
    }
  }

  lemma {:induction false} LeNatDrop(s: seq<byte>, a: nat)
    requires a <= |s|
    ensures LeNat(s[a..]) == LeNat(s) / Pow2(8 * a)
    ensures LeNat(s[..a]) == LeNat(s) % Pow2(8 * a)
  {
    LeNatConcat(s[..a], s[a..]);
    LeNatBound(s[..a]);
    assert s[..a] + s[a..] == s;
    ConcatDivMod(LeNat(s), Pow2(8 * a), LeNat(s[a..]), LeNat(s[..a]));
  }

  lemma {:induction false} ConcatDivMod(n: nat, p: nat, hi: nat, lo: nat)
    requires lo < p && n == lo + p * hi
    ensures n / p == hi && n % p == lo
  {
    DivModUnique(n, p, hi, lo);
  }

  /** A slice of the bytes is a slice of the number. */
  lemma {:induction false} LeNatSlice(s: seq<byte>, a: nat, b: nat)
    requires a <= b <= |s|
    ensures LeNat(s[a..b]) == (LeNat(s) / Pow2(8 * a)) % Pow2(8 * (b - a))
  {
    LeNatDrop(s, a);
    LeNatDrop(s[a..], b - a);
    assert s[a..][..b - a] == s[a..b];
  }

  lemma {:induction false} LeNatLeBytes(v: nat, n: nat)
    requires v < Pow2(8 * n)
    ensures LeNat(LeBytes(v, n)) == v
  {
    if n == 0 {
    } else {
      Pow2Values();
      Pow2Add(8, 8 * (n - 1));
      LeNatLeBytes(v / 256, n - 1);
      assert LeBytes(v, n)[1..] == LeBytes(v / 256, n - 1);
    }
  }

  lemma {:induction false} LeBytesLeNat(s: seq<byte>)
    ensures LeBytes(LeNat(s), |s|) == s
  {
    if |s| == 0 {
    } else {
      var rest := LeNat(s[1..]);
      assert LeNat(s) == s[0] + 256 * rest;
      DivModUnique(LeNat(s), 256, rest, s[0]);
      assert LeBytes(LeNat(s), |s|) == [s[0]] + LeBytes(rest, |s| - 1);
      LeBytesLeNat(s[1..]);
      assert s == [s[0]] + s[1..];
    }
  }

  /** Equal-length byte strings with equal numbers are equal. */
  lemma {:induction false} LeNatInjective(s: seq<byte>, t: seq<byte>)
    requires |s| == |t| && LeNat(s) == LeNat(t)
    ensures s == t
  {
    LeBytesLeNat(s);
    LeBytesLeNat(t);
  }

  /** Zeros at the top do not count. */
  lemma {:induction false} LeNatZeros(s: seq<byte>, k: nat)
    ensures LeNat(s + seq(k, i => 0)) == LeNat(s)
  {
    LeNatConcat(s, seq(k, i => 0));
    ZerosNat(k);
  }

  lemma {:induction false} ZerosNat(k: nat)
    ensures LeNat(seq(k, i => 0)) == 0
  {
    if k > 0 {
      assert seq(k, i => 0)[1..] == seq(k - 1, i => 0);
      ZerosNat(k - 1);
    }
  }

  /** The number a byte string spells with its most significant byte first. */
  function BeNat(s: seq<byte>): (n: nat) {
    if |s| == 0 then 0 else 256 * BeNat(s[..|s| - 1]) + s[|s| - 1]
  }

  function BeBytes(v: nat, n: nat): (s: seq<byte>)
    ensures |s| == n
  {
    if n == 0 then [] else BeBytes(v / 256, n - 1) + [v % 256]
  }

  lemma {:induction false} BeNatBeBytes(v: nat, n: nat)
    requires v < Pow2(8 * n)
    ensures BeNat(BeBytes(v, n)) == v
  {
    if n > 0 {
      Pow2Values();
      Pow2Add(8, 8 * (n - 1));
      BeNatBeBytes(v / 256, n - 1);
      assert BeBytes(v, n)[..n - 1] == BeBytes(v / 256, n - 1);
    }
  }

  lemma {:induction false} BeBytesBeNat(s: seq<byte>)
    ensures BeBytes(BeNat(s), |s|) == s
  {
    if |s| > 0 {
      var rest := BeNat(s[..|s| - 1]);
      DivModUnique(BeNat(s), 256, rest, s[|s| - 1]);
      BeBytesBeNat(s[..|s| - 1]);
      assert s == s[..|s| - 1] + [s[|s| - 1]];
    }
  }

  lemma {:induction false} BeNatBound(s: seq<byte>)
    ensures BeNat(s) < Pow2(8 * |s|)
  {
    if |s| > 0 {
      BeNatBound(s[..|s| - 1]);
      Pow2Values();
      Pow2Add(8, 8 * (|s| - 1));
    }
  }
}
