/** Bits of natural numbers and the bitwise operators. */
module BitOps {
  import opened Bytes

  /** Bit k of n. */
  predicate BitOf(n: nat, k: nat) {
    if k == 0 then n % 2 == 1 else BitOf(n / 2, k - 1)
  }

  function And(a: nat, b: nat): (r: nat)
    decreases a + b
  {
    if a == 0 || b == 0 then 0
    else (if a % 2 == 1 && b % 2 == 1 then 1 else 0) + 2 * And(a / 2, b / 2)
  }

  function Or(a: nat, b: nat): (r: nat)
    decreases a + b
  {
    if a == 0 && b == 0 then 0
    else (if a % 2 == 1 || b % 2 == 1 then 1 else 0) + 2 * Or(a / 2, b / 2)
  }

  function Xor(a: nat, b: nat): (r: nat)
    decreases a + b
  {
    if a == 0 && b == 0 then 0
    else (if a % 2 != b % 2 then 1 else 0) + 2 * Xor(a / 2, b / 2)
  }

  lemma {:induction false} BitOfZero(k: nat)
    ensures !BitOf(0, k)
  {
    if k > 0 {
      BitOfZero(k - 1);
    }
  }

  lemma {:induction false} AndBit(a: nat, b: nat, k: nat)
    ensures BitOf(And(a, b), k) <==> BitOf(a, k) && BitOf(b, k)
    decreases k
  {
    if a == 0 || b == 0 {
      BitOfZero(k);
    } else if k > 0 {
      AndBit(a / 2, b / 2, k - 1);
    }
  }

  lemma {:induction false} OrBit(a: nat, b: nat, k: nat)
    ensures BitOf(Or(a, b), k) <==> BitOf(a, k) || BitOf(b, k)
    decreases k
  {
    if a == 0 && b == 0 {
      BitOfZero(k);
    } else if k > 0 {
      OrBit(a / 2, b / 2, k - 1);
    }
  }

  lemma {:induction false} LowStep(x: nat, m: nat)
    requires m > 0
    ensures x % (2 * m) == x % 2 + 2 * ((x / 2) % m)
  {
    var q := (x / 2) / m;
    assert x / 2 == q * m + (x / 2) % m;
    assert x == 2 * (x / 2) + x % 2;
    assert q * (2 * m) == 2 * (q * m);
    DivModUnique(x, 2 * m, q, x % 2 + 2 * ((x / 2) % m));
  }

  /** The bits of n >> s. */
  lemma {:induction false} ShrBit(n: nat, s: nat, k: nat)
    ensures BitOf(Shr(n, s), k) <==> BitOf(n, k + s)
    decreases s
  {
    if s > 0 {
      ShrHalf(n, s);
      ShrBit(n / 2, s - 1, k);
      assert BitOf(n, k + s) == BitOf(n / 2, k + s - 1);
    }
  }

  lemma {:induction false} ShrHalf(n: nat, s: nat)
    requires s > 0
    ensures Shr(n, s) == Shr(n / 2, s - 1)
  {
    DivDiv(n, 2, Pow2(s - 1));
  }

  /** The bits of n << s. */
  lemma {:induction false} ShlBit(n: nat, s: nat, k: nat)
    ensures BitOf(n * Pow2(s), k) <==> k >= s && BitOf(n, k - s)
    decreases s
  {
    if s > 0 {
      MulAssoc(n, 2, Pow2(s - 1));
      assert n * Pow2(s) == 2 * (n * Pow2(s - 1));
      if k > 0 {
        ShlBit(n, s - 1, k - 1);
      }
    }
  }

  /** The bits of the low m bits of n. */
  lemma {:induction false} LowBit(n: nat, m: nat, k: nat)
    ensures BitOf(n % Pow2(m), k) <==> k < m && BitOf(n, k)
    decreases m
  {
    hide BitOf;
    if m == 0 {
      BitOfZero(k);
    } else {
      LowStep(n, Pow2(m - 1));
      BitCons(n % 2, (n / 2) % Pow2(m - 1), k);
      BitCons(n % 2, n / 2, k);
      if k > 0 {
        LowBit(n / 2, m - 1, k - 1);
      }
    }
  }

  lemma {:induction false} BitCons(b: nat, rest: nat, k: nat)
    requires b < 2
    ensures BitOf(b + 2 * rest, k) <==> if k == 0 then b == 1 else BitOf(rest, k - 1)
  {
    assert (b + 2 * rest) / 2 == rest;
  }

  /** A number below 2^m has no bit from m on. */
  lemma {:induction false} HighBit(n: nat, m: nat, k: nat)
    requires n < Pow2(m) && k >= m
    ensures !BitOf(n, k)
    decreases m
  {
    if m == 0 {
      BitOfZero(k);
    } else {
      HighBit(n / 2, m - 1, k - 1);
    }
  }

  /** Numbers are their bits. */
  lemma {:induction false} BitExt(a: nat, b: nat)
    requires forall k: nat :: BitOf(a, k) == BitOf(b, k)
    ensures a == b
    decreases a + b
  {
    if a > 0 || b > 0 {
      assert BitOf(a, 0) == BitOf(b, 0);
      forall k: nat ensures BitOf(a / 2, k) == BitOf(b / 2, k) {
        assert BitOf(a, k + 1) == BitOf(b, k + 1);
      }
      BitExt(a / 2, b / 2);
    }
  }

  /** Two numbers below 2^m that agree on m bits are equal. */
  lemma {:induction false} BitExtBelow(a: nat, b: nat, m: nat)
    requires a < Pow2(m) && b < Pow2(m) && forall k :: 0 <= k < m ==> BitOf(a, k) == BitOf(b, k)
    ensures a == b
  {
    forall k: nat ensures BitOf(a, k) == BitOf(b, k) {
      if k >= m {
        HighBit(a, m, k);
        HighBit(b, m, k);
      }
    }
    BitExt(a, b);
  }

  /** 2^m - 1 has exactly its low m bits. */
  lemma {:induction false} OnesBit(m: nat, k: nat)
    ensures BitOf(Pow2(m) - 1, k) <==> k < m
    decreases m
  {
    if m == 0 {
      BitOfZero(k);
    } else if k > 0 {
      OnesBit(m - 1, k - 1);
    }
  }

  /** h & (2^k - 1) is the remainder by 2^k. */
  lemma {:induction false} MaskIsRemainder(h: nat, k: nat)
    ensures And(h, Pow2(k) - 1) == h % Pow2(k)
  {
    hide And, BitOf, Pow2;
    forall j: nat ensures BitOf(And(h, Pow2(k) - 1), j) == BitOf(h % Pow2(k), j) {
      AndBit(h, Pow2(k) - 1, j);
      OnesBit(k, j);
      LowBit(h, k, j);
    }
    BitExt(And(h, Pow2(k) - 1), h % Pow2(k));
  }
}
