/** Powers, remainders and the bitwise operators on natural numbers. */
module Bits {

  function Pow(b: nat, e: nat): nat {
    if e == 0 then 1 else b * Pow(b, e - 1)
  }

  lemma {:induction false} PowPositive(b: nat, e: nat)
    requires 0 < b
    ensures 0 < Pow(b, e)
  {
    if e != 0 {
      PowPositive(b, e - 1);
      assert 0 < b * Pow(b, e - 1);
    }
  }

  lemma {:induction false} PowSplits(b: nat, j: nat, k: nat)
    ensures Pow(b, j + k) == Pow(b, j) * Pow(b, k)
  {
    if j != 0 {
      PowSplits(b, j - 1, k);
      assert b * (Pow(b, j - 1) * Pow(b, k)) == b * Pow(b, j - 1) * Pow(b, k);
    }
  }

  /** Bitwise exclusive or. */
  function Xor(a: nat, b: nat): nat {
    if a == 0 && b == 0 then 0 else (a + b) % 2 + 2 * Xor(a / 2, b / 2)
  }

  /** Bitwise and. */
  function And(a: nat, b: nat): nat {
    if a == 0 || b == 0 then 0 else (a % 2) * (b % 2) + 2 * And(a / 2, b / 2)
  }

  lemma {:induction false} XorBelow(k: nat)
    ensures 0 < Pow(2, k) && Xor(Pow(2, k), Pow(2, k) - 1) == Pow(2, k + 1) - 1
  {
    if k == 0 {
      assert Xor(0, 0) == 0 && Pow(2, 0) == 1;
      assert Xor(1, 0) == 1;
    } else {
      XorBelow(k - 1);
      var x := Pow(2, k);
      assert x == 2 * Pow(2, k - 1);
      assert x / 2 == Pow(2, k - 1) && (x - 1) / 2 == Pow(2, k - 1) - 1 && (x + (x - 1)) % 2 == 1;
    }
  }

  /** The mask keeps the low bits. */
  lemma {:induction false} MaskKeepsLowBits(a: nat, bits: nat)
    ensures 0 < Pow(2, bits) && And(a, Pow(2, bits) - 1) == a % Pow(2, bits)
  {
    if bits != 0 {
      MaskKeepsLowBits(a / 2, bits - 1);
      var m := Pow(2, bits - 1);
      assert Pow(2, bits) == 2 * m;
      HalfMod(a, m);
      assert (2 * m - 1) % 2 == 1 && (2 * m - 1) / 2 == m - 1;
      if a == 0 {
        assert 0 % (2 * m) == 0;
      } else if bits == 1 {
        assert And(a / 2, 0) == 0;
      }
    }
  }

  lemma HalfMod(a: nat, m: nat)
    requires 0 < m
    ensures a % (2 * m) == a % 2 + 2 * (a / 2 % m)
  {
    var q := a / 2 / m;
    assert a / 2 == m * q + a / 2 % m;
    assert a == 2 * (a / 2) + a % 2;
    assert a == (2 * m) * q + (a % 2 + 2 * (a / 2 % m)) by {
      assert 2 * (m * q) == (2 * m) * q;
    }
    ModIs(a, 2 * m, q, a % 2 + 2 * (a / 2 % m));
  }

  /** Quotient and remainder are unique. */
  lemma ModIs(x: int, m: int, q: int, r: int)
    requires 0 <= r < m && x == m * q + r
    ensures x % m == r
  {
    var d := x / m - q;
    Distribute(m, q, d);
    MultipleIsLarge(m, d);
  }

  lemma Distribute(m: int, q: int, d: int)
    ensures m * (q + d) == m * q + m * d
  {
  }

  lemma MultipleIsLarge(m: int, d: int)
    requires 0 <= m
    ensures 0 < d ==> m <= m * d
    ensures d < 0 ==> m * d <= -m
  {
    if 0 < d {
      Distribute(m, 1, d - 1);
    } else if d < 0 {
      Distribute(m, -1, d + 1);
    }
  }

  lemma QuotientIs(x: int, m: int, q: int, r: int)
    requires 0 <= r < m && x == m * q + r
    ensures x / m == q
  {
    ModIs(x, m, q, r);
    assert m * (x / m) == m * q;
    Distribute(m, q, x / m - q);
    MultipleIsLarge(m, x / m - q);
  }

  lemma ModPlus(x: int, m: int, k: int)
    requires 0 < m
    ensures (x + m * k) % m == x % m
  {
    assert x == m * (x / m) + x % m;
    assert x + m * k == m * (x / m + k) + x % m by {
      assert m * (x / m + k) == m * (x / m) + m * k;
    }
    ModIs(x + m * k, m, x / m + k, x % m);
  }

  lemma ModOfMultiple(x: int, n: int, m: int, r: int)
    requires 0 < m && 0 < n == m * r
    ensures (x % n) % m == x % m
  {
    var q := x / n;
    assert x == n * q + x % n;
    Reassociate(m, r, q);
    ModPlus(x % n, m, r * q);
  }

  lemma Reassociate(m: int, r: int, q: int)
    ensures (m * r) * q == m * (r * q)
  {
  }

  lemma {:induction false} AndSame(n: nat)
    ensures And(n, n) == n
  {
    if n != 0 {
      AndSame(n / 2);
    }
  }

  lemma OddSharesBits(n: nat)
    requires 1 < n
    ensures n % 2 == 1 ==> And(n, n - 1) != 0
  {
    AndSame(n / 2);
    assert n % 2 == 1 ==> (n - 1) / 2 == n / 2;
  }

  /** Only a power of two has no bit in common with the number before it. */
  lemma {:induction false} PowerOfTwo(n: nat) returns (k: nat)
    requires 0 < n && And(n, n - 1) == 0
    ensures n == Pow(2, k)
  {
    if n == 1 {
      k := 0;
    } else {
      OddSharesBits(n);
      assert (n - 1) / 2 == n / 2 - 1;
      k := PowerOfTwo(n / 2);
      k := k + 1;
    }
  }

  /** The bits of one less than a power of two. */
  lemma {:induction false} BitOfMask(k: nat, s: nat)
    ensures 0 < Pow(2, k) && (And(Pow(2, k) - 1, Pow(2, s)) != 0 <==> s < k)
  {
    PowPositive(2, k);
    PowPositive(2, s);
    if k != 0 {
      var m := Pow(2, k) - 1;
      PowPositive(2, k - 1);
      assert m % 2 == 1 && m / 2 == Pow(2, k - 1) - 1;
      if s != 0 {
        BitOfMask(k - 1, s - 1);
        assert Pow(2, s) % 2 == 0 && Pow(2, s) / 2 == Pow(2, s - 1);
      } else {
        assert Pow(2, 0) == 1;
      }
    }
  }
}
