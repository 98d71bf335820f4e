/** Unsigned 128-bit words as bitmaps: the source's `&`, `|`, `<<` and `count_ones`,
 *  defined on the binary digits of a number, and how each reads digit by digit.
 */
module Bitmaps {
  import opened Words

  const U128_MAX: u128 := U128_LIMIT - 1

  /** Binary digit `d` of `x`, the least significant one being digit 0. */
  predicate Bit(x: nat, d: nat) {
    if d == 0 then x % 2 == 1 else Bit(x / 2, d - 1)
  }

  function And(x: nat, y: nat): (z: nat)
    ensures z <= x
  {
    if x == 0 then 0 else 2 * And(x / 2, y / 2) + (if x % 2 == 1 && y % 2 == 1 then 1 else 0)
  }

  function Or(x: nat, y: nat): (z: nat)
    ensures z <= x + y
  {
    if x == 0 then y else 2 * Or(x / 2, y / 2) + (if x % 2 == 1 || y % 2 == 1 then 1 else 0)
  }

  /** One left shift on 128 bits: the digit that no longer fits is dropped. */
  function Double(x: u128): (z: u128)
    ensures z == if x < U128_LIMIT / 2 then 2 * x else 2 * x - U128_LIMIT
  {
    2 * x % U128_LIMIT
  }

  /** `x << s` on 128 bits. */
  function Shl(x: u128, s: nat): (z: u128) {
    if s == 0 then x else Double(Shl(x, s - 1))
  }

  /** `count_ones`, over the `n` low digits. */
  function CountOnes(x: nat, n: nat): (c: nat)
    ensures c <= n
  {
    if n == 0 then 0 else CountOnes(x, n - 1) + (if Bit(x, n - 1) then 1 else 0)
  }

  lemma {:induction false} Pow2Grows(m: nat, n: nat)
    requires m <= n
    ensures Pow2(m) <= Pow2(n)
    ensures m < n ==> Pow2(m) < Pow2(n)
    decreases n
  {
    if m < n {
      Pow2Grows(m, n - 1);
    }
  }

  lemma {:induction false} Pow2OfBytes(width: nat)
    ensures Pow2(8 * width) == Pow256(width)
  {
    if width > 0 {
      Pow2OfBytes(width - 1);
      var n := 8 * width;
      assert Pow2(n) == 4 * Pow2(n - 2) && Pow2(n - 2) == 4 * Pow2(n - 4);
      assert Pow2(n - 4) == 4 * Pow2(n - 6) && Pow2(n - 6) == 4 * Pow2(n - 8);
    }
  }

  lemma Pow2Of128()
    ensures Pow2(128) == U128_LIMIT && Pow2(127) == U128_LIMIT / 2
  {
    Pow2OfBytes(16);
    WordLimits();
  }

  lemma {:induction false} BitOfZero(d: nat)
    ensures !Bit(0, d)
  {
    if d > 0 {
      BitOfZero(d - 1);
    }
  }

  lemma {:induction false} BitOfAnd(x: nat, y: nat, d: nat)
    ensures Bit(And(x, y), d) <==> Bit(x, d) && Bit(y, d)
  {
    if x == 0 {
      BitOfZero(d);
    } else if d > 0 {
      BitOfAnd(x / 2, y / 2, d - 1);
    }
  }

  lemma {:induction false} BitOfOr(x: nat, y: nat, d: nat)
    ensures Bit(Or(x, y), d) <==> Bit(x, d) || Bit(y, d)
  {
    if x == 0 {
      BitOfZero(d);
    } else if d > 0 {
      BitOfOr(x / 2, y / 2, d - 1);
    }
  }

  /** `|` stays within the word. */
  lemma {:induction false} OrFits(x: nat, y: nat, n: nat)
    requires x < Pow2(n) && y < Pow2(n)
    ensures Or(x, y) < Pow2(n)
  {
    if x > 0 && n > 0 {
      OrFits(x / 2, y / 2, n - 1);
    }
  }

  lemma OrFits128(x: u128, y: u128)
    ensures Or(x, y) < U128_LIMIT
  {
    Pow2Of128();
    OrFits(x, y, 128);
  }

  /** Dropping high digits keeps the low ones. */
  lemma {:induction false} BitOfMod(x: nat, n: nat, d: nat)
    requires d < n
    ensures Bit(x % Pow2(n), d) <==> Bit(x, d)
  {
    var p := Pow2(n - 1);
    var q, r := x / 2, x % 2;
    assert x % (2 * p) == 2 * (q % p) + r by {
      assert q == p * (q / p) + q % p;
      ModUnique(x, 2 * p, q / p, 2 * (q % p) + r);
    }
    if d > 0 {
      BitOfMod(q, n - 1, d - 1);
    }
  }

  lemma ModUnique(x: nat, m: nat, k: nat, r: nat)
    requires 0 < m && r < m && x == m * k + r
    ensures x % m == r
  {
    var k' := x / m;
    assert x == m * k' + x % m;
    if k > k' {
      MultiplesApart(m, k', k);
    } else if k < k' {
      MultiplesApart(m, k, k');
    }
  }

  lemma {:induction false} MultiplesApart(m: nat, a: nat, b: nat)
    requires a < b
    ensures m * a + m <= m * b
    decreases b
  {
    if a + 1 < b {
      MultiplesApart(m, a, b - 1);
    }
    assert m * b == m * (b - 1) + m;
  }

  /** Digit d of a shifted word is digit d - s; the s low digits are zero. */
  lemma {:induction false} BitOfShl(x: u128, s: nat, d: nat)
    requires d < 128
    ensures Bit(Shl(x, s), d) <==> s <= d && Bit(x, d - s)
  {
    if s > 0 && d > 0 {
      var y := Shl(x, s - 1);
      BitOfShl(x, s - 1, d - 1);
      Pow2Of128();
      BitOfMod(y, 127, d - 1);
      DoubleHalves(y);
    } else if s > 0 {
      DoubleHalves(Shl(x, s - 1));
    }
  }

  lemma DoubleHalves(y: u128)
    ensures Double(y) / 2 == y % (U128_LIMIT / 2) && Double(y) % 2 == 0
  {
    if y < U128_LIMIT / 2 {
      ModUnique(y, U128_LIMIT / 2, 0, y);
    } else {
      ModUnique(y, U128_LIMIT / 2, 1, y - U128_LIMIT / 2);
    }
  }

  lemma {:induction false} OneShl(s: nat)
    requires s < 128
    ensures Shl(1, s) == Pow2(s)
  {
    Pow2Of128();
    Pow2Grows(s, 127);
    if s > 0 {
      OneShl(s - 1);
    }
  }

  lemma {:induction false} AndPow2(x: nat, d: nat)
    ensures And(x, Pow2(d)) != 0 <==> Bit(x, d)
  {
    if x == 0 {
      BitOfZero(d);
    } else if d > 0 {
      AndPow2(x / 2, d - 1);
    } else {
      AndZero(x / 2);
    }
  }

  lemma {:induction false} AndZero(x: nat)
    ensures And(x, 0) == 0
  {
    if x != 0 {
      AndZero(x / 2);
    }
  }

  /** The source's test `bitmap & (1 << d) != 0` reads digit d. */
  lemma BitOfTest(x: u128, d: nat)
    requires d < 128
    ensures And(x, Shl(1, d)) != 0 <==> Bit(x, d)
  {
    OneShl(d);
    AndPow2(x, d);
  }

  lemma {:induction false} BitOfPow2(e: nat, d: nat)
    ensures Bit(Pow2(e), d) <==> d == e
  {
    if e == 0 {
      if d > 0 {
        BitOfZero(d - 1);
      }
    } else if d > 0 {
      BitOfPow2(e - 1, d - 1);
    }
  }

  /** `bitmap | (1 << e)` changes digit e only, and stays within the word. */
  lemma BitOfSet(x: u128, e: nat, d: nat)
    requires e < 128
    ensures Or(x, Shl(1, e)) < U128_LIMIT
    ensures Bit(Or(x, Shl(1, e)), d) <==> d == e || Bit(x, d)
  {
    OneShl(e);
    OrFits128(x, Shl(1, e));
    BitOfOr(x, Pow2(e), d);
    BitOfPow2(e, d);
  }

  lemma {:induction false} BitOfOnes(n: nat, d: nat)
    ensures Bit(Pow2(n) - 1, d) <==> d < n
  {
    if n == 0 {
      BitOfZero(d);
    } else if d > 0 {
      BitOfOnes(n - 1, d - 1);
      assert (Pow2(n) - 1) / 2 == Pow2(n - 1) - 1;
    }
  }

  /** Exclusive or, digit by digit: set where exactly one of the two is. */
  lemma {:induction false} BitOfXor(a: nat, b: nat, width: nat, d: nat)
    requires d < width
    ensures Bit(XorBits(a, b, width), d) <==> Bit(a, d) != Bit(b, d)
  {
    XorBitsHalves(a, b, width);
    if d > 0 {
      BitOfXor(a / 2, b / 2, width - 1, d - 1);
    }
  }

  /** What XOR does to one byte of a byte string. */
  lemma BitOfXorBytes(a: Bytes, b: Bytes, i: nat, d: nat)
    requires |a| == |b| && i < |a| && d < 8
    ensures Bit(Xor(a, b)[i] as nat, d) <==> Bit(a[i] as nat, d) != Bit(b[i] as nat, d)
  {
    BitOfXor(a[i] as nat, b[i] as nat, 8, d);
    hide Bit, XorBits;
  }
}
