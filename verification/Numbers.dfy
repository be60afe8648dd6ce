/** The power-of-two test behind the virtual RTC (student-distrib/lib.c). */
module Numbers {

  function Pow(base: int, k: nat): int {
    if k == 0 then 1 else base * Pow(base, k - 1)
  }

  predicate IsPowerOfTwo(n: int)
    decreases n
  {
    n == 1 || (n > 1 && n % 2 == 0 && IsPowerOfTwo(n / 2))
  }

  lemma {:induction false} PowIsPowerOfTwo(k: nat)
    ensures Pow(2, k) >= 1 && IsPowerOfTwo(Pow(2, k))
  {
    if k > 0 {
      PowIsPowerOfTwo(k - 1);
      var half := Pow(2, k - 1);
      assert Pow(2, k) == 2 * half && (2 * half) % 2 == 0 && (2 * half) / 2 == half;
    }
  }

  lemma {:induction false} PowerOfTwoIsPow(n: int) returns (k: nat)
    requires IsPowerOfTwo(n)
    ensures n == Pow(2, k)
    decreases n
  {
    if n == 1 {
      k := 0;
    } else {
      var h := PowerOfTwoIsPow(n / 2);
      k := h + 1;
    }
  }

  /** A power of two divides every larger one, and the quotient is a power of two again. */
  lemma {:induction false} QuotientIsPower(a: int, f: int) returns (q: int)
    requires IsPowerOfTwo(a) && IsPowerOfTwo(f) && f <= a
    ensures q * f == a && IsPowerOfTwo(q)
    decreases f
  {
    if f == 1 {
      q := a;
    } else {
      var h := f / 2;
      q := QuotientIsPower(a / 2, h);
      DoubleProduct(q, h, a / 2);
    }
  }

  lemma DoubleProduct(q: int, h: int, b: int)
    requires q * h == b
    ensures q * (2 * h) == 2 * b
  {
  }

  lemma ScaleOrder(a: int, b: int, f: int)
    requires a < b && f > 0
    ensures a * f + f <= b * f
  {
    assert (b - a - 1) * f >= 0;
    assert b * f == a * f + f + (b - a - 1) * f;
  }

  lemma UniqueQuotient(q: int, d: int, f: int, r: int)
    requires 0 <= r < f && q * f == d * f + r
    ensures d == q
  {
    if d < q {
      ScaleOrder(d, q, f);
    } else if q < d {
      ScaleOrder(q, d, f);
    }
  }

  lemma DivisionLaw(n: int, f: int)
    requires f > 0
    ensures n == n / f * f + n % f && 0 <= n % f < f
  {
  }

  lemma ExactQuotient(q: int, f: int)
    requires f > 0 && q > 0
    ensures q * f / f == q
  {
    var n := q * f;
    DivisionLaw(n, f);
    UniqueQuotient(q, n / f, f, n % f);
  }

  /** power_of_two: 0 for a power of two, 1 for any other number that is not negative. */
  method PowerOfTwo(num: int) returns (r: int)
    requires num >= 0
    ensures r == 0 || r == 1
    ensures r == 0 <==> exists k: nat :: num == Pow(2, k)
  {
    forall k: nat ensures IsPowerOfTwo(Pow(2, k)) {
      PowIsPowerOfTwo(k);
    }
    if IsPowerOfTwo(num) {
      var k := PowerOfTwoIsPow(num);
    }
    r := Halve(num);
  }

  method Halve(num: int) returns (r: int)
    requires num >= 0
    ensures r == 0 || r == 1
    ensures r == 0 <==> IsPowerOfTwo(num)
  {
    if num == 0 {
      return 1;
    }
    var n := num;
    while n != 1
      invariant n > 0
      invariant IsPowerOfTwo(num) <==> IsPowerOfTwo(n)
      decreases n
    {
      if n % 2 == 1 {
        return 1;
      }
      n := n / 2;
    }
    return 0;
  }

  // ---------------------------------------------------------------- negative requests

  /** C's truncating half and remainder. */
  function HalfC(n: int): int {
    if n >= 0 then n / 2 else -(-n / 2)
  }

  function Mod2C(n: int): int {
    if n >= 0 then n % 2 else -(-n % 2)
  }

  /** The loop variable after `k` rounds that did not leave the loop. */
  function After(num: int, k: nat): int {
    if k == 0 then num else HalfC(After(num, k - 1))
  }

  /** The loop is left in round `k`: its guard fails or its early return is taken. */
  predicate LeavesAt(num: int, k: nat) {
    After(num, k) == 1 || Mod2C(After(num, k)) == 1
  }

  lemma {:induction false} NegativeStays(num: int, k: nat)
    requires num < 0
    ensures After(num, k) <= 0 && !LeavesAt(num, k)
  {
    if k > 0 {
      NegativeStays(num, k - 1);
    }
  }

  lemma {:induction false} PositiveLeaves(num: int, n: int, j: nat) returns (k: nat)
    requires n > 0 && After(num, j) == n
    ensures LeavesAt(num, k)
    decreases n
  {
    if n % 2 == 1 {
      k := j;
    } else {
      k := PositiveLeaves(num, n / 2, j + 1);
    }
  }

  /** power_of_two returns exactly for the numbers that are not negative; its caller tests the sign
      only afterwards. */
  lemma ReturnsIff(num: int)
    ensures (num == 0 || exists k: nat :: LeavesAt(num, k)) <==> num >= 0
  {
    if num > 0 {
      var k := PositiveLeaves(num, num, 0);
    } else if num < 0 {
      forall k: nat ensures !LeavesAt(num, k) {
        NegativeStays(num, k);
      }
    }
  }
}
