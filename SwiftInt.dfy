/** Swift's `Int` on a 64-bit platform: its range, its truncating `/` and `%`,
    and the powers of ten the digit subscript multiplies up. */
module SwiftInt {

  const MIN: int := -0x8000_0000_0000_0000
  const MAX: int := 0x7FFF_FFFF_FFFF_FFFF

  /** A Swift `Int`. Arithmetic on this type is checked by Dafny against the
      range, which is where Swift traps on overflow. */
  newtype Int64 = x: int | -0x8000_0000_0000_0000 <= x <= 0x7FFF_FFFF_FFFF_FFFF

  predicate InRange(x: int) {
    MIN <= x <= MAX
  }

  function Abs(x: int): nat {
    if x < 0 then -x else x
  }

  /** Swift's `a / b`: the quotient rounded toward zero. */
  function Quot(a: int, b: int): int
    requires b != 0
  {
    var q := Abs(a) / Abs(b);
    if (a < 0) == (b < 0) then q else -q
  }

  /** Swift's `a % b`: the remainder takes the sign of the dividend. */
  function Rem(a: int, b: int): int
    requires b != 0
  {
    var r := Abs(a) % Abs(b);
    if a < 0 then -r else r
  }

  /** Truncating division: the quotient and remainder rebuild the dividend,
      the remainder is smaller than the divisor and never has the opposite sign
      of the dividend, and the quotient never overshoots in magnitude. */
  lemma TruncatedDivision(a: int, b: int)
    requires b != 0
    ensures a == b * Quot(a, b) + Rem(a, b)
    ensures Abs(Rem(a, b)) < Abs(b)
    ensures a >= 0 ==> Rem(a, b) >= 0
    ensures a <= 0 ==> Rem(a, b) <= 0
    ensures Abs(b) * Abs(Quot(a, b)) <= Abs(a)
  {
    SignedParts(a, b, Abs(a) / Abs(b), Abs(a) % Abs(b));
  }

  /** The sign bookkeeping of truncating division, over the magnitudes'
      Euclidean quotient `q` and remainder `r`. */
  lemma SignedParts(a: int, b: int, q: int, r: int)
    requires b != 0 && q >= 0 && Abs(a) == Abs(b) * q + r && 0 <= r < Abs(b)
    ensures var quot := if (a < 0) == (b < 0) then q else -q;
            var rem := if a < 0 then -r else r;
            a == b * quot + rem && Abs(b) * Abs(quot) <= Abs(a)
  {
    var m := Abs(b);
    MulNegate(m, q);
    if a >= 0 && b > 0 {
      assert a == b * q + r;
    } else if a < 0 && b > 0 {
      assert a == b * -q - r;
    } else if a >= 0 {
      assert a == b * -q + r;
    } else {
      assert a == b * q - r;
    }
  }

  lemma MulNegate(x: int, y: int)
    ensures (-x) * y == x * (-y) == -(x * y)
  {
  }

  /** On non-negative operands Swift's operators agree with Euclidean ones. */
  lemma QuotRemNonNegative(a: int, b: int)
    requires a >= 0 && b > 0
    ensures Quot(a, b) == a / b && Rem(a, b) == a % b
  {
  }

  /** Negating the dividend negates both the quotient and the remainder. */
  lemma QuotRemOfNegation(a: int, b: int)
    requires b != 0
    ensures Quot(-a, b) == -Quot(a, b)
    ensures Rem(-a, b) == -Rem(a, b)
  {
  }

  /** Euclidean division by a product is division by each factor in turn. */
  lemma DivDiv(n: nat, p: nat, q: nat)
    requires p > 0 && q > 0
    ensures (n / p) / q == n / (p * q)
  {
    var a, r1 := n / p, n % p;
    var b, r2 := a / q, a % q;
    Regroup(b, q, r2, p, r1);
    LowPart(r2, q, p, r1);
    DivUnique(n, p * q, b, r2 * p + r1);
  }

  lemma Regroup(b: int, q: int, r2: int, p: int, r1: int)
    ensures (b * q + r2) * p + r1 == b * (p * q) + (r2 * p + r1)
  {
  }

  lemma LowPart(r2: int, q: int, p: int, r1: int)
    requires 0 <= r2 < q && 0 <= r1 < p
    ensures 0 <= r2 * p + r1 < p * q
  {
    assert r2 * p <= (q - 1) * p;
  }

  /** The Euclidean quotient is the only one whose remainder lies in range. */
  lemma DivUnique(n: nat, m: nat, b: int, r: int)
    requires m > 0 && 0 <= r < m && n == b * m + r
    ensures n / m == b
  {
    var b', r' := n / m, n % m;
    assert (b - b') * m == r' - r;
    MulSmall(b - b', m);
  }

  lemma MulSmall(k: int, m: int)
    requires m > 0 && -m < k * m < m
    ensures k == 0
  {
  }

  function Pow10(k: nat): (r: nat)
    ensures r >= 1
  {
    if k == 0 then 1 else 10 * Pow10(k - 1)
  }

  lemma {:induction false} Pow10Monotone(i: nat, j: nat)
    requires i <= j
    ensures Pow10(i) <= Pow10(j)
  {
    if i < j {
      Pow10Monotone(i, j - 1);
    }
  }

  lemma {:induction false} Pow10Add(i: nat, j: nat)
    ensures Pow10(i + j) == Pow10(i) * Pow10(j)
  {
    if j > 0 {
      Pow10Add(i, j - 1);
      assert Pow10(i + j) == 10 * Pow10(i + j - 1);
    }
  }

  /** 10^18 is the largest power of ten a Swift `Int` can hold. */
  lemma Pow10FitsInt64(k: nat)
    ensures Pow10(k) <= MAX <==> k <= 18
  {
    assert Pow10(9) == 1_000_000_000;
    Pow10Add(9, 9);
    assert Pow10(19) == 10 * Pow10(18);
    if k <= 18 {
      Pow10Monotone(k, 18);
    } else {
      Pow10Monotone(19, k);
    }
  }
}
