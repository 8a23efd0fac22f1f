/**
 * Integer arithmetic shared by the pipeline and the viewers: ceiling
 * division, the integer ceiling of a square root, powers of two, the
 * uniqueness of Euclidean division and prefix sums over counts.
 */
module IntMath {

  /** Unique quotient and remainder: the fact every div/mod round trip rests on. */
  lemma DivModUnique(a: int, d: int, q: int, r: int)
    requires d > 0 && 0 <= r < d && a == q * d + r
    ensures a / d == q && a % d == r
  {
    var q', r' := a / d, a % d;
    assert a == q' * d + r';
    if q' > q {
      MulMonotone(q' - q, 1, d);
      assert false;
    } else if q' < q {
      MulMonotone(q - q', 1, d);
      assert false;
    }
  }

  lemma MulMonotone(a: int, b: int, d: int)
    requires a >= b && d >= 0
    ensures a * d >= b * d
  {
  }

  /** The quotient of Euclidean division brackets the exact ratio. */
  lemma DivBounds(a: nat, b: nat)
    requires b > 0
    ensures (a / b) * b <= a < (a / b + 1) * b
  {
    assert a == (a / b) * b + a % b;
    assert (a / b + 1) * b == (a / b) * b + b;
  }

  /** A multiple of a divides back exactly. */
  lemma MulDivExact(q: nat, a: nat)
    ensures a >= 1 ==> (q * a) / a == q && (q * a) % a == 0
  {
    if a >= 1 {
      DivModUnique(q * a, a, q, 0);
    }
  }

  /** Ceiling of a / b (Python's math.ceil(a / b) on exact values). */
  function CeilDiv(a: nat, b: nat): (r: nat)
    requires b > 0
    ensures r * b >= a
    ensures r == 0 || (r - 1) * b < a
    ensures a == 0 <==> r == 0
  {
    var r := (a + b - 1) / b;
    assert (a + b - 1) == r * b + (a + b - 1) % b;
    r
  }

  /** When b divides a, the ceiling is the exact quotient. */
  lemma CeilDivExact(a: nat, b: nat)
    requires b > 0 && a % b == 0
    ensures CeilDiv(a, b) * b == a
  {
    var r, q := CeilDiv(a, b), a / b;
    assert a == q * b;
    if r > q {
      MulMonotone(r - 1, q, b);
      assert false;
    }
    MulMonotone(q, r, b);
  }

  /** Multiplication by a positive factor is injective. */
  lemma MulCancel(a: nat, b: nat, s: nat)
    requires s >= 1 && a * s == b * s
    ensures a == b
  {
    if a < b {
      MulMonotone(b, a + 1, s);
      assert false;
    } else if b < a {
      MulMonotone(a, b + 1, s);
      assert false;
    }
  }

  /** The integer ceiling of a square root: the least n with n * n >= count. */
  function CeilSqrt(count: nat): (n: nat)
    ensures n * n >= count
    ensures n == 0 || (n - 1) * (n - 1) < count
    ensures n == 0 <==> count == 0
  {
    CeilSqrtFrom(count, 0)
  }

  function CeilSqrtFrom(count: nat, k: nat): (n: nat)
    requires k == 0 || (k - 1) * (k - 1) < count
    ensures n * n >= count
    ensures n == 0 || (n - 1) * (n - 1) < count
    ensures n >= k
    decreases count - k
  {
    if k * k >= count then k
    else
      assert k <= k * k by { if k > 0 { MulMonotone(k, 1, k); } }
      CeilSqrtFrom(count, k + 1)
  }

  /** 2 to the power i. */
  function Pow2(i: nat): (p: nat)
    ensures p >= 1
  {
    if i == 0 then 1 else 2 * Pow2(i - 1)
  }

  lemma {:induction false} Pow2Monotone(i: nat, j: nat)
    requires i <= j
    ensures Pow2(i) <= Pow2(j)
  {
    if i < j {
      Pow2Monotone(i, j - 1);
    }
  }

  /** Sum of a sequence of counts, accumulated from the front. */
  function Sum(s: seq<nat>): nat
  {
    if |s| == 0 then 0 else Sum(s[..|s| - 1]) + s[|s| - 1]
  }

  /** The number of items in the groups before group j. */
  function Prefix(s: seq<nat>, j: nat): nat
    requires j <= |s|
  {
    Sum(s[..j])
  }

  lemma PrefixStep(s: seq<nat>, j: nat)
    requires j < |s|
    ensures Prefix(s, j + 1) == Prefix(s, j) + s[j]
  {
    assert s[..j + 1][..j] == s[..j];
  }

  lemma {:induction false} PrefixMonotone(s: seq<nat>, i: nat, j: nat)
    requires i <= j <= |s|
    ensures Prefix(s, i) <= Prefix(s, j)
  {
    if i < j {
      PrefixMonotone(s, i, j - 1);
      PrefixStep(s, j - 1);
    }
  }
}
