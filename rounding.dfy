/** Rounding of a non-negative fraction n / d to an integer.

    The mastery formula rounds a product of float factors to the nearest integer.
    The model computes that product as an exact fraction and rounds it with one
    declared rule: to the nearest integer, ties to the even neighbour (the rule
    Python 3's `round` intends). Every property of the mastery level is derived
    from the two facts that make a rounding rule "round to nearest"
    (RoundHalfEven's first ensures, and RoundMonotone); only the characterisation
    of exact ties (MasteredIff at 79.5, through RoundReachesEven) uses the tie
    rule. */
module Rounding {

  /** n / d rounded to the nearest integer, ties to even. */
  function RoundHalfEven(n: nat, d: nat): (r: nat)
    requires d > 0
    // r is within one half of n / d
    ensures 2 * n <= 2 * d * r + d && 2 * d * r <= 2 * n + d
    // at an exact tie the even neighbour is chosen
    ensures (2 * d * r + d == 2 * n || 2 * n + d == 2 * d * r) ==> r % 2 == 0
  {
    var q, m := n / d, n % d;
    assert n == d * q + m;
    assert d * (q + 1) == d * q + d;
    if 2 * m < d then q
    else if 2 * m > d then q + 1
    else if q % 2 == 0 then q
    else q + 1
  }

  lemma MulLeft(a: int, x: int, y: int)
    requires a >= 0 && x <= y
    ensures a * x <= a * y
  {
  }

  /** A fraction of at most k rounds to at most k. */
  lemma RoundAtMost(n: nat, d: nat, k: nat)
    requires d > 0 && n <= k * d
    ensures RoundHalfEven(n, d) <= k
  {
    var r := RoundHalfEven(n, d);
    if r > k {
      assert d * (k + 1) == d * k + d;
      MulLeft(d, k + 1, r);
      assert false;
    }
  }

  /** A fraction of at least k rounds to at least k. */
  lemma RoundAtLeast(n: nat, d: nat, k: nat)
    requires d > 0 && k * d <= n
    ensures k <= RoundHalfEven(n, d)
  {
    var r := RoundHalfEven(n, d);
    if r < k {
      assert d * (r + 1) == d * r + d;
      MulLeft(d, r + 1, k);
      assert false;
    }
  }

  /** An integer value is its own rounding. */
  lemma RoundExact(k: nat, d: nat)
    requires d > 0
    ensures RoundHalfEven(k * d, d) == k
  {
    RoundAtMost(k * d, d, k);
    RoundAtLeast(k * d, d, k);
  }

  /** Two values each within one half of their fractions keep the strict order
      of the fractions, in the weak sense. */
  lemma NearestKeepsOrder(n1: nat, d1: nat, r1: nat, n2: nat, d2: nat, r2: nat)
    requires d1 > 0 && d2 > 0
    requires 2 * d1 * r1 <= 2 * n1 + d1
    requires 2 * n2 <= 2 * d2 * r2 + d2
    requires n1 * d2 < n2 * d1
    ensures r1 <= r2
  {
    if r1 > r2 {
      var x := d1 * r2;
      assert d1 * (r2 + 1) == x + d1;
      assert d2 * (2 * x + d1) == 2 * (d2 * x) + d1 * d2;
      assert d2 * (2 * n1) == 2 * (n1 * d2);
      assert d1 * (2 * d2 * r2 + d2) == 2 * (d2 * x) + d1 * d2;
      assert d1 * (2 * n2) == 2 * (n2 * d1);
      // d1 (r2 + 1) <= d1 r1, so 2 x + d1 <= 2 n1
      MulLeft(d1, r2 + 1, r1);
      // times d2: 2 d2 x + d1 d2 <= 2 n1 d2 < 2 n2 d1
      MulLeft(d2, 2 * x + d1, 2 * n1);
      // times d1: 2 n2 d1 <= 2 d2 x + d1 d2
      MulLeft(d1, 2 * n2, 2 * d2 * r2 + d2);
      assert false;
    }
  }

  /** Rounding is monotone: a strictly smaller fraction never rounds higher. */
  lemma RoundMonotone(n1: nat, d1: nat, n2: nat, d2: nat)
    requires d1 > 0 && d2 > 0
    requires n1 * d2 < n2 * d1
    ensures RoundHalfEven(n1, d1) <= RoundHalfEven(n2, d2)
  {
    NearestKeepsOrder(n1, d1, RoundHalfEven(n1, d1), n2, d2, RoundHalfEven(n2, d2));
  }

  /** With ties to even, an even k is reached exactly from k - 1/2 on. */
  lemma NearestReachesEven(n: nat, d: nat, r: nat, k: nat)
    requires d > 0 && k > 0 && k % 2 == 0
    requires 2 * n <= 2 * d * r + d && 2 * d * r <= 2 * n + d
    requires (2 * d * r + d == 2 * n || 2 * n + d == 2 * d * r) ==> r % 2 == 0
    ensures r >= k <==> 2 * n >= (2 * k - 1) * d
  {
    assert (2 * k - 1) * d == 2 * d * k - d;
    assert 2 * d * (k - 1) == 2 * d * k - 2 * d;
    assert 2 * d * (k - 2) == 2 * d * k - 4 * d;
    if r >= k {
      MulLeft(2 * d, k, r);
    } else if 2 * n >= (2 * k - 1) * d {
      if r < k - 1 {
        MulLeft(2 * d, r, k - 2);
        assert false;
      }
      assert false;
    }
  }

  /** An even threshold k is reached from the fraction k - 1/2 on. */
  lemma RoundReachesEven(n: nat, d: nat, k: nat)
    requires d > 0 && k > 0 && k % 2 == 0
    ensures RoundHalfEven(n, d) >= k <==> 2 * n >= (2 * k - 1) * d
  {
    NearestReachesEven(n, d, RoundHalfEven(n, d), k);
  }
}
