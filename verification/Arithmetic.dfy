/**
 Division facts with a variable divisor, kept apart because the solver needs each
 of them on its own.
 */
module Arithmetic {

  lemma MulMonotone(a: int, b: int, d: nat)
    requires a <= b
    ensures a * d <= b * d
  {
  }

  lemma Distribute(x: int, y: int, d: int)
    ensures (x + y) * d == x * d + y * d
  {
  }

  /** A number within the q-th run of `d` has quotient `q`. */
  lemma DivUnique(x: int, d: int, q: int)
    requires d > 0 && q * d <= x < (q + 1) * d
    ensures x / d == q && x % d == x - q * d
  {
    var q' := x / d;
    assert x == q' * d + x % d;
    if q' < q {
      MulMonotone(q' + 1, q, d);
    } else if q < q' {
      MulMonotone(q + 1, q', d);
    }
  }

  lemma DivBounds(x: int, d: int)
    requires d > 0
    ensures x / d * d <= x < (x / d + 1) * d
    ensures x % d == x - x / d * d
    ensures x >= 0 ==> x / d >= 0
  {
    var q := x / d;
    assert x == q * d + x % d;
    assert (q + 1) * d == q * d + d;
    if q < 0 {
      MulMonotone(q + 1, 0, d);
    }
  }

  /** The start of a `d`-run plus an offset within it. */
  lemma DivModOfSum(q: int, d: int, r: int)
    requires 0 <= r < d
    ensures (q * d + r) / d == q && (q * d + r) % d == r
  {
    DivUnique(q * d + r, d, q);
  }

  /** Four aligned bytes never cross a boundary of a multiple of four. */
  lemma AlignedWithin(o: int, d: int, r: int)
    requires d > 0 && d % 4 == 0 && o % 4 == 0 && 0 <= r < 4
    ensures (o + r) / d == o / d
  {
    DivBounds(o, d);
    var (q, k) := (o / d, d / 4);
    WordBelow(o / 4, (q + 1) * k, r) by {
      assert o < (q + 1) * (4 * k) == 4 * ((q + 1) * k);
    }
    DivUnique(o + r, d, q);
  }

  lemma WordBelow(w: int, end: int, r: int)
    requires 4 * w < 4 * end && 0 <= r < 4
    ensures 4 * w + r < 4 * end
  {
  }

  lemma SameAlignedWord(o: nat, k: nat, d: int)
    requires d > 0 && d % 4 == 0 && o <= k && o / 4 == k / 4
    ensures k / d == o / d
  {
    var o4 := o / 4 * 4;
    AlignedWithin(o4, d, o - o4);
    AlignedWithin(o4, d, k - o4);
  }

  lemma SubsetSize<T>(a: set<T>, b: set<T>)
    requires a <= b
    ensures |a| <= |b|
  {
    assert b == a + (b - a);
  }
}
