/**
 * Arithmetic of LinkedHashedTable: where a key goes (the bucket index) and when and
 * by how much the table grows (the load threshold test and the new capacity).
 *
 * The threshold, a double in the C# program, is the exact rational num / den here.
 */
module Hashing {

  function Abs(x: int): (r: nat)
    ensures r == x || r == -x
  {
    if x < 0 then -x else x
  }

  /**
   * The C# `%` operator on int: the remainder of a division truncated toward zero,
   * so it takes the sign of the dividend (unlike Dafny's `%`, which is never negative).
   */
  function TruncRem(a: int, m: int): (r: int)
    requires m >= 1
    ensures Abs(r) == Abs(a) % m
    ensures a >= 0 ==> r >= 0
    ensures a < 0 ==> r <= 0
  {
    if a >= 0 then a % m else -((-a) % m)
  }

  /**
   * `Math.Abs(hash % maxSize)`: the bucket of a key whose hash code is h, in a
   * table of m buckets. The same formula serves insertion, lookup and rehashing.
   */
  function BucketIndex(h: int, m: int): (r: nat)
    requires m >= 1
    ensures r < m
    ensures r == Abs(h) % m
  {
    Abs(TruncRem(h, m))
  }

  /** Two distinct multiples of d lie at least d apart. */
  lemma MultiplesApart(x: int, y: int, d: int)
    requires x > y && d >= 1
    ensures x * d - y * d >= d
    ensures x * d - y * d == d ==> x == y + 1
  {
    assert x * d - y * d == (x - y) * d;
    if x - y >= 2 {
      assert (x - y) * d == (x - y - 1) * d + d;
      assert (x - y - 1) * d >= d;
    }
  }

  /**
   * `Convert.ToInt32` of the non-negative rational n / d: the nearest integer, and on a
   * tie (a fractional part of exactly one half) the even one of the two neighbours.
   */
  function RoundHalfEven(n: nat, d: nat): (r: nat)
    requires d >= 1
    ensures 2 * Abs(r * d - n) <= d
    ensures 2 * Abs(r * d - n) == d ==> r % 2 == 0
  {
    var fl, rem := n / d, n % d;
    assert n == fl * d + rem;
    assert (fl + 1) * d - n == d - rem;
    if 2 * rem < d then fl
    else if 2 * rem > d then fl + 1
    else if fl % 2 == 0 then fl
    else fl + 1
  }

  /** Round-half-to-even is the only integer that is that close to n / d and breaks ties that way. */
  lemma RoundHalfEvenUnique(n: nat, d: nat, z: int)
    requires d >= 1
    requires 2 * Abs(z * d - n) < d || (2 * Abs(z * d - n) == d && z % 2 == 0)
    ensures z == RoundHalfEven(n, d)
  {
    var r := RoundHalfEven(n, d);
    if z > r {
      MultiplesApart(z, r, d);
    } else if z < r {
      MultiplesApart(r, z, d);
    }
  }

  /**
   * The growth test `counter >= maxSize * threshold`, evaluated exactly: it compares
   * in integers what the program compares against the product with the threshold.
   */
  predicate GrowthDue(counter: int, maxSize: int, num: nat, den: nat): (due: bool)
    ensures den >= 1 ==> (due <==> counter as real >= maxSize as real * (num as real / den as real))
  {
    counter * den >= maxSize * num
  }

  /** `maxSize + Convert.ToInt32(maxSize * threshold)`: the capacity after a rehash. */
  function NextCapacity(maxSize: nat, num: nat, den: nat): (r: nat)
    requires den >= 1
    ensures r >= maxSize
    ensures 2 * Abs((r - maxSize) * den - maxSize * num) <= den
  {
    maxSize + RoundHalfEven(maxSize * num, den)
  }

  /**
   * Growth is never a shrink, and it is a real growth exactly when maxSize * threshold
   * exceeds one half; below that the rounding gives 0 and the capacity stays put.
   */
  lemma NextCapacityGrows(maxSize: nat, num: nat, den: nat)
    requires den >= 1
    ensures NextCapacity(maxSize, num, den) > maxSize <==> 2 * (maxSize * num) > den
  {
    var n := maxSize * num;
    if 2 * n <= den {
      RoundHalfEvenUnique(n, den, 0);
    } else {
      assert RoundHalfEven(n, den) != 0;
    }
  }

  /**
   * With the factory's defaults (capacity 100, threshold 0.75) the first rehash grows
   * the table to 175 buckets: the growth fraction is the threshold, not one half.
   */
  lemma DefaultGrowth()
    ensures NextCapacity(100, 3, 4) == 175
  {
    RoundHalfEvenUnique(300, 4, 75);
  }
}
