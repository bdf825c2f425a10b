/**
 * The value of a figure: the (n+2)-gonal figurate number of index k, where kind n = 0
 * is the degenerate "Pebble" whose value is always 1.
 *
 * `Value` is `computeValue` as FP.js and FigurativePartitions.js write it; `ShiftedValue`
 * is `computeValue` as FigurativePartitions.ts writes it, which first moves the index one
 * step on and so yields the next term of the sequence. Both are kept as written.
 */
module Figurate {

  /** (k - 1) * k is a product of two consecutive integers, hence even. */
  lemma ConsecutiveProductEven(k: int)
    ensures (k - 1) * k % 2 == 0
  {
    var m := k / 2;
    if k % 2 == 0 {
      assert k == 2 * m;
      assert (k - 1) * k == 2 * ((k - 1) * m);
    } else {
      assert k - 1 == 2 * m;
      assert (k - 1) * k == 2 * (m * k);
    }
  }

  /**
   * computeValue(n, k) of FP.js and FigurativePartitions.js. The source divides by 2 in
   * floating point; the second postcondition says that division leaves no remainder, so
   * the integer quotient used here is the number the source computes.
   */
  function Value(n: int, k: int): (v: int)
    ensures n == 0 || k == 1 ==> v == 1
    ensures n != 0 ==> 2 * v == 2 * k + n * (k - 1) * k
  {
    if n == 0 then 1
    else
      ConsecutiveProductEven(k);
      assert n * (k - 1) * k == 2 * (n * ((k - 1) * k / 2));
      k + n * (k - 1) * k / 2
  }

  /** The closed form of the (n+2)-gonal numbers: 2 P = n k^2 - (n - 2) k. */
  lemma PolygonalNumber(n: int, k: int)
    requires n != 0
    ensures 2 * Value(n, k) == n * k * k - (n - 2) * k
  {
    assert n * (k - 1) * k == n * k * k - n * k;
  }

  /** Kind 1 gives the triangular numbers (OEIS A000217). */
  lemma TriangularNumbers(k: int)
    ensures Value(1, k) == k * (k + 1) / 2
  {
    PolygonalNumber(1, k);
    assert 2 * Value(1, k) == k * (k + 1);
  }

  /** Kind 2 gives the square numbers (OEIS A000290). */
  lemma SquareNumbers(k: int)
    ensures Value(2, k) == k * k
  {
    PolygonalNumber(2, k);
  }

  /** One step of the index adds 1 + n k to a non-Pebble value. */
  lemma ValueStep(n: int, k: int)
    requires n != 0
    ensures Value(n, k + 1) == Value(n, k) + 1 + n * k
  {
    assert n * (k + 1 - 1) * (k + 1) == n * (k - 1) * k + 2 * (n * k);
  }

  /** For every kind other than the Pebble the value strictly increases with the size. */
  lemma {:induction false} ValueStrictlyIncreasing(n: int, k: int, k': int)
    requires n >= 1 && 1 <= k < k'
    ensures Value(n, k) < Value(n, k')
    decreases k' - k
  {
    ValueStep(n, k' - 1);
    assert n * (k' - 1) >= 1;
    if k < k' - 1 {
      ValueStrictlyIncreasing(n, k, k' - 1);
    }
  }

  /**
   * computeValue(n, j) of FigurativePartitions.ts: the index is first shifted to
   * k = j + 1, so the result is the term after the one `Value` gives for j.
   */
  function ShiftedValue(n: int, j: int): (v: int)
    ensures v == Value(n, j + 1)
    ensures n != 0 ==> 2 * v == (j + 1) * (n * j + 2)
  {
    var k := j + 1;
    if n == 0 then 1
    else
      ConsecutiveProductEven(k);
      assert n * (k - 1) * k == 2 * (n * ((k - 1) * k / 2));
      k + n * (k - 1) * k / 2
  }

  /**
   * A freshly added .ts figure (size 1) of a non-Pebble kind is worth n + 2, its number
   * of sides, where FP.js and FigurativePartitions.js give it the value 1.
   */
  lemma ShiftedFreshValue(n: int)
    ensures ShiftedValue(n, 1) == if n == 0 then 1 else n + 2
    ensures n >= 1 ==> ShiftedValue(n, 1) != Value(n, 1)
  {
    if n != 0 {
      ValueStep(n, 1);
    }
  }

  /** The shifted value also strictly increases with the size, for every non-Pebble kind. */
  lemma ShiftedValueStrictlyIncreasing(n: int, j: int, j': int)
    requires n >= 1 && 1 <= j < j'
    ensures ShiftedValue(n, j) < ShiftedValue(n, j')
  {
    ValueStrictlyIncreasing(n, j + 1, j' + 1);
  }
}
