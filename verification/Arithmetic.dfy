/**
 Products, quotients, powers of two and bit lengths, for the index computations
 and the bit tricks of the other modules.
 */
module Arithmetic {

  // ----- Products -----

  lemma {:induction false} MulNonNegative(x: nat, y: nat)
    ensures x * y >= 0
    decreases x
  {
    if x > 0 {
      assert x * y == (x - 1) * y + y;
      MulNonNegative(x - 1, y);
    }
  }

  lemma {:induction false} MulMonotone(p: nat, q: nat, d: nat)
    requires p < q
    ensures p * d + d <= q * d
    decreases q
  {
    assert q * d == (q - 1) * d + d;
    if p < q - 1 {
      MulMonotone(p, q - 1, d);
    }
  }

  lemma MulPositive(x: nat, y: nat)
    requires x > 0 && y > 0
    ensures x * y > 0
  {
    assert 0 * y == 0;
    MulMonotone(0, x, y);
  }

  lemma MulDistributes(x: int, y: int, z: int)
    ensures (x + y) * z == x * z + y * z
  {
  }

  lemma {:induction false} MulAssociative(x: nat, y: nat, z: nat)
    ensures x * y * z == x * (y * z)
    decreases x
  {
    if x > 0 {
      MulAssociative(x - 1, y, z);
      assert x * y == (x - 1) * y + y;
      MulDistributes((x - 1) * y, y, z);
      assert x * (y * z) == (x - 1) * (y * z) + y * z;
    } else {
      assert 0 * y == 0 && 0 * z == 0 && 0 * (y * z) == 0;
    }
  }

  // ----- Flat indices -----

  lemma FlatIndexInRange(outer: nat, inner: nat, rows: nat, cols: nat)
    requires outer < rows && inner < cols
    ensures outer * cols + inner < rows * cols
  {
    MulMonotone(outer, rows, cols);
  }

  lemma FlatIndexInjective(a: nat, x: nat, b: nat, y: nat, cols: nat)
    requires x < cols && y < cols && a * cols + x == b * cols + y
    ensures a == b && x == y
  {
    if a < b {
      MulMonotone(a, b, cols);
    } else if b < a {
      MulMonotone(b, a, cols);
    }
  }

  /** The same for three parts. */
  lemma ThreePartsInjective(
    a: nat, x: nat, y: nat, a': nat, x': nat, y': nat, rows: nat, cols: nat)
    requires x < rows && x' < rows && y < cols && y' < cols
    requires a * (rows * cols) + x * cols + y == a' * (rows * cols) + x' * cols + y'
    ensures a == a' && x == x' && y == y'
  {
    FlatIndexInRange(x, y, rows, cols);
    FlatIndexInRange(x', y', rows, cols);
    FlatIndexInjective(a, x * cols + y, a', x' * cols + y', rows * cols);
    FlatIndexInjective(x, y, x', y', cols);
  }

  // ----- Quotients -----

  lemma Quotient(v: nat, d: nat)
    requires d > 0
    ensures v / d * d + v % d == v && 0 <= v % d < d && v / d >= 0
  {
  }

  lemma QuotientUnique(v: nat, d: nat, q: nat)
    requires d > 0 && q * d <= v < q * d + d
    ensures v / d == q
  {
    Quotient(v, d);
    FlatIndexInjective(v / d, v % d, q, v - q * d, d);
  }

  lemma RemainderUnique(v: nat, d: nat, q: nat)
    requires d > 0 && q * d <= v < q * d + d
    ensures v % d == v - q * d
  {
    QuotientUnique(v, d, q);
    Quotient(v, d);
  }

  lemma NestedBounds(v: nat, rows: nat, cols: nat, a: nat, q: nat)
    requires a * cols <= v < a * cols + cols && q * rows <= a < q * rows + rows
    ensures q * (rows * cols) <= v < q * (rows * cols) + rows * cols
  {
    var b := a - q * rows;
    MulDistributes(q * rows, b, cols);
    MulAssociative(q, rows, cols);
    MulNonNegative(b, cols);
    MulMonotone(b, rows, cols);
  }

  /** Dividing twice divides by the product. */
  lemma DivideInTwo(v: nat, rows: nat, cols: nat)
    requires rows > 0 && cols > 0
    ensures rows * cols > 0 && v / (rows * cols) == v / cols / rows
  {
    MulPositive(rows, cols);
    Quotient(v, cols);
    Quotient(v / cols, rows);
    NestedBounds(v, rows, cols, v / cols, v / cols / rows);
    QuotientUnique(v, rows * cols, v / cols / rows);
  }

  lemma DivideTwice(v: nat, a: nat)
    requires a > 0
    ensures v / 2 / a == v / (2 * a)
  {
    DivideInTwo(v, a, 2);
  }

  /** Which layer, row and column make up `v`. */
  lemma Recompose(v: nat, rows: nat, cols: nat)
    requires rows > 0 && cols > 0
    ensures v / cols / rows * (rows * cols) + v / cols % rows * cols + v % cols == v
  {
    var a := v / cols;
    Quotient(v, cols);
    Quotient(a, rows);
    MulDistributes(a / rows * rows, a % rows, cols);
    MulAssociative(a / rows, rows, cols);
  }

  lemma QuotientBelow(v: nat, d: nat, n: nat)
    requires d > 0 && v < n * d
    ensures v / d < n
  {
    Quotient(v, d);
    if v / d > n {
      MulMonotone(n, v / d, d);
    }
  }

  // ----- Powers of two -----

  function Pow2(n: nat): (p: nat)
    ensures p > 0
  {
    if n == 0 then 1 else 2 * Pow2(n - 1)
  }

  lemma {:induction false} Pow2Grows(m: nat, n: nat)
    requires m < n
    ensures 2 * Pow2(m) <= Pow2(n)
    decreases n
  {
    if m < n - 1 {
      Pow2Grows(m, n - 1);
    }
  }

  /** The number of binary digits. */
  function BitLength(n: nat): nat {
    if n == 0 then 0 else 1 + BitLength(n / 2)
  }
}
