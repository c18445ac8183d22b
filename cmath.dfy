/** Semantics of the C and C++ arithmetic the reconstruction engine relies on,
    stated over Dafny's unbounded integers and reals. */
module CMath {

  /** M_PI as the C math header spells it. */
  const Pi: real := 3.14159265358979323846

  /** Conversion of a floating-point value to `int` in C and C++: truncation toward zero. */
  function Trunc(x: real): (n: int)
    ensures x >= 0.0 ==> n as real <= x < n as real + 1.0
    ensures x < 0.0 ==> n as real - 1.0 < x <= n as real
  {
    if x >= 0.0 then x.Floor else -((-x).Floor)
  }

  /** The value an unsigned 16-bit integer (a Windows `WORD`, an `unsigned short`)
      keeps of an `int`: the value modulo 2^16. */
  function Word(n: int): (w: nat)
    ensures w < 0x1_0000
    ensures 0 <= n < 0x1_0000 ==> w == n
  {
    n % 0x1_0000
  }

  /** Counting one more in a 16-bit counter. */
  lemma WordStep(a: int)
    ensures Word(Word(a) + 1) == Word(a + 1)
  {
  }

  /** Placing a block of `size` cells after `a` whole blocks: every cell of an earlier
      block lies before block `b`. */
  lemma BlockBefore(a: nat, b: nat, size: nat, off: nat)
    requires a < b && off < size
    ensures a * size + off < b * size
  {
    MulLeft(a + 1, b, size);
  }

  /** A position splits uniquely into whole blocks and an offset within a block. */
  lemma BlockUnique(a: nat, a': nat, size: nat, off: nat, off': nat)
    requires off < size && off' < size && a * size + off == a' * size + off'
    ensures a == a' && off == off'
  {
    if a < a' {
      BlockBefore(a, a', size, off);
    } else if a' < a {
      BlockBefore(a', a, size, off');
    }
  }

  /** A position splits uniquely into blocks of `rows` rows of `cols` cells, a row
      within the block and a cell within the row. */
  lemma NestedBlockUnique(rows: nat, cols: nat, i: nat, j: nat, k: nat, i': nat, j': nat, k': nat)
    requires j < rows && k < cols && j' < rows && k' < cols
    requires i * (rows * cols) + (j * cols + k) == i' * (rows * cols) + (j' * cols + k')
    ensures i == i' && j == j' && k == k'
  {
    BlockBefore(j, rows, cols, k);
    BlockBefore(j', rows, cols, k');
    BlockUnique(i, i', rows * cols, j * cols + k, j' * cols + k');
    BlockUnique(j, j', cols, k, k');
  }

  /** Every position below `n` blocks of `size` cells lies in one of them. */
  lemma BlockOf(t: nat, n: nat, size: nat) returns (a: nat, off: nat)
    requires t < n * size
    ensures a < n && off < size && t == a * size + off
  {
    a, off := t / size, t % size;
    if a >= n {
      MulLeft(n, a, size);
    }
  }

  /** A product of three is the first times the product of the other two. */
  lemma MulAssoc(a: int, b: int, c: int)
    ensures a * b * c == a * (b * c)
  {
  }

  /** Multiplying by a natural number keeps the order. */
  lemma MulLeft(a: int, b: int, c: nat)
    requires a <= b
    ensures a * c <= b * c
  {
    assert b * c - a * c == (b - a) * c;
  }

  // Facts of real multiplication that the solver does not find unaided.

  lemma MulNonNegative(a: real, b: real)
    requires a >= 0.0 && b >= 0.0
    ensures a * b >= 0.0
  {
  }

  lemma MulPositive(a: real, b: real)
    requires a > 0.0 && b > 0.0
    ensures a * b > 0.0
  {
  }

  lemma MulMonotone(a: real, b: real, w: real)
    requires a <= b && w >= 0.0
    ensures a * w <= b * w
  {
    MulNonNegative(b - a, w);
    assert (b - a) * w == b * w - a * w;
  }

  lemma SquarePositive(s: real)
    ensures s * s >= 0.0
    ensures s != 0.0 ==> s * s > 0.0
  {
    if s < 0.0 {
      MulNonNegative(-s, -s);
      assert (-s) * (-s) == s * s;
    } else {
      MulNonNegative(s, s);
    }
  }

  /** A product of two reals, named so that the solver keeps it as one term (it does
      not relate a bare `s * s` to the facts it has about products). */
  function Product(a: real, b: real): real {
    a * b
  }

  lemma ProductPositive(a: real, b: real)
    requires a > 0.0 && b > 0.0
    ensures Product(a, b) > 0.0
  {
  }

  /** The sign of a square, written as a `Product`. */
  lemma ProductSquareSign(s: real)
    ensures Product(s, s) >= 0.0
    ensures s != 0.0 ==> Product(s, s) > 0.0
  {
    if s > 0.0 {
      ProductPositive(s, s);
    } else if s < 0.0 {
      ProductPositive(-s, -s);
      assert Product(-s, -s) == Product(s, s);
    }
  }

  lemma DivSign(a: real, b: real)
    requires b > 0.0
    ensures a > 0.0 ==> a / b > 0.0
    ensures a < 0.0 ==> a / b < 0.0
  {
    assert (a / b) * b == a;
    if a > 0.0 && a / b <= 0.0 {
      MulMonotone(a / b, 0.0, b);
    }
  }
}
