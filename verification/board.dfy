/** Arithmetic on linear cell indices of an n by n board: a cell index is
    row * n + col, with row = index / n and col = index % n. */
module Board {

  function Row(n: nat, c: nat): nat
    requires n > 0
  {
    c / n
  }

  function Col(n: nat, c: nat): nat
    requires n > 0
  {
    c % n
  }

  /** Row and column of row * n + col, for col < n. */
  lemma {:induction false} DivModUnique(n: nat, row: nat, col: nat)
    requires col < n
    ensures (row * n + col) / n == row
    ensures (row * n + col) % n == col
  {
    var c := row * n + col;
    var q := c / n;
    assert c == q * n + c % n;
    if q < row {
      MulMonotone(q + 1, row, n);
      assert false;
    } else if q > row {
      MulMonotone(row + 1, q, n);
      assert false;
    }
  }

  /** A row and column below n name a cell below n * n. */
  lemma {:induction false} IndexInBoard(n: nat, row: nat, col: nat)
    requires row < n && col < n
    ensures row * n + col < n * n
  {
    MulMonotone(row + 1, n, n);
  }

  /** A value below the modulus is its own remainder. */
  lemma ModSmall(a: nat, m: nat)
    requires a < m
    ensures a % m == a
  {
  }

  lemma MulMonotone(a: nat, b: nat, n: nat)
    requires a <= b
    ensures a * n <= b * n
  {
  }

  /** A side whose square fits in a byte is at most 15. */
  lemma SideBound(n: nat)
    requires n * n < 256
    ensures n <= 15
  {
    if n > 15 {
      MulMonotone(16, n, n);
    }
  }

  /** Every cell below n * n has a row below n. */
  lemma {:induction false} RowInBoard(n: nat, c: nat)
    requires n > 0 && c < n * n
    ensures Row(n, c) < n
    ensures Col(n, c) < n
    ensures Row(n, c) * n + Col(n, c) == c
  {
    var q := c / n;
    assert c == q * n + c % n;
    if q >= n {
      MulMonotone(n, q, n);
      assert false;
    }
  }

  /** Two cells touch at a corner. */
  predicate DiagonallyAdjacent(n: nat, a: nat, b: nat)
    requires n > 0
  {
    && (Row(n, a) == Row(n, b) + 1 || Row(n, b) == Row(n, a) + 1)
    && (Col(n, a) == Col(n, b) + 1 || Col(n, b) == Col(n, a) + 1)
  }

  /** The placement rule: two marks may not share a row or a column and may
      not touch at a corner. */
  predicate Attacks(n: nat, a: nat, b: nat)
    requires n > 0
  {
    Row(n, a) == Row(n, b) || Col(n, a) == Col(n, b) || DiagonallyAdjacent(n, a, b)
  }

  /** Pairwise non-attacking cells, all on the board. */
  predicate NonAttacking(n: nat, cells: seq<nat>)
    requires n > 0
  {
    && (forall i :: 0 <= i < |cells| ==> cells[i] < n * n)
    && (forall i, j :: 0 <= i < j < |cells| ==> !Attacks(n, cells[i], cells[j]))
  }
}
