/** The seed phase of `generate_layout` (src/model/layout.rs) as the source
    runs it: a mutable pool popped from the end and an array of
    unavailable flags written index by index. */
module SeedPicker {
  import opened Board
  import opened Generator

  /** The four guarded diagonal stores of the source reach exactly the
      diagonal neighbours of r on the board. */
  lemma DiagonalNeighbours(n: nat, r: nat, c: nat)
    requires n > 0 && r < n * n && c < n * n
    ensures DiagonallyAdjacent(n, r, c) <==>
              || (r >= n && r % n != 0 && c + n + 1 == r)
              || (r >= n && r % n != n - 1 && c + n == r + 1)
              || (r + n < n * n && r % n != 0 && c + 1 == r + n)
              || (r + n < n * n && r % n != n - 1 && c == r + n + 1)
  {
    RowInBoard(n, r);
    RowInBoard(n, c);
    EdgeGuards(n, r);
    if DiagonallyAdjacent(n, r, c) {
      DiagonalForward(n, r / n, r % n, c / n, c % n);
    }
    DiagonalBackward(n, r / n, r % n, c);
  }

  /** The source's edge tests in terms of row and column. */
  lemma {:induction false} EdgeGuards(n: nat, r: nat)
    requires n > 0 && r < n * n
    ensures r >= n <==> r / n >= 1
    ensures r + n < n * n <==> r / n + 1 < n
  {
    RowInBoard(n, r);
    var R := r / n;
    if R >= 1 { MulMonotone(1, R, n); }
    if R + 1 < n { MulMonotone(R + 2, n, n); } else { MulMonotone(n, R + 1, n); }
  }

  lemma {:induction false} DiagonalForward(n: nat, R: nat, C: nat, R': nat, C': nat)
    requires C < n && C' < n
    requires R' == R + 1 || R == R' + 1
    requires C' == C + 1 || C == C' + 1
    ensures var r, c := R * n + C, R' * n + C';
            || (R >= 1 && C != 0 && c + n + 1 == r)
            || (R >= 1 && C != n - 1 && c + n == r + 1)
            || (R' == R + 1 && C != 0 && c + 1 == r + n)
            || (R' == R + 1 && C != n - 1 && c == r + n + 1)
  {
    if R' == R + 1 {
      assert R' * n == R * n + n;
    } else {
      assert R * n == R' * n + n;
    }
  }

  lemma {:induction false} DiagonalBackward(n: nat, R: nat, C: nat, c: nat)
    requires C < n && R < n
    ensures var r := R * n + C;
            || (R >= 1 && C != 0 && c + n + 1 == r)
            || (R >= 1 && C != n - 1 && c + n == r + 1)
            || (R + 1 < n && C != 0 && c + 1 == r + n)
            || (R + 1 < n && C != n - 1 && c == r + n + 1)
            ==> c < n * n && DiagonallyAdjacent(n, r, c)
  {
    var r := R * n + C;
    if R >= 1 && C != 0 && c + n + 1 == r {
      UpLeft(n, R, C);
    } else if R >= 1 && C != n - 1 && c + n == r + 1 {
      UpRight(n, R, C);
    } else if R + 1 < n && C != 0 && c + 1 == r + n {
      DownLeft(n, R, C);
    } else if R + 1 < n && C != n - 1 && c == r + n + 1 {
      DownRight(n, R, C);
    }
  }

  /** The cell one row up and one column left, and so on for the others. */
  lemma {:induction false} UpLeft(n: nat, R: nat, C: nat)
    requires 1 <= R < n && 1 <= C < n
    ensures var c := (R - 1) * n + (C - 1);
            c + n + 1 == R * n + C && c < n * n && DiagonallyAdjacent(n, R * n + C, c)
  {
    DivModUnique(n, R, C);
    DivModUnique(n, R - 1, C - 1);
    IndexInBoard(n, R - 1, C - 1);
  }

  lemma {:induction false} UpRight(n: nat, R: nat, C: nat)
    requires 1 <= R < n && C + 1 < n
    ensures var c := (R - 1) * n + (C + 1);
            c + n == R * n + C + 1 && c < n * n && DiagonallyAdjacent(n, R * n + C, c)
  {
    DivModUnique(n, R, C);
    DivModUnique(n, R - 1, C + 1);
    IndexInBoard(n, R - 1, C + 1);
  }

  lemma {:induction false} DownLeft(n: nat, R: nat, C: nat)
    requires R + 1 < n && 1 <= C < n
    ensures var c := (R + 1) * n + (C - 1);
            c + 1 == R * n + C + n && c < n * n && DiagonallyAdjacent(n, R * n + C, c)
  {
    DivModUnique(n, R, C);
    DivModUnique(n, R + 1, C - 1);
    IndexInBoard(n, R + 1, C - 1);
  }

  lemma {:induction false} DownRight(n: nat, R: nat, C: nat)
    requires R + 1 < n && C + 1 < n
    ensures var c := (R + 1) * n + (C + 1);
            c == R * n + C + n + 1 && c < n * n && DiagonallyAdjacent(n, R * n + C, c)
  {
    DivModUnique(n, R, C);
    DivModUnique(n, R + 1, C + 1);
    IndexInBoard(n, R + 1, C + 1);
  }

  /** The stores made once r is accepted: r's column and row, then the
      diagonal neighbours that exist. */
  method MarkAround(unavailable: array<bool>, n: nat, r: nat)
    requires n > 0 && unavailable.Length == n * n && r < n * n
    modifies unavailable
    ensures unavailable[..] == MarkUnavailable(n, old(unavailable[..]), r)
  {
    ghost var before := unavailable[..];
    MarkLines(unavailable, n, r);
    ghost var lines := unavailable[..];
    MarkDiagonals(unavailable, n, r);
    forall c | 0 <= c < n * n
      ensures unavailable[c] == (before[c] || Attacks(n, r, c))
    {
      assert unavailable[c] == (lines[c] || DiagonallyAdjacent(n, r, c));
    }
  }

  /** The loop over i: cell i of r's column and cell i of r's row. */
  method MarkLines(unavailable: array<bool>, n: nat, r: nat)
    requires n > 0 && unavailable.Length == n * n && r < n * n
    modifies unavailable
    ensures forall c :: 0 <= c < n * n ==>
              unavailable[c] == (old(unavailable[c]) || Col(n, c) == Col(n, r) || Row(n, c) == Row(n, r))
  {
    ghost var before := unavailable[..];
    var size := n * n;
    RowInBoard(n, r);
    forall c | 0 <= c < size
      ensures c == Row(n, c) * n + Col(n, c) && Row(n, c) < n && Col(n, c) < n
    {
      RowInBoard(n, c);
    }
    var i := 0;
    while i < n
      invariant 0 <= i <= n
      invariant forall c :: 0 <= c < size ==>
                  unavailable[c] == (before[c] || (Col(n, c) == Col(n, r) && Row(n, c) < i)
                                              || (Row(n, c) == Row(n, r) && Col(n, c) < i))
    {
      DivModUnique(n, i, r % n);
      IndexInBoard(n, i, r % n);
      unavailable[i * n + r % n] := true;
      assert r - r % n + i == (r / n) * n + i;
      DivModUnique(n, r / n, i);
      IndexInBoard(n, r / n, i);
      unavailable[r - r % n + i] := true;
      i := i + 1;
    }
  }

  /** The four guarded diagonal stores. */
  method MarkDiagonals(unavailable: array<bool>, n: nat, r: nat)
    requires n > 0 && unavailable.Length == n * n && r < n * n
    modifies unavailable
    ensures forall c :: 0 <= c < n * n ==>
              unavailable[c] == (old(unavailable[c]) || DiagonallyAdjacent(n, r, c))
  {
    var size := n * n;
    RowInBoard(n, r);
    var bottomRow := r < n;
    var topRow := r >= size - n;
    var leftCol := r % n == 0;
    var rightCol := r % n == n - 1;
    EdgeGuards(n, r);
    if !bottomRow && !leftCol {
      UpLeft(n, r / n, r % n);
      unavailable[r - n - 1] := true;
    }
    if !bottomRow && !rightCol {
      UpRight(n, r / n, r % n);
      unavailable[r - n + 1] := true;
    }
    if !topRow && !leftCol {
      DownLeft(n, r / n, r % n);
      unavailable[r + n - 1] := true;
    }
    if !topRow && !rightCol {
      DownRight(n, r / n, r % n);
      unavailable[r + n + 1] := true;
    }
    forall c | 0 <= c < size
      ensures unavailable[c] == (old(unavailable[c]) || DiagonallyAdjacent(n, r, c))
    {
      DiagonalNeighbours(n, r, c);
    }
  }

  /** One attempt of the seed phase, run as the source runs it; it ends
      exactly as the functional rounds say. */
  method PickSeeds(n: nat, pool: seq<nat>) returns (outcome: SeedOutcome)
    requires n > 0 && OnBoard(n, pool)
    ensures outcome == SeedPhase(n, pool)
    ensures outcome.Seeded? ==> |outcome.seeds| == n && NonAttacking(n, outcome.seeds)
  {
    SeedPhaseValid(n, pool);
    var numbers := pool;
    var unavailable := new bool[n * n](_ => false);
    var seeds: seq<nat> := [];
    var round := 0;
    assert unavailable[..] == seq(n * n, _ => false);
    while round < n
      invariant 0 <= round <= n && unavailable.Length == n * n
      invariant OnBoard(n, numbers)
      invariant Rounds(n, n - round, numbers, unavailable[..], seeds) == SeedPhase(n, pool)
    {
      if |numbers| == 0 {
        return EmptyPoolPanic;
      }
      var r: nat := Last(numbers);
      numbers := DropLast(numbers);
      while unavailable[r]
        invariant OnBoard(n, numbers) && r < n * n
        invariant Accept(n, n - round, r, numbers, unavailable[..], seeds) == SeedPhase(n, pool)
        decreases |numbers|
      {
        if |numbers| == 0 {
          return Exhausted;
        }
        r := Last(numbers);
        numbers := DropLast(numbers);
      }
      MarkAround(unavailable, n, r);
      seeds := seeds + [r];
      round := round + 1;
    }
    return Seeded(seeds);
  }
}
