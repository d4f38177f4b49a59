/** The growth phase of `generate_layout` (src/model/layout.rs): starting
    from one single-cell area per seed, unplaced cells are claimed one at a
    time by an orthogonal neighbour already in some area, until every cell
    is placed. The random draws are supplied as a list of choices. */
module Growth {
  import opened Wrappers
  import opened Board

  /** One draw of the loop body: the area index (`random_range(0..n-1)`),
      the member index (`random_range(0..len)`) and the direction
      (`random_range(0..4)`). Any naturals are accepted and reduced into the
      range the source draws from, so every draw the source can make is one
      of these. */
  datatype Choice = Choice(area: nat, member: nat, direction: nat)

  /** The area lists, the `placed` flags and `number_placed`. */
  datatype GrowthState = GrowthState(areas: seq<seq<nat>>, placed: seq<bool>, count: nat)

  /** The number of set flags. */
  function CountTrue(s: seq<bool>): (k: nat)
    ensures k <= |s|
  {
    if |s| == 0 then 0 else (if s[0] then 1 else 0) + CountTrue(s[1..])
  }

  /** Setting one clear flag adds one to the count. */
  lemma {:induction false} CountSet(s: seq<bool>, i: nat)
    requires i < |s| && !s[i]
    ensures CountTrue(s[i := true]) == CountTrue(s) + 1
  {
    if i > 0 {
      assert s[i := true][1..] == s[1..][i - 1 := true];
      CountSet(s[1..], i - 1);
    }
  }

  /** A count equal to the length means every flag is set. */
  lemma {:induction false} CountFull(s: seq<bool>)
    requires CountTrue(s) == |s|
    ensures forall i :: 0 <= i < |s| ==> s[i]
  {
    if |s| > 0 {
      CountFull(s[1..]);
      assert forall i :: 1 <= i < |s| ==> s[i] == s[1..][i - 1];
    }
  }

  /** Two cells side by side in a row or a column. */
  predicate OrthogonallyAdjacent(n: nat, a: nat, b: nat)
    requires n > 0
  {
    || (Row(n, a) == Row(n, b) && (Col(n, a) == Col(n, b) + 1 || Col(n, b) == Col(n, a) + 1))
    || (Col(n, a) == Col(n, b) && (Row(n, a) == Row(n, b) + 1 || Row(n, b) == Row(n, a) + 1))
  }

  /** The cell the loop body tries to claim from `cell`: x = 0 the left
      neighbour, 1 the right one, 2 the one a row lower in index, 3 the one a
      row higher; None at the edge of the board. */
  function Neighbour(n: nat, cell: nat, x: nat): Option<nat>
    requires n > 0 && cell < n * n
  {
    // the guards are the source's !left_col, !right_col, !bottom_row, !top_row
    if x == 0 && cell % n != 0 then Some(cell - 1)
    else if x == 1 && cell % n != n - 1 then Some(cell + 1)
    else if x == 2 && !(cell < n) then Some(cell - n)
    else if x == 3 && !(cell >= n * n - n) then Some(cell + n)
    else None
  }

  /** The four directions reach exactly the orthogonal neighbours of a cell
      on the board. */
  lemma NeighbourIsAdjacent(n: nat, cell: nat, t: nat)
    requires n > 0 && cell < n * n
    ensures (exists x :: 0 <= x < 4 && Neighbour(n, cell, x) == Some(t)) <==>
              t < n * n && OrthogonallyAdjacent(n, cell, t)
  {
    if exists x :: 0 <= x < 4 && Neighbour(n, cell, x) == Some(t) {
      var x :| 0 <= x < 4 && Neighbour(n, cell, x) == Some(t);
      NeighbourForward(n, cell, x);
    }
    if t < n * n && OrthogonallyAdjacent(n, cell, t) {
      NeighbourBackward(n, cell, t);
    }
  }

  lemma {:induction false} NeighbourForward(n: nat, cell: nat, x: nat)
    requires n > 0 && cell < n * n
    ensures Neighbour(n, cell, x).Some? ==>
              Neighbour(n, cell, x).value < n * n && OrthogonallyAdjacent(n, cell, Neighbour(n, cell, x).value)
  {
    RowInBoard(n, cell);
    EdgeRows(n, cell);
    var R, C := cell / n, cell % n;
    if x == 0 && C != 0 {
      StepLeft(n, R, C);
    } else if x == 1 && C != n - 1 {
      StepRight(n, R, C);
    } else if x == 2 && !(cell < n) {
      StepUp(n, R, C);
    } else if x == 3 && !(cell >= n * n - n) {
      StepDown(n, R, C);
    }
  }

  lemma {:induction false} NeighbourBackward(n: nat, cell: nat, t: nat)
    requires n > 0 && cell < n * n && t < n * n && OrthogonallyAdjacent(n, cell, t)
    ensures exists x :: 0 <= x < 4 && Neighbour(n, cell, x) == Some(t)
  {
    RowInBoard(n, cell);
    RowInBoard(n, t);
    EdgeRows(n, cell);
    var R, C := cell / n, cell % n;
    var R', C' := t / n, t % n;
    if R' == R && C' + 1 == C {
      StepLeft(n, R, C);
      assert Neighbour(n, cell, 0) == Some(t);
    } else if R' == R && C' == C + 1 {
      StepRight(n, R, C);
      assert Neighbour(n, cell, 1) == Some(t);
    } else if C' == C && R' + 1 == R {
      StepUp(n, R, C);
      assert Neighbour(n, cell, 2) == Some(t);
    } else {
      StepDown(n, R, C);
      assert Neighbour(n, cell, 3) == Some(t);
    }
  }

  /** The four moves from the cell in row R, column C. */
  lemma {:induction false} StepLeft(n: nat, R: nat, C: nat)
    requires R < n && 1 <= C < n
    ensures var cell := R * n + C;
            cell - 1 == R * n + (C - 1) && cell - 1 < n * n && OrthogonallyAdjacent(n, cell, cell - 1)
  {
    DivModUnique(n, R, C);
    DivModUnique(n, R, C - 1);
    IndexInBoard(n, R, C);
  }

  lemma {:induction false} StepRight(n: nat, R: nat, C: nat)
    requires R < n && C + 1 < n
    ensures var cell := R * n + C;
            cell + 1 == R * n + (C + 1) && cell + 1 < n * n && OrthogonallyAdjacent(n, cell, cell + 1)
  {
    DivModUnique(n, R, C);
    DivModUnique(n, R, C + 1);
    IndexInBoard(n, R, C + 1);
  }

  lemma {:induction false} StepUp(n: nat, R: nat, C: nat)
    requires 1 <= R < n && C < n
    ensures var cell := R * n + C;
            cell >= n && cell - n == (R - 1) * n + C && cell - n < n * n && OrthogonallyAdjacent(n, cell, cell - n)
  {
    DivModUnique(n, R, C);
    DivModUnique(n, R - 1, C);
    IndexInBoard(n, R, C);
  }

  lemma {:induction false} StepDown(n: nat, R: nat, C: nat)
    requires R + 1 < n && C < n
    ensures var cell := R * n + C;
            cell + n == (R + 1) * n + C && cell + n < n * n && OrthogonallyAdjacent(n, cell, cell + n)
  {
    DivModUnique(n, R, C);
    DivModUnique(n, R + 1, C);
    IndexInBoard(n, R + 1, C);
  }

  /** The source's edge tests in terms of row and column. */
  lemma {:induction false} EdgeRows(n: nat, r: nat)
    requires n > 0 && r < n * n
    ensures r < n <==> r / n == 0
    ensures r >= n * n - n <==> r / n == n - 1
  {
    RowInBoard(n, r);
    var R := r / n;
    if R >= 1 { MulMonotone(1, R, n); }
    if R + 1 < n { MulMonotone(R + 2, n, n); } else { MulMonotone(n, R + 1, n); }
  }

  // ---------------------------------------------------------------------
  // States and steps
  // ---------------------------------------------------------------------

  /** The shape the loop body relies on: n non-empty areas of on-board
      cells and one flag per cell. */
  predicate Shaped(n: nat, g: GrowthState)
  {
    && n > 0
    && |g.areas| == n
    && |g.placed| == n * n
    && (forall k :: 0 <= k < n ==> |g.areas[k]| > 0)
    && (forall k, i :: 0 <= k < n && 0 <= i < |g.areas[k]| ==> g.areas[k][i] < n * n)
  }

  /** Cell c is listed in some area. */
  ghost predicate Listed(areas: seq<seq<nat>>, c: nat)
  {
    exists k, i :: 0 <= k < |areas| && 0 <= i < |areas[k]| && areas[k][i] == c
  }

  /** No cell is listed twice, in one area or in two. */
  ghost predicate Unique(areas: seq<seq<nat>>)
  {
    forall k1, i1, k2, i2 ::
      && 0 <= k1 < |areas| && 0 <= i1 < |areas[k1]|
      && 0 <= k2 < |areas| && 0 <= i2 < |areas[k2]|
      && areas[k1][i1] == areas[k2][i2]
      ==> k1 == k2 && i1 == i2
  }

  /** Every area grew out of its seed: each cell after the first touches
      an earlier cell of the same area. */
  ghost predicate Grown(n: nat, areas: seq<seq<nat>>)
    requires n > 0
  {
    forall k :: 0 <= k < |areas| ==> Connected(n, areas[k])
  }

  /** Each cell of the list after the first touches one listed before it,
      so the cells form one orthogonally connected region. */
  ghost predicate Connected(n: nat, cells: seq<nat>)
    requires n > 0
  {
    forall i :: 0 < i < |cells| ==> Rooted(n, cells, i)
  }

  /** Cell i of an area touches one listed before it. */
  ghost predicate Rooted(n: nat, cells: seq<nat>, i: nat)
    requires n > 0 && i < |cells|
  {
    exists j :: 0 <= j < i && OrthogonallyAdjacent(n, cells[j], cells[i])
  }

  /** A cell's flag is set exactly when some area lists it. */
  ghost predicate Flagged(n: nat, g: GrowthState)
    requires Shaped(n, g)
  {
    forall c :: 0 <= c < n * n ==> (g.placed[c] <==> Listed(g.areas, c))
  }

  /** The invariant of the growth loop: a flag is set exactly for the listed
      cells, each listed once, `number_placed` counts the flags, and every
      area is connected through its own cells. */
  ghost predicate GrowthInv(n: nat, g: GrowthState)
  {
    && Shaped(n, g)
    && Flagged(n, g)
    && Unique(g.areas)
    && Grown(n, g.areas)
    && g.count == CountTrue(g.placed)
  }

  /** Area k claims cell t. */
  function Claim(g: GrowthState, k: nat, t: nat): GrowthState
    requires k < |g.areas| && t < |g.placed|
  {
    GrowthState(g.areas[k := g.areas[k] + [t]], g.placed[t := true], g.count + 1)
  }

  /** What the growth rule allows: area k (not the last) claims an unplaced
      cell t next to its member i. */
  predicate ClaimAllowed(n: nat, g: GrowthState, k: nat, i: nat, t: nat)
    requires Shaped(n, g)
  {
    k < n - 1 && i < |g.areas[k]| && t < n * n && !g.placed[t] && OrthogonallyAdjacent(n, g.areas[k][i], t)
  }

  /** Member i of area k looks in direction x and claims the neighbour
      there when it exists and is not yet placed. */
  function ClaimAt(n: nat, g: GrowthState, k: nat, i: nat, x: nat): (r: GrowthState)
    requires Shaped(n, g) && k < n - 1 && i < |g.areas[k]| && x < 4
    ensures Shaped(n, r)
    ensures || r == g
            || exists t: nat :: ClaimAllowed(n, g, k, i, t) && r == Claim(g, k, t)
  {
    var cell := g.areas[k][i];
    match Neighbour(n, cell, x)
    case None => g
    case Some(t) =>
      NeighbourForward(n, cell, x);
      if g.placed[t] then g
      else
        assert ClaimAllowed(n, g, k, i, t);
        Claim(g, k, t)
  }

  /** One pass of the loop body: an area other than the last, one of its
      cells and a direction are drawn, each reduced to its range. */
  function GrowStep(n: nat, g: GrowthState, ch: Choice): (r: GrowthState)
    requires n >= 2 && Shaped(n, g)
    ensures Shaped(n, r)
    ensures || r == g
            || exists k: nat, i: nat, t: nat :: ClaimAllowed(n, g, k, i, t) && r == Claim(g, k, t)
  {
    var a := ch.area % (n - 1);
    var i := ch.member % |g.areas[a]|;
    ClaimAt(n, g, a, i, ch.direction % 4)
  }

  /** Conversely, every claim the growth rule allows is made by some draw. */
  lemma GrowStepReaches(n: nat, g: GrowthState, k: nat, i: nat, t: nat)
    requires n >= 2 && Shaped(n, g) && ClaimAllowed(n, g, k, i, t)
    ensures exists ch :: GrowStep(n, g, ch) == Claim(g, k, t)
  {
    NeighbourBackward(n, g.areas[k][i], t);
    var x :| 0 <= x < 4 && Neighbour(n, g.areas[k][i], x) == Some(t);
    assert ClaimAt(n, g, k, i, x) == Claim(g, k, t);
    var ch := Choice(k, i, x);
    ModSmall(k, n - 1);
    ModSmall(i, |g.areas[k]|);
    ModSmall(x, 4);
    assert GrowStep(n, g, ch) == Claim(g, k, t);
  }

  /** Claiming an unplaced cell next to a member keeps the invariant. */
  lemma ClaimKeeps(n: nat, g: GrowthState, k: nat, i: nat, t: nat)
    requires GrowthInv(n, g) && ClaimAllowed(n, g, k, i, t)
    ensures GrowthInv(n, Claim(g, k, t))
  {
    CountSet(g.placed, t);
    ClaimFlagged(n, g, k, i, t);
    ClaimUnique(n, g, k, i, t);
    ClaimGrown(n, g, k, i, t);
  }

  lemma {:induction false} ClaimFlagged(n: nat, g: GrowthState, k: nat, i: nat, t: nat)
    requires Shaped(n, g) && Flagged(n, g) && ClaimAllowed(n, g, k, i, t)
    ensures Shaped(n, Claim(g, k, t)) && Flagged(n, Claim(g, k, t))
  {
    var h := Claim(g, k, t);
    forall c | 0 <= c < n * n
      ensures h.placed[c] <==> Listed(h.areas, c)
    {
      if c == t {
        assert h.areas[k][|g.areas[k]|] == t;
      } else if g.placed[c] {
        var k', i' :| 0 <= k' < |g.areas| && 0 <= i' < |g.areas[k']| && g.areas[k'][i'] == c;
        assert h.areas[k'][i'] == c;
      } else {
        forall k', i' | 0 <= k' < |h.areas| && 0 <= i' < |h.areas[k']|
          ensures h.areas[k'][i'] != c
        {
          if k' != k || i' < |g.areas[k]| {
            assert h.areas[k'][i'] == g.areas[k'][i'];
          }
        }
      }
    }
  }

  lemma {:induction false} ClaimUnique(n: nat, g: GrowthState, k: nat, i: nat, t: nat)
    requires Shaped(n, g) && Flagged(n, g) && Unique(g.areas) && ClaimAllowed(n, g, k, i, t)
    ensures Unique(Claim(g, k, t).areas)
  {
    var h := Claim(g, k, t);
    forall k1, i1, k2, i2 |
      && 0 <= k1 < |h.areas| && 0 <= i1 < |h.areas[k1]|
      && 0 <= k2 < |h.areas| && 0 <= i2 < |h.areas[k2]|
      ensures h.areas[k1][i1] == h.areas[k2][i2] ==> k1 == k2 && i1 == i2
    {
      var new1 := k1 == k && i1 == |g.areas[k]|;
      var new2 := k2 == k && i2 == |g.areas[k]|;
      if !new1 {
        assert h.areas[k1][i1] == g.areas[k1][i1];
        assert g.areas[k1][i1] != t;
      }
      if !new2 {
        assert h.areas[k2][i2] == g.areas[k2][i2];
        assert g.areas[k2][i2] != t;
      }
    }
  }

  lemma {:induction false} ClaimGrown(n: nat, g: GrowthState, k: nat, i: nat, t: nat)
    requires Shaped(n, g) && Grown(n, g.areas) && ClaimAllowed(n, g, k, i, t)
    ensures Grown(n, Claim(g, k, t).areas)
  {
    var h := Claim(g, k, t);
    forall k1 | 0 <= k1 < |h.areas|
      ensures Connected(n, h.areas[k1])
    {
      if k1 == k {
        assert Connected(n, g.areas[k]);
        forall i1 | 0 < i1 < |h.areas[k]|
          ensures Rooted(n, h.areas[k], i1)
        {
          if i1 == |g.areas[k]| {
            assert h.areas[k][i] == g.areas[k][i] && h.areas[k][i1] == t;
            assert OrthogonallyAdjacent(n, h.areas[k][i], h.areas[k][i1]);
          } else {
            assert Rooted(n, g.areas[k], i1);
            var j :| 0 <= j < i1 && OrthogonallyAdjacent(n, g.areas[k][j], g.areas[k][i1]);
            assert h.areas[k][j] == g.areas[k][j] && h.areas[k][i1] == g.areas[k][i1];
          }
        }
      } else {
        assert h.areas[k1] == g.areas[k1];
      }
    }
  }


  /** Area k of `before` is a prefix of area k of `after`, for every k. */
  predicate Extends(before: seq<seq<nat>>, after: seq<seq<nat>>)
  {
    |before| == |after| && forall k :: 0 <= k < |before| ==> before[k] <= after[k]
  }

  /** One step keeps the invariant, leaves the last area alone and only
      appends to the others. */
  lemma GrowStepKeeps(n: nat, g: GrowthState, ch: Choice)
    requires n >= 2 && GrowthInv(n, g)
    ensures var h := GrowStep(n, g, ch);
            && GrowthInv(n, h)
            && h.areas[n - 1] == g.areas[n - 1]
            && Extends(g.areas, h.areas)
            && h.count >= g.count
  {
    var h := GrowStep(n, g, ch);
    if h != g {
      var k: nat, i: nat, t: nat :| ClaimAllowed(n, g, k, i, t) && h == Claim(g, k, t);
      ClaimKeeps(n, g, k, i, t);
      assert forall k' :: 0 <= k' < n ==> g.areas[k'] <= h.areas[k'];
    }
  }

  /** The growth loop: `number_placed < size` is tested before each draw.
      `None` when the supplied draws run out first. */
  function Grow(n: nat, g: GrowthState, choices: seq<Choice>): (r: Option<GrowthState>)
    requires Shaped(n, g) && (n >= 2 || g.count >= n * n)
    ensures r.Some? ==> Shaped(n, r.value) && r.value.count >= n * n
    decreases |choices|
  {
    if g.count >= n * n then Some(g)
    else if |choices| == 0 then None
    else Grow(n, GrowStep(n, g, choices[0]), choices[1..])
  }

  /** A finished growth loop has placed every cell, each in exactly one
      area; every area is connected and extends the area it started from,
      and the last area is untouched. */
  lemma {:induction false} GrowKeeps(n: nat, g: GrowthState, choices: seq<Choice>)
    requires GrowthInv(n, g) && (n >= 2 || g.count >= n * n)
    ensures Grow(n, g, choices).Some? ==>
              var h := Grow(n, g, choices).value;
              && GrowthInv(n, h)
              && (forall c :: 0 <= c < n * n ==> h.placed[c] && Listed(h.areas, c))
              && h.areas[n - 1] == g.areas[n - 1]
              && Extends(g.areas, h.areas)
    decreases |choices|
  {
    if g.count >= n * n {
      CountFull(g.placed);
    } else if |choices| > 0 {
      var g' := GrowStep(n, g, choices[0]);
      GrowStepKeeps(n, g, choices[0]);
      GrowKeeps(n, g', choices[1..]);
      if Grow(n, g, choices).Some? {
        var h := Grow(n, g, choices).value;
        assert forall k :: 0 <= k < n ==> g.areas[k] <= g'.areas[k] <= h.areas[k];
      }
    }
  }
}
