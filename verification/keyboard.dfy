/** The keyboard handling of the game screen
    (src/view/in_game/in_game_ui.rs, `handle_keyboard_input`): arrow keys
    move the cursor, with the command/ctrl modifier jumping to the edge;
    Escape clears the cursor or asks for a fresh game; Space or Enter
    clicks the tile under the cursor. */
module Keyboard {
  import opened Wrappers
  import opened Errors
  import opened Board
  import opened Tiles
  import InGame

  datatype Arrow = Right | Left | Down | Up

  /** The cursor arithmetic on a linear index, in `usize` as written; each
      subtraction is on a value at least as large, so none underflows. */
  function Step(n: nat, a: Arrow, ctrl: bool, c: nat): nat
    requires n > 0
  {
    DivModFacts(n, c);
    match a
    case Right =>
      if ctrl then (if c % n == n - 1 then c else c + (n - c % n) - 1)
      else (if c % n == n - 1 then c + 1 - n else c + 1)
    case Left =>
      if ctrl then (if c % n == 0 then c else c - c % n)
      else (if c % n == 0 then c + n - 1 else c - 1)
    case Down =>
      if ctrl then (if c >= n * (n - 1) then c else n * (n - 1) + c % n)
      else (if c >= n * (n - 1) then c + n - n * n else c + n)
    case Up =>
      if ctrl then (if c < n then c else c % n)
      else (if c < n then c + n * (n - 1) else c - n)
  }

  lemma DivModFacts(n: nat, c: nat)
    requires n > 0
    ensures c % n <= c
    ensures n * (n - 1) + n == n * n
  {
  }

  /** The new cursor: 0 when there was none, else one step. */
  function Moved(n: nat, a: Arrow, ctrl: bool, marked: Option<nat>): nat
    requires n > 0
  {
    match marked
    case None => 0
    case Some(c) => Step(n, a, ctrl, c)
  }

  /** Right stays in the row: plain moves one column, wrapping from the
      last column to the first; with ctrl it jumps to the last column. */
  lemma StepRight(n: nat, ctrl: bool, c: nat)
    requires n > 0 && c < n * n
    ensures var r := Step(n, Right, ctrl, c);
            && r < n * n && Row(n, r) == Row(n, c)
            && Col(n, r) == if ctrl then n - 1 else if Col(n, c) == n - 1 then 0 else Col(n, c) + 1
  {
    LastRow(n, c);
    var R, C := Row(n, c), Col(n, c);
    if ctrl { Lands(n, R, n - 1); }
    else if C == n - 1 { Lands(n, R, 0); }
    else { Lands(n, R, C + 1); }
  }

  /** Left stays in the row: plain moves one column back, wrapping from the
      first column to the last; with ctrl it jumps to the first column. */
  lemma StepLeft(n: nat, ctrl: bool, c: nat)
    requires n > 0 && c < n * n
    ensures var r := Step(n, Left, ctrl, c);
            && r < n * n && Row(n, r) == Row(n, c)
            && Col(n, r) == if ctrl then 0 else if Col(n, c) == 0 then n - 1 else Col(n, c) - 1
  {
    LastRow(n, c);
    var R, C := Row(n, c), Col(n, c);
    var r := Step(n, Left, ctrl, c);
    if ctrl {
      assert r == R * n + 0;
      Lands(n, R, 0);
    } else if C == 0 {
      assert r == R * n + (n - 1);
      Lands(n, R, n - 1);
    } else {
      assert r == R * n + (C - 1);
      Lands(n, R, C - 1);
    }
  }

  /** The next row starts n cells later. */
  lemma NextRow(n: nat, row: nat)
    ensures (row + 1) * n == row * n + n
  {
  }

  /** Down stays in the column: plain moves one row, wrapping from the
      bottom row to the top; with ctrl it jumps to the bottom row. */
  lemma StepDown(n: nat, ctrl: bool, c: nat)
    requires n > 0 && c < n * n
    ensures var r := Step(n, Down, ctrl, c);
            && r < n * n && Col(n, r) == Col(n, c)
            && Row(n, r) == if ctrl then n - 1 else if Row(n, c) == n - 1 then 0 else Row(n, c) + 1
  {
    LastRow(n, c);
    var R, C := Row(n, c), Col(n, c);
    var r := Step(n, Down, ctrl, c);
    NextRow(n, n - 1);
    if ctrl {
      assert r == (n - 1) * n + C;
      Lands(n, n - 1, C);
    } else if R == n - 1 {
      assert r == 0 * n + C;
      Lands(n, 0, C);
    } else {
      NextRow(n, R);
      assert r == (R + 1) * n + C;
      Lands(n, R + 1, C);
    }
  }

  /** Up stays in the column: plain moves one row up, wrapping from the top
      row to the bottom; with ctrl it jumps to the top row. */
  lemma StepUp(n: nat, ctrl: bool, c: nat)
    requires n > 0 && c < n * n
    ensures var r := Step(n, Up, ctrl, c);
            && r < n * n && Col(n, r) == Col(n, c)
            && Row(n, r) == if ctrl then 0 else if Row(n, c) == 0 then n - 1 else Row(n, c) - 1
  {
    LastRow(n, c);
    var R, C := Row(n, c), Col(n, c);
    var r := Step(n, Up, ctrl, c);
    NextRow(n, n - 1);
    if ctrl {
      assert r == 0 * n + C;
      Lands(n, 0, C);
    } else if R == 0 {
      assert r == (n - 1) * n + C;
      Lands(n, n - 1, C);
    } else {
      NextRow(n, R - 1);
      assert r == (R - 1) * n + C;
      Lands(n, R - 1, C);
    }
  }

  /** Every step keeps a cursor on the board. */
  lemma StepOnBoard(n: nat, a: Arrow, ctrl: bool, c: nat)
    requires n > 0 && c < n * n
    ensures Step(n, a, ctrl, c) < n * n
  {
    match a
    case Right => StepRight(n, ctrl, c);
    case Left => StepLeft(n, ctrl, c);
    case Down => StepDown(n, ctrl, c);
    case Up => StepUp(n, ctrl, c);
  }

  /** The cell at (row, col) of the board. */
  lemma Lands(n: nat, row: nat, col: nat)
    requires row < n && col < n
    ensures row * n + col < n * n && Row(n, row * n + col) == row && Col(n, row * n + col) == col
  {
    DivModUnique(n, row, col);
    IndexInBoard(n, row, col);
  }

  /** The source's bottom-row and top-row tests in terms of the row. */
  lemma LastRow(n: nat, c: nat)
    requires n > 0 && c < n * n
    ensures c >= n * (n - 1) <==> Row(n, c) == n - 1
    ensures c < n <==> Row(n, c) == 0
    ensures c == Row(n, c) * n + Col(n, c)
    ensures Row(n, c) < n && Col(n, c) < n
  {
    RowInBoard(n, c);
    var R := Row(n, c);
    if R == n - 1 {
      assert c == (n - 1) * n + Col(n, c);
    } else {
      MulMonotone(R + 1, n - 1, n);
    }
    if R >= 1 {
      MulMonotone(1, R, n);
    }
  }

  /** A cell is fixed by its row and column. */
  lemma SameCell(n: nat, a: nat, b: nat)
    requires n > 0 && a < n * n && b < n * n
    requires Row(n, a) == Row(n, b) && Col(n, a) == Col(n, b)
    ensures a == b
  {
    RowInBoard(n, a);
    RowInBoard(n, b);
  }

  /** Left undoes Right and Right undoes Left. */
  lemma RightLeftInverse(n: nat, c: nat)
    requires n > 0 && c < n * n
    ensures Step(n, Left, false, Step(n, Right, false, c)) == c
    ensures Step(n, Right, false, Step(n, Left, false, c)) == c
  {
    StepRight(n, false, c);
    StepLeft(n, false, Step(n, Right, false, c));
    SameCell(n, Step(n, Left, false, Step(n, Right, false, c)), c);
    StepLeft(n, false, c);
    StepRight(n, false, Step(n, Left, false, c));
    SameCell(n, Step(n, Right, false, Step(n, Left, false, c)), c);
  }

  /** Up undoes Down and Down undoes Up. */
  lemma DownUpInverse(n: nat, c: nat)
    requires n > 0 && c < n * n
    ensures Step(n, Up, false, Step(n, Down, false, c)) == c
    ensures Step(n, Down, false, Step(n, Up, false, c)) == c
  {
    StepDown(n, false, c);
    StepUp(n, false, Step(n, Down, false, c));
    SameCell(n, Step(n, Up, false, Step(n, Down, false, c)), c);
    StepUp(n, false, c);
    StepDown(n, false, Step(n, Up, false, c));
    SameCell(n, Step(n, Down, false, Step(n, Up, false, c)), c);
  }

  /** A ctrl jump to an edge, repeated, stays put. */
  lemma CtrlIdempotent(n: nat, a: Arrow, c: nat)
    requires n > 0 && c < n * n
    ensures Step(n, a, true, Step(n, a, true, c)) == Step(n, a, true, c)
  {
    var r := Step(n, a, true, c);
    match a {
      case Right => StepRight(n, true, c); StepRight(n, true, r);
      case Left => StepLeft(n, true, c); StepLeft(n, true, r);
      case Down => StepDown(n, true, c); StepDown(n, true, r);
      case Up => StepUp(n, true, c); StepUp(n, true, r);
    }
    SameCell(n, Step(n, a, true, r), r);
  }

  /** The keys pressed in one frame. */
  datatype Keys = Keys(right: bool, left: bool, down: bool, up: bool, escape: bool, confirm: bool, ctrl: bool)

  /** The four arrow checks in source order; each pressed arrow sets the
      cursor. Without a cursor the first pressed arrow starts it at 0, and
      any later arrow of the same frame moves on from there. */
  function Arrows(n: nat, k: Keys, marked: Option<nat>): (r: Option<nat>)
    requires n > 0
    ensures r.Some? <==> marked.Some? || k.right || k.left || k.down || k.up
    ensures !(k.right || k.left || k.down || k.up) ==> r == marked
    ensures marked.None? && k.right && !(k.left || k.down || k.up) ==> r == Some(0)
    ensures marked.None? && k.left && !(k.right || k.down || k.up) ==> r == Some(0)
    ensures marked.None? && k.down && !(k.right || k.left || k.up) ==> r == Some(0)
    ensures marked.None? && k.up && !(k.right || k.left || k.down) ==> r == Some(0)
    ensures marked.None? && k.right && k.left && !(k.down || k.up) ==> r == Some(Step(n, Left, k.ctrl, 0))
  {
    var m1 := if k.right then Some(Moved(n, Right, k.ctrl, marked)) else marked;
    var m2 := if k.left then Some(Moved(n, Left, k.ctrl, m1)) else m1;
    var m3 := if k.down then Some(Moved(n, Down, k.ctrl, m2)) else m2;
    if k.up then Some(Moved(n, Up, k.ctrl, m3)) else m3
  }

  /** A cursor on the board stays on the board. */
  lemma ArrowsOnBoard(n: nat, k: Keys, marked: Option<nat>)
    requires n > 0 && (marked.Some? ==> marked.value < n * n)
    ensures Arrows(n, k, marked).Some? ==> Arrows(n, k, marked).value < n * n
  {
    assert 0 < n * n;
    var m1 := if k.right then Some(Moved(n, Right, k.ctrl, marked)) else marked;
    if marked.Some? { StepOnBoard(n, Right, k.ctrl, marked.value); }
    var m2 := if k.left then Some(Moved(n, Left, k.ctrl, m1)) else m1;
    if m1.Some? { StepOnBoard(n, Left, k.ctrl, m1.value); }
    var m3 := if k.down then Some(Moved(n, Down, k.ctrl, m2)) else m2;
    if m2.Some? { StepOnBoard(n, Down, k.ctrl, m2.value); }
    if m3.Some? { StepOnBoard(n, Up, k.ctrl, m3.value); }
  }

  /** Whether the grid and cursor fit a board of side n. */
  predicate Fits(n: nat, s: InGame.InGameState)
  {
    n > 0 && |s.grid.data| == n * n && (s.marked.Some? ==> s.marked.value < n * n)
  }

  /** `handle_keyboard_input`: arrows, then Escape (clear the cursor, or
      `RefreshRequested` when there is none), then Space/Enter (click the
      tile under the cursor; the `expect` cannot fail on a cursor on the
      board). */
  function HandleKeyboard(n: nat, s: InGame.InGameState, k: Keys): (r: Result<InGame.InGameState, QueensError>)
    requires Fits(n, s)
  {
    var m := Arrows(n, k, s.marked);
    if k.escape && m.None? then Err(RefreshRequested)
    else
      var s' := s.(marked := if k.escape then None else m);
      if k.confirm && s'.marked.Some? then
        ArrowsOnBoard(n, k, s.marked);
        Ok(InGame.FlipTile(s', s'.marked.value).value)
      else Ok(s')
  }

  /** What a frame's keys do: an error exactly when Escape finds no cursor
      (and no arrow made one); otherwise the layout stays, the cursor is the
      arrows' result or cleared by Escape and stays on the board, and the
      grid changes only by a click on the tile under the cursor when Space
      or Enter is pressed. */
  lemma HandleKeyboardEffect(n: nat, s: InGame.InGameState, k: Keys)
    requires Fits(n, s)
    ensures var r := HandleKeyboard(n, s, k);
            && (r.Err? <==> k.escape && s.marked.None? && !(k.right || k.left || k.down || k.up))
            && (r.Err? ==> r.error == RefreshRequested)
            && (r.Ok? ==>
                  && Fits(n, r.value)
                  && r.value.layout == s.layout && r.value.grid.n == s.grid.n
                  && r.value.marked == (if k.escape then None else Arrows(n, k, s.marked))
                  && (forall x :: 0 <= x < n * n && !(k.confirm && r.value.marked == Some(x)) ==>
                        r.value.grid.data[x] == s.grid.data[x])
                  && (forall x :: 0 <= x < n * n && k.confirm && r.value.marked == Some(x) ==>
                        r.value.grid.data[x] == OnClick(s.grid.data[x])))
  {
    ArrowsOnBoard(n, k, s.marked);
  }
}
