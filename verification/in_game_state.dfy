/** `InGameState` (src/model/state.rs): the grid painted from a layout, the
    layout itself and the keyboard cursor. */
module InGame {
  import opened Wrappers
  import opened Errors
  import opened Tiles
  import opened Grids
  import opened Layouts
  import Board
  import WinStatus
  import LayoutTemplates
  import ComplexTemplate
  import Generator
  import Growth
  import LayoutGenerator

  /** Which layout a new game is built from. */
  datatype LayoutType = Easy | Complex | Generated

  datatype InGameState = InGameState(grid: Grid, layout: Layout, marked: Option<nat>)

  /** Every cell the layout lists is below size. */
  ghost predicate CellsBelow(l: Layout, size: nat)
  {
    forall k, i :: 0 <= k < |l.areas| && 0 <= i < |l.areas[k].cells| ==> l.areas[k].cells[i] < size
  }

  /** The inner loop of `new`: every listed cell gets an unmarked tile of
      the given colour, in list order. */
  function PaintCells(data: seq<Tile>, cells: seq<nat>, color: U8): (r: seq<Tile>)
    requires forall i :: 0 <= i < |cells| ==> cells[i] < |data|
    ensures |r| == |data|
    ensures forall x :: 0 <= x < |data| ==> r[x] == if x in cells then Tile(false, color) else data[x]
    decreases |cells|
  {
    if |cells| == 0 then data
    else PaintCells(data[cells[0] := Tile(false, color)], cells[1..], color)
  }

  /** No area after k lists x. */
  ghost predicate LastHolder(areas: seq<Area>, k: nat, x: nat)
  {
    k < |areas| && x in areas[k].cells && forall j :: k < j < |areas| ==> x !in areas[j].cells
  }

  /** The outer loop of `new`, area after area: a cell listed by several
      areas ends with the colour of the last of them; an unlisted cell keeps
      its tile. */
  function PaintAreas(data: seq<Tile>, areas: seq<Area>): (r: seq<Tile>)
    requires forall k, i :: 0 <= k < |areas| && 0 <= i < |areas[k].cells| ==> areas[k].cells[i] < |data|
    ensures |r| == |data|
    ensures forall x :: 0 <= x < |data| && (forall k :: 0 <= k < |areas| ==> x !in areas[k].cells) ==> r[x] == data[x]
    ensures forall k: nat, x: nat :: LastHolder(areas, k, x) ==> x < |data| && r[x] == Tile(false, areas[k].color)
    decreases |areas|
  {
    if |areas| == 0 then data
    else
      var last := |areas| - 1;
      var front := areas[..last];
      var r := PaintCells(PaintAreas(data, front), areas[last].cells, areas[last].color);
      assert forall k: nat, x: nat :: LastHolder(areas, k, x) && k < last ==> LastHolder(front, k, x);
      assert forall x :: x in areas[last].cells ==> x < |data| by {
        forall x | x in areas[last].cells
          ensures x < |data|
        {
          var i :| 0 <= i < |areas[last].cells| && areas[last].cells[i] == x;
        }
      }
      r
  }

  /** `InGameState::new` on a given layout: a fresh grid of n * n default
      tiles, each listed cell painted unmarked in its area's colour, no
      cursor. `set_tile` panics on a cell off the grid, hence the
      precondition. */
  function NewGame(n: U8, layout: Layout): (s: InGameState)
    requires n * n < 256 && CellsBelow(layout, n * n)
    ensures WellFormed(s.grid) && s.grid.n == n && s.layout == layout && s.marked.None?
  {
    InGameState(Grid(PaintAreas(Grids.New(n).data, layout.areas), n), layout, None)
  }

  /** On a partition every tile is unmarked and carries the colour of the
      one area holding it. */
  lemma NewOnPartition(n: U8, layout: Layout)
    requires n * n < 256 && IsPartition(layout, n * n)
    ensures CellsBelow(layout, n * n)
    ensures forall x :: 0 <= x < n * n ==> !NewGame(n, layout).grid.data[x].marked
    ensures forall k, x :: 0 <= k < |layout.areas| && x in layout.areas[k].cells ==>
              NewGame(n, layout).grid.data[x] == Tile(false, layout.areas[k].color)
  {
    var data := NewGame(n, layout).grid.data;
    forall x | 0 <= x < n * n
      ensures !data[x].marked
    {
      assert InSomeArea(layout, x);
      var k :| 0 <= k < |layout.areas| && x in layout.areas[k].cells;
      OnlyHolder(layout, n * n, k, x);
    }
    forall k, x | 0 <= k < |layout.areas| && x in layout.areas[k].cells
      ensures data[x] == Tile(false, layout.areas[k].color)
    {
      OnlyHolder(layout, n * n, k, x);
    }
  }

  /** In a partition the area holding a cell is its last holder. */
  lemma OnlyHolder(layout: Layout, size: nat, k: nat, x: nat)
    requires IsPartition(layout, size)
    requires k < |layout.areas| && x in layout.areas[k].cells
    ensures LastHolder(layout.areas, k, x)
  {
    var i1 :| 0 <= i1 < |layout.areas[k].cells| && layout.areas[k].cells[i1] == x;
    forall j, i2 | k < j < |layout.areas| && 0 <= i2 < |layout.areas[j].cells|
      ensures layout.areas[j].cells[i2] != x
    {
    }
  }

  /** The layout `new` picks: the row bands, the fixed template (10 by 10
      only) or a generated layout, the last drawn from the supplied
      shuffles and growth choices. */
  function LayoutOf(n: nat, lt: LayoutType, shuffles: seq<seq<nat>>, choices: seq<Growth.Choice>): (r: Option<Layout>)
    requires 0 < n <= 15 && (lt.Complex? ==> n == 10) && Generator.AllOnBoard(n, shuffles)
    ensures !lt.Generated? ==> r.Some?
    ensures r.Some? ==> |r.value.areas| == n && IsPartition(r.value, n * n)
    ensures r.Some? ==> forall k :: 0 <= k < n ==> r.value.areas[k].color == k
  {
    match lt
    case Easy =>
      EasyShape(n);
      Some(LayoutTemplates.EasyLayout(n))
    case Complex =>
      ComplexTemplate.ComplexLayoutPartition();
      Some(ComplexTemplate.ComplexLayout())
    case Generated =>
      GeneratedShape(n, shuffles, choices);
      LayoutGenerator.GenerateLayout(n, shuffles, choices)
  }

  /** The row bands: n areas, area k coloured k, partitioning the board. */
  lemma EasyShape(n: nat)
    requires 0 < n <= 15
    ensures |LayoutTemplates.EasyLayout(n).areas| == n && IsPartition(LayoutTemplates.EasyLayout(n), n * n)
    ensures forall k :: 0 <= k < n ==> LayoutTemplates.EasyLayout(n).areas[k].color == k
  {
    LayoutTemplates.EasyLayoutPartition(n);
    forall k | 0 <= k < n
      ensures LayoutTemplates.EasyLayout(n).areas[k].color == k
    {
      LayoutTemplates.EasyLayoutArea(n, k);
    }
  }

  /** A generated layout: n areas, area k coloured k, partitioning the
      board. */
  lemma GeneratedShape(n: nat, shuffles: seq<seq<nat>>, choices: seq<Growth.Choice>)
    requires 0 < n <= 15 && Generator.AllOnBoard(n, shuffles)
    ensures LayoutGenerator.GenerateLayout(n, shuffles, choices).Some? ==>
              var l := LayoutGenerator.GenerateLayout(n, shuffles, choices).value;
              |l.areas| == n && IsPartition(l, n * n) && forall k :: 0 <= k < n ==> l.areas[k].color == k
  {
    LayoutGenerator.GenerateLayoutValid(n, shuffles, choices);
    var r := LayoutGenerator.GenerateLayout(n, shuffles, choices);
    if r.Some? {
      var l := r.value;
      assert |l.areas| == n && IsPartition(l, n * n);
      forall k | 0 <= k < n
        ensures l.areas[k].color == k
      {
        assert l.areas[k].color == k % 256;
        Board.ModSmall(k, 256);
      }
    }
  }

  /** `InGameState::new(n, layout_type)`. `None` only when a generated
      layout's draws run out. */
  function New(n: U8, lt: LayoutType, shuffles: seq<seq<nat>>, choices: seq<Growth.Choice>): (r: Option<InGameState>)
    requires 0 < n && n * n < 256 && (lt.Complex? ==> n == 10) && Generator.AllOnBoard(n, shuffles)
    ensures !lt.Generated? ==> r.Some?
    ensures r.Some? ==> var s := r.value;
              && WellFormed(s.grid) && s.grid.n == n && s.marked.None?
              && |s.layout.areas| == n && IsPartition(s.layout, n * n)
              && (forall x :: 0 <= x < n * n ==> !s.grid.data[x].marked)
              && (forall k, x :: 0 <= k < n && x in s.layout.areas[k].cells ==> s.grid.data[x] == Tile(false, k))
  {
    Board.SideBound(n);
    match LayoutOf(n, lt, shuffles, choices)
    case None => None
    case Some(l) =>
      NewOnPartition(n, l);
      Some(NewGame(n, l))
  }

  /** `flip_tile(c)`: a cell off the grid is an error; otherwise tile c is
      clicked and nothing else changes. */
  function FlipTile(s: InGameState, c: nat): (r: Result<InGameState, CoordinateError>)
    ensures r.Err? <==> c >= |s.grid.data|
    ensures r.Ok? ==> && r.value.layout == s.layout && r.value.marked == s.marked
                      && r.value.grid.n == s.grid.n && |r.value.grid.data| == |s.grid.data|
                      && r.value.grid.data[c] == OnClick(s.grid.data[c])
                      && forall j :: 0 <= j < |s.grid.data| && j != c ==> r.value.grid.data[j] == s.grid.data[j]
  {
    match GetTile(s.grid, c)
    case Err(e) => Err(e)
    case Ok(t) => Ok(s.(grid := SetTile(s.grid, c, OnClick(t))))
  }

  /** Flipping a tile twice gives the state back. */
  lemma FlipTwice(s: InGameState, c: nat)
    requires c < |s.grid.data|
    ensures FlipTile(FlipTile(s, c).value, c) == Ok(s)
  {
    var t := FlipTile(FlipTile(s, c).value, c).value;
    OnClickInvolution(s.grid.data[c]);
    assert t.grid.data == s.grid.data;
  }

  /** `get_win_status(n)`, comparing the raw colour of each tile. */
  function GetWinStatus(s: InGameState, n: nat): Result<(seq<WinStatus.GameRuleBroken>, bool), QueensError>
    requires n > 0 && |s.grid.data| == n * n
  {
    WinStatus.GetWinStatus(n, s.grid.data, s.layout, WinStatus.Raw)
  }

  /** `get_win_status(n)` as the source compares: by display colour. */
  function GetWinStatusAsWritten(s: InGameState, n: nat): Result<(seq<WinStatus.GameRuleBroken>, bool), QueensError>
    requires n > 0 && |s.grid.data| == n * n
  {
    WinStatus.GetWinStatus(n, s.grid.data, s.layout, WinStatus.Display)
  }

  /** Flip the listed cells one after the other. */
  function MarkCells(s: InGameState, cells: seq<nat>): (r: InGameState)
    requires forall i :: 0 <= i < |cells| ==> cells[i] < |s.grid.data|
    ensures r.layout == s.layout && r.marked == s.marked && r.grid.n == s.grid.n
    ensures |r.grid.data| == |s.grid.data|
    ensures forall x :: 0 <= x < |s.grid.data| ==> r.grid.data[x].color == s.grid.data[x].color
    ensures forall x :: 0 <= x < |s.grid.data| && x !in cells ==> r.grid.data[x] == s.grid.data[x]
    decreases |cells|
  {
    if |cells| == 0 then s
    else MarkCells(FlipTile(s, cells[0]).value, cells[1..])
  }

  /** Flipping distinct unmarked cells marks them and leaves every other
      mark as it was. */
  lemma {:induction false} MarkCellsMarks(s: InGameState, cells: seq<nat>)
    requires forall i :: 0 <= i < |cells| ==> cells[i] < |s.grid.data|
    requires NoDuplicates(cells)
    requires forall i :: 0 <= i < |cells| ==> !s.grid.data[cells[i]].marked
    ensures forall x :: 0 <= x < |s.grid.data| ==>
              (MarkCells(s, cells).grid.data[x].marked <==> s.grid.data[x].marked || x in cells)
    decreases |cells|
  {
    if |cells| > 0 {
      var s' := FlipTile(s, cells[0]).value;
      assert NoDuplicates(cells[1..]) by {
        forall i, j | 0 <= i < j < |cells[1..]|
          ensures cells[1..][i] != cells[1..][j]
        {
          assert cells[1..][i] == cells[i + 1] && cells[1..][j] == cells[j + 1];
        }
      }
      forall i | 0 <= i < |cells[1..]|
        ensures !s'.grid.data[cells[1..][i]].marked
      {
        assert cells[1..][i] == cells[i + 1] && cells[i + 1] != cells[0];
      }
      MarkCellsMarks(s', cells[1..]);
      assert forall x :: x in cells <==> x == cells[0] || x in cells[1..];
    }
  }

  /** From a grid with nothing marked, flipping distinct cells marks
      exactly them. */
  lemma MarkCellsExactly(s: InGameState, cells: seq<nat>)
    requires forall i :: 0 <= i < |cells| ==> cells[i] < |s.grid.data|
    requires NoDuplicates(cells)
    requires forall x :: 0 <= x < |s.grid.data| ==> !s.grid.data[x].marked
    ensures WinStatus.MarksExactly(MarkCells(s, cells).grid.data, cells)
  {
    MarkCellsMarks(s, cells);
  }

  /** Marking the seeds of a freshly painted partition marks exactly the
      seeds, seed k lying on a tile of colour k. */
  lemma SeedsMarked(n: U8, layout: Layout, seeds: seq<nat>)
    requires 0 < n && n * n < 256 && IsPartition(layout, n * n) && |layout.areas| == n
    requires forall k :: 0 <= k < n ==> layout.areas[k].color == k
    requires |seeds| == n && Board.NonAttacking(n, seeds)
    requires forall k :: 0 <= k < n ==> seeds[k] in layout.areas[k].cells
    ensures var data := MarkCells(NewGame(n, layout), seeds).grid.data;
            && |data| == n * n
            && WinStatus.MarksExactly(data, seeds)
            && forall k :: 0 <= k < n ==> data[seeds[k]].color == k
  {
    NewOnPartition(n, layout);
    var s0 := NewGame(n, layout);
    assert NoDuplicates(seeds) by {
      forall a, b | 0 <= a < b < n
        ensures seeds[a] != seeds[b]
      {
        assert !Board.Attacks(n, seeds[a], seeds[b]);
      }
    }
    MarkCellsExactly(s0, seeds);
    var data := MarkCells(s0, seeds).grid.data;
    forall k | 0 <= k < n
      ensures data[seeds[k]].color == k
    {
      assert s0.grid.data[seeds[k]] == Tile(false, k);
    }
  }

  /** Marking one cell of each area, no two attacking each other, on a new
      game over a partition with area k coloured k, wins; by display colour
      too as long as there are at most eleven areas, and never beyond. */
  lemma SeedsWin(n: U8, layout: Layout, seeds: seq<nat>)
    requires 0 < n && n * n < 256 && IsPartition(layout, n * n) && |layout.areas| == n
    requires forall k :: 0 <= k < n ==> layout.areas[k].color == k
    requires |seeds| == n && Board.NonAttacking(n, seeds)
    requires forall k :: 0 <= k < n ==> seeds[k] in layout.areas[k].cells
    ensures var s := MarkCells(NewGame(n, layout), seeds);
            && GetWinStatus(s, n) == Ok(([], true))
            && (n <= 11 ==> GetWinStatusAsWritten(s, n) == Ok(([], true)))
            && (n >= 12 ==> GetWinStatusAsWritten(s, n).Ok? && !GetWinStatusAsWritten(s, n).value.1)
  {
    SeedsMarked(n, layout, seeds);
    var data := MarkCells(NewGame(n, layout), seeds).grid.data;
    MarkedSeedsWin(n, data, layout, seeds, WinStatus.Raw);
    if n <= 11 {
      MarkedSeedsWin(n, data, layout, seeds, WinStatus.Display);
    } else {
      WinStatus.CoveredNeverFails(n, data, layout, WinStatus.Display);
      WinStatus.DisplayNeverWinsFromTwelve(n, data, layout);
    }
  }

  /** A grid whose marks are one cell of each colour, no two attacking,
      is reported won; by display colour only while the colours stay below
      eleven. */
  lemma MarkedSeedsWin(n: nat, data: seq<Tile>, layout: Layout, seeds: seq<nat>, p: WinStatus.Palette)
    requires 0 < n && |data| == n * n && IsPartition(layout, n * n)
    requires |seeds| == n && Board.NonAttacking(n, seeds) && WinStatus.MarksExactly(data, seeds)
    requires forall k :: 0 <= k < n ==> data[seeds[k]].color == k
    requires p.Display? ==> n <= 11
    ensures WinStatus.GetWinStatus(n, data, layout, p) == Ok(([], true))
  {
    forall a, b | 0 <= a < b < n
      ensures WinStatus.ColourKey(p, data[seeds[a]].color) != WinStatus.ColourKey(p, data[seeds[b]].color)
    {
    }
    WinStatus.WinningOfCells(n, p, data, seeds);
    WinStatus.WinningReported(n, data, layout, p);
  }

  /** The generator's promise carried to play: a generated game can be won
      by marking the seeds, one per area. */
  lemma GeneratedGameWinnable(n: U8, shuffles: seq<seq<nat>>, choices: seq<Growth.Choice>)
    requires 0 < n && n * n < 256 && Generator.AllOnBoard(n, shuffles)
    ensures New(n, Generated, shuffles, choices).Some? ==>
              var s := New(n, Generated, shuffles, choices).value;
              exists seeds ::
                && |seeds| == n && Board.NonAttacking(n, seeds)
                && (forall k :: 0 <= k < n ==> seeds[k] in s.layout.areas[k].cells)
                && GetWinStatus(MarkCells(s, seeds), n) == Ok(([], true))
                && (n <= 11 ==> GetWinStatusAsWritten(MarkCells(s, seeds), n) == Ok(([], true)))
                && (n >= 12 ==> GetWinStatusAsWritten(MarkCells(s, seeds), n).Ok?
                                && !GetWinStatusAsWritten(MarkCells(s, seeds), n).value.1)
  {
    if New(n, Generated, shuffles, choices).Some? {
      var s := New(n, Generated, shuffles, choices).value;
      var l := s.layout;
      LayoutGenerator.GenerateLayoutValid(n, shuffles, choices);
      assert l == LayoutGenerator.GenerateLayout(n, shuffles, choices).value;
      var seeds :| LayoutGenerator.SeededBy(n, l, seeds);
      forall k | 0 <= k < n
        ensures seeds[k] in l.areas[k].cells
      {
        assert l.areas[k].cells[0] == seeds[k];
      }
      Board.SideBound(n);
      GeneratedShape(n, shuffles, choices);
      SeedsWin(n, l, seeds);
      assert s == NewGame(n, l);
    }
  }

  /** Column of the mark in row k of the twelve-row example: 0, 2, .., 10
      in the top half and 1, 3, .., 11 in the bottom half. */
  function TwelveColumn(k: nat): nat
  {
    if k < 6 then 2 * k else 2 * k - 11
  }

  /** The cells 0, 14, 28, 42, 56, 70, 73, 87, 101, 115, 129, 143 of a
      12 by 12 board. */
  function TwelveMarks(): (cells: seq<nat>)
    ensures |cells| == 12
  {
    seq(12, k requires 0 <= k < 12 => 12 * k + TwelveColumn(k))
  }

  /** One mark per row and per column, no two touching at a corner. */
  lemma TwelveMarksNonAttacking()
    ensures Board.NonAttacking(12, TwelveMarks())
    ensures forall k :: 0 <= k < 12 ==> Board.Row(12, TwelveMarks()[k]) == k
  {
    var cells := TwelveMarks();
    forall k | 0 <= k < 12
      ensures cells[k] < 144 && Board.Row(12, cells[k]) == k && Board.Col(12, cells[k]) == TwelveColumn(k)
    {
      Board.DivModUnique(12, k, TwelveColumn(k));
      Board.IndexInBoard(12, k, TwelveColumn(k));
    }
  }

  /** The twelve marks on the 12 by 12 row bands: a solution, reported won
      when raw colours are compared and not won as the source compares. */
  lemma RowBandsTwelve()
    ensures var s := MarkCells(New(12, Easy, [], []).value, TwelveMarks());
            && GetWinStatus(s, 12) == Ok(([], true))
            && GetWinStatusAsWritten(s, 12).Ok?
            && !GetWinStatusAsWritten(s, 12).value.1
  {
    RowBandsTwelveWon();
    RowBandsTwelveLost();
  }

  /** The row-band game: `new` with the easy layout paints the row bands,
      band k coloured k, which partition the board. */
  lemma EasyGame(n: U8)
    requires 0 < n && n * n < 256
    ensures var l := LayoutTemplates.EasyLayout(n);
            && |l.areas| == n && IsPartition(l, n * n)
            && (forall k :: 0 <= k < n ==> l.areas[k].color == k)
            && New(n, Easy, [], []).Some?
            && New(n, Easy, [], []).value == NewGame(n, l)
  {
    EasyShape(n);
  }

  /** Mark k of the twelve lies in row band k. */
  lemma TwelveMarksInBands()
    ensures forall k :: 0 <= k < 12 ==> TwelveMarks()[k] in LayoutTemplates.EasyLayout(12).areas[k].cells
  {
    TwelveMarksNonAttacking();
    forall k | 0 <= k < 12
      ensures TwelveMarks()[k] in LayoutTemplates.EasyLayout(12).areas[k].cells
    {
      LayoutTemplates.EasyLayoutMembers(12, k, TwelveMarks()[k]);
    }
  }

  lemma RowBandsTwelveWon()
    ensures GetWinStatus(MarkCells(New(12, Easy, [], []).value, TwelveMarks()), 12) == Ok(([], true))
  {
    EasyGame(12);
    TwelveMarksInBands();
    TwelveMarksNonAttacking();
    SeedsWin(12, LayoutTemplates.EasyLayout(12), TwelveMarks());
  }

  lemma RowBandsTwelveLost()
    ensures var s := MarkCells(New(12, Easy, [], []).value, TwelveMarks());
            GetWinStatusAsWritten(s, 12).Ok? && !GetWinStatusAsWritten(s, 12).value.1
  {
    EasyGame(12);
    TwelveMarksInBands();
    TwelveMarksNonAttacking();
    DisplayLosesAtTwelve(New(12, Easy, [], []).value, TwelveMarks());
  }

  /** On a covered board of side 12, whatever is marked, the display-colour
      comparison reports no win. */
  lemma DisplayLosesAtTwelve(g: InGameState, cells: seq<nat>)
    requires |g.grid.data| == 144 && IsPartition(g.layout, 144)
    requires forall i :: 0 <= i < |cells| ==> cells[i] < 144
    ensures var s := MarkCells(g, cells);
            GetWinStatusAsWritten(s, 12).Ok? && !GetWinStatusAsWritten(s, 12).value.1
  {
    var s := MarkCells(g, cells);
    WinStatus.CoveredNeverFails(12, s.grid.data, s.layout, WinStatus.Display);
    WinStatus.DisplayNeverWinsFromTwelve(12, s.grid.data, s.layout);
  }
}
