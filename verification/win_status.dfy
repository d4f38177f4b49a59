/** `InGameState::get_win_status` (src/model/state.rs): one pass over the
    tiles in index order. The first marked tile of a row, a column or a
    colour is recorded silently and every later one reports a violation;
    from each marked tile the two diagonal neighbours below it are looked
    at. */
module WinStatus {
  import opened Wrappers
  import opened Errors
  import opened Tiles
  import opened Layouts
  import Board
  import SeedPicker

  /** `GameRuleBroken` (src/model/game_rule_broken.rs). */
  datatype GameRuleBroken =
    | Row(row: nat)
    | Column(col: nat)
    | AreaRule(area: Area)
    | Diagonal(c1: nat, c2: nat)

  /** Which colour of a tile the checker compares. The source compares the
      display colour (`get_color`), which is one of ten palette entries for
      raw colours 0 .. 9 and the same GRAY for every other raw colour;
      `Raw` compares the raw colour (`get_raw_color`). */
  datatype Palette = Display | Raw

  /** The colour as compared: the palette entry (GRAY written 10) or the
      raw colour. */
  function ColourKey(p: Palette, c: U8): (k: nat)
    ensures p.Display? ==> k <= 10 && (c < 10 ==> k == c)
    ensures p.Display? && c >= 10 ==> k == 10
    ensures p.Raw? ==> k == c
  {
    if p.Raw? then c else if c < 10 then c else 10
  }

  /** The three lists the pass keeps besides the violations. */
  datatype Scan = Scan(errors: seq<GameRuleBroken>, rows: seq<nat>, cols: seq<nat>, colors: seq<nat>)

  /** `if seen.contains(v) { report } else { seen.push(v) }`: the list part. */
  function Record(seen: seq<nat>, v: nat): seq<nat>
  {
    if v in seen then seen else seen + [v]
  }

  /** ... and the violation part. */
  function Flag(seen: seq<nat>, v: nat, e: GameRuleBroken): seq<GameRuleBroken>
  {
    if v in seen then [e] else []
  }

  /** The below-right check: skipped in the last column and off the grid. */
  function BelowRight(n: nat, data: seq<Tile>, index: nat): seq<GameRuleBroken>
    requires n > 0
  {
    if index % n != n - 1 && index + n + 1 < |data| && data[index + n + 1].marked
    then [Diagonal(index, index + n + 1)] else []
  }

  /** The below-left check: skipped in column 0 and off the grid. */
  function BelowLeft(n: nat, data: seq<Tile>, index: nat): seq<GameRuleBroken>
    requires n > 0
  {
    if index % n != 0 && index + n - 1 < |data| && data[index + n - 1].marked
    then [Diagonal(index, index + n - 1)] else []
  }

  /** The area violation of a repeated colour names the area holding the
      tile; the lookup's error aborts the whole pass. */
  function AreaErrors(layout: Layout, index: nat, repeated: bool): (r: Result<seq<GameRuleBroken>, QueensError>)
    ensures !repeated ==> r == Ok([])
    ensures repeated && r.Ok? ==> |r.value| == 1 && r.value[0].AreaRule? && index in r.value[0].area.cells
    ensures r.Err? <==> repeated && GetArea(layout, index).Err?
  {
    if !repeated then Ok([])
    else
      match GetArea(layout, index)
      case Ok(a) => Ok([AreaRule(a)])
      case Err(e) => Err(e)
  }

  /** The loop body for tile `index`. `split_coordinate` is taken to give
      (col, row) = (index % n, index / n), and `merge_coordinate` to invert
      it, as the grid's drawing and the arrow keys use them. */
  function Visit(n: nat, data: seq<Tile>, layout: Layout, p: Palette, index: nat, s: Scan): Result<Scan, QueensError>
    requires n > 0 && index < |data|
  {
    if !data[index].marked then Ok(s)
    else
      var row := index / n;
      var col := index % n;
      var key := ColourKey(p, data[index].color);
      var area :- AreaErrors(layout, index, key in s.colors);
      Ok(Scan(s.errors + Flag(s.rows, row, Row(row)) + Flag(s.cols, col, Column(col)) + area
                + BelowRight(n, data, index) + BelowLeft(n, data, index),
              Record(s.rows, row), Record(s.cols, col), Record(s.colors, key)))
  }

  /** The pass over tiles 0 .. k-1. */
  function ScanPrefix(n: nat, data: seq<Tile>, layout: Layout, p: Palette, k: nat): Result<Scan, QueensError>
    requires n > 0 && k <= |data|
    decreases k
  {
    if k == 0 then Ok(Scan([], [], [], []))
    else
      var s :- ScanPrefix(n, data, layout, p, k - 1);
      Visit(n, data, layout, p, k - 1, s)
  }

  /** `get_win_status(n)`: the violations, and whether the game is won:
      n rows, n columns and n colours seen and no violation. */
  function GetWinStatus(n: nat, data: seq<Tile>, layout: Layout, p: Palette): Result<(seq<GameRuleBroken>, bool), QueensError>
    requires n > 0 && |data| == n * n
  {
    var s :- ScanPrefix(n, data, layout, p, |data|);
    Ok((s.errors, |s.rows| == n && |s.cols| == n && |s.colors| == n && |s.errors| == 0))
  }

  // ---------------------------------------------------------------------
  // The reference: what a winning marking is, stated without the pass
  // ---------------------------------------------------------------------

  /** The three things the pass keeps lists of. */
  datatype Feature = RowOf | ColumnOf | ColourOf

  /** The row, column or compared colour of tile i. */
  function Value(f: Feature, n: nat, p: Palette, data: seq<Tile>, i: nat): nat
    requires n > 0 && i < |data|
  {
    match f
    case RowOf => i / n
    case ColumnOf => i % n
    case ColourOf => ColourKey(p, data[i].color)
  }

  /** The list the pass keeps for a feature. */
  function Seen(s: Scan, f: Feature): seq<nat>
  {
    match f
    case RowOf => s.rows
    case ColumnOf => s.cols
    case ColourOf => s.colors
  }

  /** The violation a repeated feature produces. */
  predicate Reports(e: GameRuleBroken, f: Feature)
  {
    match f
    case RowOf => e.Row?
    case ColumnOf => e.Column?
    case ColourOf => e.AreaRule?
  }

  /** The number of violations of one kind. */
  function Tally(errs: seq<GameRuleBroken>, f: Feature): (t: nat)
    ensures t <= |errs|
  {
    if |errs| == 0 then 0 else (if Reports(errs[0], f) then 1 else 0) + Tally(errs[1..], f)
  }

  /** The number of marked tiles among the first k. */
  function MarkedBefore(data: seq<Tile>, k: nat): (m: nat)
    requires k <= |data|
    ensures m <= k
  {
    if k == 0 then 0 else MarkedBefore(data, k - 1) + (if data[k - 1].marked then 1 else 0)
  }

  /** Some marked tile before k has value v. */
  ghost predicate SeenBefore(f: Feature, n: nat, p: Palette, data: seq<Tile>, k: nat, v: nat)
    requires n > 0 && k <= |data|
  {
    exists i :: 0 <= i < k && data[i].marked && Value(f, n, p, data, i) == v
  }

  /** Marked tiles before k differ pairwise in the feature. */
  ghost predicate DistinctBefore(f: Feature, n: nat, p: Palette, data: seq<Tile>, k: nat)
    requires n > 0 && k <= |data|
  {
    forall i, j :: 0 <= i < j < k && data[i].marked && data[j].marked ==> Value(f, n, p, data, i) != Value(f, n, p, data, j)
  }

  /** The number of marked tiles before k whose value an earlier marked
      tile already has. */
  ghost function Repeats(f: Feature, n: nat, p: Palette, data: seq<Tile>, k: nat): nat
    requires n > 0 && k <= |data|
  {
    if k == 0 then 0
    else Repeats(f, n, p, data, k - 1)
         + (if data[k - 1].marked && SeenBefore(f, n, p, data, k - 1, Value(f, n, p, data, k - 1)) then 1 else 0)
  }

  /** c2 is the below-right or below-left neighbour of c1 that the pass looks
      at. */
  predicate Below(n: nat, c1: nat, c2: nat)
    requires n > 0
  {
    (c1 % n != n - 1 && c2 == c1 + n + 1) || (c1 % n != 0 && c2 == c1 + n - 1)
  }

  /** The diagonal violations of the first k tiles are exactly the marked
      pairs (c1, c2) with c1 before k and c2 below c1. */
  ghost predicate DiagonalsBefore(n: nat, data: seq<Tile>, k: nat, errs: seq<GameRuleBroken>)
    requires n > 0 && k <= |data|
  {
    forall c1: nat, c2: nat :: Diagonal(c1, c2) in errs <==>
      c1 < k && c2 < |data| && data[c1].marked && data[c2].marked && Below(n, c1, c2)
  }

  /** What the pass has built after k tiles: each list holds each value of a
      marked tile once; every marked tile whose value is already listed
      adds one violation of that kind; the diagonal violations are the
      marked pairs found below the tiles seen. */
  ghost predicate ScanInv(n: nat, data: seq<Tile>, p: Palette, k: nat, s: Scan)
    requires n > 0 && k <= |data|
  {
    && (forall f :: |Seen(s, f)| + Tally(s.errors, f) == MarkedBefore(data, k))
    && (forall f, v :: v in Seen(s, f) <==> SeenBefore(f, n, p, data, k, v))
    && (forall f :: NoDuplicates(Seen(s, f)))
    && (forall f :: Tally(s.errors, f) == 0 <==> DistinctBefore(f, n, p, data, k))
    && (forall f :: Tally(s.errors, f) == Repeats(f, n, p, data, k))
    && DiagonalsBefore(n, data, k, s.errors)
    && (forall c1: nat, c2: nat :: multiset(s.errors)[Diagonal(c1, c2)] <= 1)
  }

  // ---------------------------------------------------------------------
  // One step of the pass
  // ---------------------------------------------------------------------

  lemma {:induction false} TallyAppend(a: seq<GameRuleBroken>, b: seq<GameRuleBroken>, f: Feature)
    ensures Tally(a + b, f) == Tally(a, f) + Tally(b, f)
    decreases |a|
  {
    if |a| == 0 {
      assert a + b == b;
    } else {
      assert (a + b)[0] == a[0];
      assert (a + b)[1..] == a[1..] + b;
      TallyAppend(a[1..], b, f);
    }
  }

  /** A visit adds one violation of a kind exactly when the tile is marked
      and its value is already listed, and lists the value otherwise. */
  lemma VisitTally(n: nat, data: seq<Tile>, layout: Layout, p: Palette, k: nat, s: Scan, f: Feature)
    requires n > 0 && k < |data| && Visit(n, data, layout, p, k, s).Ok?
    ensures var s' := Visit(n, data, layout, p, k, s).value;
            var v := Value(f, n, p, data, k);
            && Seen(s', f) == (if data[k].marked then Record(Seen(s, f), v) else Seen(s, f))
            && Tally(s'.errors, f) == Tally(s.errors, f) + (if data[k].marked && v in Seen(s, f) then 1 else 0)
  {
    if data[k].marked {
      var row := k / n;
      var col := k % n;
      var key := ColourKey(p, data[k].color);
      var area := AreaErrors(layout, k, key in s.colors).value;
      var a := Flag(s.rows, row, Row(row));
      var b := Flag(s.cols, col, Column(col));
      var d := BelowRight(n, data, k);
      var e := BelowLeft(n, data, k);
      assert Visit(n, data, layout, p, k, s).value.errors == s.errors + a + b + area + d + e;
      TallyPieces(s.errors, a, b, area, d, e, f);
      assert Tally(a, f) == (if row in s.rows && Reports(Row(row), f) then 1 else 0) by {
        PieceTally(a, Row(row), row in s.rows, f);
      }
      assert Tally(b, f) == (if col in s.cols && Reports(Column(col), f) then 1 else 0) by {
        PieceTally(b, Column(col), col in s.cols, f);
      }
      assert Tally(area, f) == (if key in s.colors && Reports(area[0], f) then 1 else 0) by {
        if key in s.colors {
          PieceTally(area, area[0], true, f);
        }
      }
      assert Tally(d, f) == 0 by {
        PieceTally(d, Diagonal(k, k + n + 1), |d| == 1, f);
      }
      assert Tally(e, f) == 0 by {
        PieceTally(e, Diagonal(k, k + n - 1), |e| == 1, f);
      }
    }
  }

  /** The violations of a visit, piece by piece. */
  lemma TallyPieces(x: seq<GameRuleBroken>, a: seq<GameRuleBroken>, b: seq<GameRuleBroken>,
                    c: seq<GameRuleBroken>, d: seq<GameRuleBroken>, e: seq<GameRuleBroken>, f: Feature)
    ensures Tally(x + a + b + c + d + e, f)
            == Tally(x, f) + Tally(a, f) + Tally(b, f) + Tally(c, f) + Tally(d, f) + Tally(e, f)
  {
    TallyAppend(x + a + b + c + d, e, f);
    TallyAppend(x + a + b + c, d, f);
    TallyAppend(x + a + b, c, f);
    TallyAppend(x + a, b, f);
    TallyAppend(x, a, f);
  }

  /** A piece that is one violation or none. */
  lemma PieceTally(piece: seq<GameRuleBroken>, e: GameRuleBroken, present: bool, f: Feature)
    requires piece == if present then [e] else []
    ensures Tally(piece, f) == if present && Reports(e, f) then 1 else 0
  {
    if present {
      assert piece[1..] == [];
    }
  }

  /** A visit adds the diagonal violations between the tile, if marked, and
      its marked neighbours below. */
  lemma VisitDiagonals(n: nat, data: seq<Tile>, layout: Layout, p: Palette, k: nat, s: Scan)
    requires n > 0 && k < |data| && Visit(n, data, layout, p, k, s).Ok?
    ensures forall c1: nat, c2: nat :: Diagonal(c1, c2) in Visit(n, data, layout, p, k, s).value.errors <==>
              || Diagonal(c1, c2) in s.errors
              || (c1 == k && c2 < |data| && data[c1].marked && data[c2].marked && Below(n, c1, c2))
  {
    if data[k].marked {
      var row := k / n;
      var col := k % n;
      var key := ColourKey(p, data[k].color);
      var area := AreaErrors(layout, k, key in s.colors).value;
      var a := Flag(s.rows, row, Row(row));
      var b := Flag(s.cols, col, Column(col));
      var d := BelowRight(n, data, k);
      var e := BelowLeft(n, data, k);
      var errors := Visit(n, data, layout, p, k, s).value.errors;
      assert errors == s.errors + (a + b + area) + (d + e);
      assert forall c1: nat, c2: nat :: Diagonal(c1, c2) !in a + b + area;
      BelowMembers(n, data, k);
    }
  }

  /** The diagonal violations the two checks below a marked tile add. */
  lemma BelowMembers(n: nat, data: seq<Tile>, k: nat)
    requires n > 0 && k < |data|
    ensures forall c1: nat, c2: nat :: Diagonal(c1, c2) in BelowRight(n, data, k) + BelowLeft(n, data, k) <==>
              c1 == k && c2 < |data| && data[c2].marked && Below(n, c1, c2)
  {
    forall c1: nat, c2: nat
      ensures Diagonal(c1, c2) in BelowRight(n, data, k) + BelowLeft(n, data, k) <==>
                c1 == k && c2 < |data| && data[c2].marked && Below(n, c1, c2)
    {
      assert Diagonal(c1, c2) in BelowRight(n, data, k) <==>
               c1 == k && c2 == k + n + 1 && k % n != n - 1 && c2 < |data| && data[c2].marked;
      assert Diagonal(c1, c2) in BelowLeft(n, data, k) <==>
               c1 == k && c2 == k + n - 1 && k % n != 0 && c2 < |data| && data[c2].marked;
    }
  }

  /** A visit adds each of its diagonal violations once. */
  lemma VisitDiagonalCount(n: nat, data: seq<Tile>, layout: Layout, p: Palette, k: nat, s: Scan)
    requires n > 0 && k < |data| && Visit(n, data, layout, p, k, s).Ok?
    ensures forall c1: nat, c2: nat :: multiset(Visit(n, data, layout, p, k, s).value.errors)[Diagonal(c1, c2)] ==
              multiset(s.errors)[Diagonal(c1, c2)]
              + (if c1 == k && c2 < |data| && data[c1].marked && data[c2].marked && Below(n, c1, c2) then 1 else 0)
  {
    if data[k].marked {
      var middle := VisitPieces(n, data, layout, p, k, s);
      BelowCount(n, data, k);
      CountPieces(s.errors, middle, BelowRight(n, data, k) + BelowLeft(n, data, k));
    }
  }

  /** The violations a visit of a marked tile appends: the row, column and
      area ones, which are not diagonal, then the two checks below. */
  lemma VisitPieces(n: nat, data: seq<Tile>, layout: Layout, p: Palette, k: nat, s: Scan)
    returns (middle: seq<GameRuleBroken>)
    requires n > 0 && k < |data| && data[k].marked && Visit(n, data, layout, p, k, s).Ok?
    ensures Visit(n, data, layout, p, k, s).value.errors == s.errors + middle + (BelowRight(n, data, k) + BelowLeft(n, data, k))
    ensures forall c1: nat, c2: nat :: Diagonal(c1, c2) !in middle
  {
    var row := k / n;
    var col := k % n;
    var key := ColourKey(p, data[k].color);
    var area := AreaErrors(layout, k, key in s.colors).value;
    middle := Flag(s.rows, row, Row(row)) + Flag(s.cols, col, Column(col)) + area;
  }

  /** The count of a diagonal violation in a list of three pieces. */
  lemma CountPieces(x: seq<GameRuleBroken>, y: seq<GameRuleBroken>, z: seq<GameRuleBroken>)
    requires forall c1: nat, c2: nat :: Diagonal(c1, c2) !in y
    ensures forall c1: nat, c2: nat :: multiset(x + y + z)[Diagonal(c1, c2)] ==
              multiset(x)[Diagonal(c1, c2)] + multiset(z)[Diagonal(c1, c2)]
  {
    assert multiset(x + y + z) == multiset(x) + multiset(y) + multiset(z);
    forall c1: nat, c2: nat
      ensures multiset(y)[Diagonal(c1, c2)] == 0
    {
      assert Diagonal(c1, c2) !in y;
    }
  }

  /** The two checks below a tile add a diagonal violation at most once. */
  lemma BelowCount(n: nat, data: seq<Tile>, k: nat)
    requires n > 0 && k < |data|
    ensures forall c1: nat, c2: nat :: multiset(BelowRight(n, data, k) + BelowLeft(n, data, k))[Diagonal(c1, c2)] ==
              if c1 == k && c2 < |data| && data[c2].marked && Below(n, c1, c2) then 1 else 0
  {
    forall c1: nat, c2: nat
      ensures multiset(BelowRight(n, data, k) + BelowLeft(n, data, k))[Diagonal(c1, c2)] ==
                if c1 == k && c2 < |data| && data[c2].marked && Below(n, c1, c2) then 1 else 0
    {
      var d := BelowRight(n, data, k);
      var e := BelowLeft(n, data, k);
      assert multiset(d)[Diagonal(c1, c2)] ==
               if c1 == k && c2 == k + n + 1 && k % n != n - 1 && c2 < |data| && data[c2].marked then 1 else 0;
      assert multiset(e)[Diagonal(c1, c2)] ==
               if c1 == k && c2 == k + n - 1 && k % n != 0 && c2 < |data| && data[c2].marked then 1 else 0;
    }
  }

  /** The pass keeps ScanInv. */
  lemma {:induction false} ScanInvariant(n: nat, data: seq<Tile>, layout: Layout, p: Palette, k: nat)
    requires n > 0 && k <= |data|
    ensures ScanPrefix(n, data, layout, p, k).Ok? ==> ScanInv(n, data, p, k, ScanPrefix(n, data, layout, p, k).value)
    decreases k
  {
    if k > 0 && ScanPrefix(n, data, layout, p, k).Ok? {
      ScanInvariant(n, data, layout, p, k - 1);
      var s := ScanPrefix(n, data, layout, p, k - 1).value;
      assert ScanPrefix(n, data, layout, p, k) == Visit(n, data, layout, p, k - 1, s);
      StepFeatures(n, data, layout, p, k, s);
      StepDiagonals(n, data, layout, p, k, s);
    }
  }

  /** One step keeps the part of ScanInv about rows, columns and colours. */
  lemma StepFeatures(n: nat, data: seq<Tile>, layout: Layout, p: Palette, k: nat, s: Scan)
    requires n > 0 && 0 < k <= |data| && Visit(n, data, layout, p, k - 1, s).Ok?
    requires ScanInv(n, data, p, k - 1, s)
    ensures var s' := Visit(n, data, layout, p, k - 1, s).value;
            && (forall f :: |Seen(s', f)| + Tally(s'.errors, f) == MarkedBefore(data, k))
            && (forall f, v :: v in Seen(s', f) <==> SeenBefore(f, n, p, data, k, v))
            && (forall f :: NoDuplicates(Seen(s', f)))
            && (forall f :: Tally(s'.errors, f) == 0 <==> DistinctBefore(f, n, p, data, k))
            && (forall f :: Tally(s'.errors, f) == Repeats(f, n, p, data, k))
  {
    var s' := Visit(n, data, layout, p, k - 1, s).value;
    forall f
      ensures |Seen(s', f)| + Tally(s'.errors, f) == MarkedBefore(data, k)
      ensures forall v :: v in Seen(s', f) <==> SeenBefore(f, n, p, data, k, v)
      ensures NoDuplicates(Seen(s', f))
      ensures Tally(s'.errors, f) == 0 <==> DistinctBefore(f, n, p, data, k)
      ensures Tally(s'.errors, f) == Repeats(f, n, p, data, k)
    {
      StepFeature(n, data, layout, p, k, s, f);
    }
  }

  /** One step keeps the part of ScanInv about diagonal violations. */
  lemma StepDiagonals(n: nat, data: seq<Tile>, layout: Layout, p: Palette, k: nat, s: Scan)
    requires n > 0 && 0 < k <= |data| && Visit(n, data, layout, p, k - 1, s).Ok?
    requires DiagonalsBefore(n, data, k - 1, s.errors)
    requires forall c1: nat, c2: nat :: multiset(s.errors)[Diagonal(c1, c2)] <= 1
    ensures DiagonalsBefore(n, data, k, Visit(n, data, layout, p, k - 1, s).value.errors)
    ensures forall c1: nat, c2: nat :: multiset(Visit(n, data, layout, p, k - 1, s).value.errors)[Diagonal(c1, c2)] <= 1
  {
    VisitDiagonals(n, data, layout, p, k - 1, s);
    StepDiagonalCount(n, data, layout, p, k, s);
  }

  /** One step keeps every diagonal violation listed at most once: the
      tile visited is not yet the first cell of any listed one. */
  lemma StepDiagonalCount(n: nat, data: seq<Tile>, layout: Layout, p: Palette, k: nat, s: Scan)
    requires n > 0 && 0 < k <= |data| && Visit(n, data, layout, p, k - 1, s).Ok?
    requires DiagonalsBefore(n, data, k - 1, s.errors)
    requires forall c1: nat, c2: nat :: multiset(s.errors)[Diagonal(c1, c2)] <= 1
    ensures forall c1: nat, c2: nat :: multiset(Visit(n, data, layout, p, k - 1, s).value.errors)[Diagonal(c1, c2)] <= 1
  {
    VisitDiagonalCount(n, data, layout, p, k - 1, s);
    forall c1: nat, c2: nat | c1 == k - 1
      ensures multiset(s.errors)[Diagonal(c1, c2)] == 0
    {
      assert Diagonal(c1, c2) !in s.errors;
    }
  }

  /** One step keeps the part of ScanInv about one feature. */
  lemma StepFeature(n: nat, data: seq<Tile>, layout: Layout, p: Palette, k: nat, s: Scan, f: Feature)
    requires n > 0 && 0 < k <= |data| && Visit(n, data, layout, p, k - 1, s).Ok?
    requires |Seen(s, f)| + Tally(s.errors, f) == MarkedBefore(data, k - 1)
    requires forall v :: v in Seen(s, f) <==> SeenBefore(f, n, p, data, k - 1, v)
    requires NoDuplicates(Seen(s, f))
    requires Tally(s.errors, f) == 0 <==> DistinctBefore(f, n, p, data, k - 1)
    requires Tally(s.errors, f) == Repeats(f, n, p, data, k - 1)
    ensures var s' := Visit(n, data, layout, p, k - 1, s).value;
            && |Seen(s', f)| + Tally(s'.errors, f) == MarkedBefore(data, k)
            && (forall v :: v in Seen(s', f) <==> SeenBefore(f, n, p, data, k, v))
            && NoDuplicates(Seen(s', f))
            && (Tally(s'.errors, f) == 0 <==> DistinctBefore(f, n, p, data, k))
            && Tally(s'.errors, f) == Repeats(f, n, p, data, k)
  {
    var s' := Visit(n, data, layout, p, k - 1, s).value;
    VisitTally(n, data, layout, p, k - 1, s, f);
    StepSeen(n, data, p, k, f, Seen(s, f), Seen(s', f));
    StepDistinct(n, data, p, k, f, Seen(s, f), Tally(s.errors, f), Tally(s'.errors, f));
  }

  /** The list part of one step. */
  lemma StepSeen(n: nat, data: seq<Tile>, p: Palette, k: nat, f: Feature, before: seq<nat>, after: seq<nat>)
    requires n > 0 && 0 < k <= |data|
    requires forall v :: v in before <==> SeenBefore(f, n, p, data, k - 1, v)
    requires NoDuplicates(before)
    requires after == if data[k - 1].marked then Record(before, Value(f, n, p, data, k - 1)) else before
    ensures forall v :: v in after <==> SeenBefore(f, n, p, data, k, v)
    ensures NoDuplicates(after)
    ensures |after| == |before| + (if data[k - 1].marked && Value(f, n, p, data, k - 1) !in before then 1 else 0)
  {
    forall v
      ensures v in after <==> SeenBefore(f, n, p, data, k, v)
    {
      if SeenBefore(f, n, p, data, k, v) {
        var i :| 0 <= i < k && data[i].marked && Value(f, n, p, data, i) == v;
        if i < k - 1 {
          assert SeenBefore(f, n, p, data, k - 1, v);
        }
      }
      if v in before {
        var i :| 0 <= i < k - 1 && data[i].marked && Value(f, n, p, data, i) == v;
        assert 0 <= i < k;
      }
      if data[k - 1].marked && v == Value(f, n, p, data, k - 1) {
        assert 0 <= k - 1 < k;
      }
    }
  }

  /** The distinctness part of one step. */
  lemma StepDistinct(n: nat, data: seq<Tile>, p: Palette, k: nat, f: Feature, before: seq<nat>, t: nat, t': nat)
    requires n > 0 && 0 < k <= |data|
    requires forall v :: v in before <==> SeenBefore(f, n, p, data, k - 1, v)
    requires t == 0 <==> DistinctBefore(f, n, p, data, k - 1)
    requires t' == t + (if data[k - 1].marked && Value(f, n, p, data, k - 1) in before then 1 else 0)
    ensures t' == 0 <==> DistinctBefore(f, n, p, data, k)
  {
    if data[k - 1].marked && Value(f, n, p, data, k - 1) in before {
      assert SeenBefore(f, n, p, data, k - 1, Value(f, n, p, data, k - 1));
      var i :| 0 <= i < k - 1 && data[i].marked && Value(f, n, p, data, i) == Value(f, n, p, data, k - 1);
      assert !DistinctBefore(f, n, p, data, k);
    }
    if t' == 0 {
      forall i, j | 0 <= i < j < k && data[i].marked && data[j].marked
        ensures Value(f, n, p, data, i) != Value(f, n, p, data, j)
      {
        if j == k - 1 {
          assert !SeenBefore(f, n, p, data, k - 1, Value(f, n, p, data, j));
        }
      }
    }
  }

  // ---------------------------------------------------------------------
  // What the result means
  // ---------------------------------------------------------------------

  /** The pass fails only on a marked tile that no area holds, and then
      with that tile's AreaNotFound. */
  lemma {:induction false} ScanError(n: nat, data: seq<Tile>, layout: Layout, p: Palette, k: nat)
    requires n > 0 && k <= |data|
    ensures ScanPrefix(n, data, layout, p, k).Err? ==>
              exists i :: 0 <= i < k && data[i].marked && !InSomeArea(layout, i)
                          && ScanPrefix(n, data, layout, p, k).error == AreaNotFound(i)
    decreases k
  {
    if k > 0 && ScanPrefix(n, data, layout, p, k).Err? {
      ScanError(n, data, layout, p, k - 1);
      if ScanPrefix(n, data, layout, p, k - 1).Ok? {
        var s := ScanPrefix(n, data, layout, p, k - 1).value;
        assert data[k - 1].marked;
        var key := ColourKey(p, data[k - 1].color);
        assert AreaErrors(layout, k - 1, key in s.colors).Err?;
        assert 0 <= k - 1 < k;
      }
    }
  }

  /** Marked pairs (c1, c2) with c2 below c1 are the diagonally adjacent
      marked pairs with c1 first. */
  lemma BelowIsDiagonal(n: nat, c1: nat, c2: nat)
    requires n > 0 && c1 < n * n && c2 < n * n
    ensures Below(n, c1, c2) <==> c1 < c2 && Board.DiagonallyAdjacent(n, c1, c2)
  {
    SeedPicker.DiagonalNeighbours(n, c1, c2);
    if c1 + n == n * n {
      assert c1 == (n - 1) * n + 0;
      Board.DivModUnique(n, n - 1, 0);
    }
  }

  /** Whether the marked tiles win: n of them, no two sharing a row, a
      column or a compared colour, and no two touching at a corner. */
  ghost predicate Winning(n: nat, p: Palette, data: seq<Tile>)
    requires n > 0
  {
    && MarkedBefore(data, |data|) == n
    && Clean(n, p, data)
  }

  /** No rule is broken between any two marked tiles. */
  ghost predicate Clean(n: nat, p: Palette, data: seq<Tile>)
    requires n > 0
  {
    && (forall f :: DistinctBefore(f, n, p, data, |data|))
    && NoCornerPair(n, data)
  }

  /** No two marked tiles touch at a corner. */
  ghost predicate NoCornerPair(n: nat, data: seq<Tile>)
    requires n > 0
  {
    forall c1, c2 :: 0 <= c1 < c2 < |data| && data[c1].marked && data[c2].marked ==> !Board.DiagonallyAdjacent(n, c1, c2)
  }

  /** The reported violations: each kind counts the marked tiles whose
      row, column or colour an earlier marked tile already has, and the
      diagonal ones are exactly the marked pairs touching at a corner. */
  lemma Violations(n: nat, data: seq<Tile>, layout: Layout, p: Palette)
    requires n > 0 && |data| == n * n
    ensures GetWinStatus(n, data, layout, p).Ok? ==>
              var errs := GetWinStatus(n, data, layout, p).value.0;
              && (forall f :: Tally(errs, f) == Repeats(f, n, p, data, |data|))
              && (forall c1: nat, c2: nat :: Diagonal(c1, c2) in errs <==>
                    c1 < c2 < |data| && data[c1].marked && data[c2].marked && Board.DiagonallyAdjacent(n, c1, c2))
              && (forall c1: nat, c2: nat :: multiset(errs)[Diagonal(c1, c2)] <= 1)
  {
    ScanInvariant(n, data, layout, p, |data|);
    if GetWinStatus(n, data, layout, p).Ok? {
      forall c1: nat, c2: nat | c1 < |data| && c2 < |data| {
        BelowIsDiagonal(n, c1, c2);
      }
    }
  }

  /** Every element of a violation list is one of the four kinds. */
  lemma EmptyWhenNoneOfEach(errs: seq<GameRuleBroken>)
    ensures (forall f :: Tally(errs, f) == 0) && (forall c1: nat, c2: nat :: Diagonal(c1, c2) !in errs) ==> errs == []
  {
    if |errs| > 0 {
      var e := errs[0];
      assert e in errs;
      assert Reports(e, RowOf) ==> Tally(errs, RowOf) > 0;
      assert Reports(e, ColumnOf) ==> Tally(errs, ColumnOf) > 0;
      assert Reports(e, ColourOf) ==> Tally(errs, ColourOf) > 0;
    }
  }

  /** No violation exactly when no rule is broken, and the game is won
      exactly when the marked tiles win. */
  lemma WinStatusMeaning(n: nat, data: seq<Tile>, layout: Layout, p: Palette)
    requires n > 0 && |data| == n * n
    ensures GetWinStatus(n, data, layout, p).Ok? ==>
              && (GetWinStatus(n, data, layout, p).value.0 == [] <==> Clean(n, p, data))
              && (GetWinStatus(n, data, layout, p).value.1 <==> Winning(n, p, data))
  {
    ScanInvariant(n, data, layout, p, |data|);
    if GetWinStatus(n, data, layout, p).Ok? {
      var s := ScanPrefix(n, data, layout, p, |data|).value;
      forall c1: nat, c2: nat | c1 < |data| && c2 < |data| {
        BelowIsDiagonal(n, c1, c2);
      }
      if Clean(n, p, data) {
        assert forall c1: nat, c2: nat :: Diagonal(c1, c2) !in s.errors;
        EmptyWhenNoneOfEach(s.errors);
      }
      if s.errors == [] {
        forall c1, c2 | 0 <= c1 < c2 < |data| && data[c1].marked && data[c2].marked
          ensures !Board.DiagonallyAdjacent(n, c1, c2)
        {
          assert Diagonal(c1, c2) !in s.errors;
        }
        assert |Seen(s, RowOf)| == MarkedBefore(data, |data|);
        assert |Seen(s, ColumnOf)| == MarkedBefore(data, |data|);
        assert |Seen(s, ColourOf)| == MarkedBefore(data, |data|);
      }
    }
  }

  /** Every tile lies in an area: the pass cannot fail. */
  lemma CoveredNeverFails(n: nat, data: seq<Tile>, layout: Layout, p: Palette)
    requires n > 0 && |data| == n * n
    requires forall x :: 0 <= x < |data| ==> InSomeArea(layout, x)
    ensures GetWinStatus(n, data, layout, p).Ok?
  {
    ScanError(n, data, layout, p, |data|);
  }

  /** Nothing marked: no violation, and not won. */
  lemma EmptyGrid(n: nat, data: seq<Tile>, layout: Layout, p: Palette)
    requires n > 0 && |data| == n * n
    requires forall i :: 0 <= i < |data| ==> !data[i].marked
    ensures GetWinStatus(n, data, layout, p) == Ok(([], false))
  {
    ScanError(n, data, layout, p, |data|);
    NoneMarked(data, |data|);
    WinStatusMeaning(n, data, layout, p);
  }

  lemma {:induction false} NoneMarked(data: seq<Tile>, k: nat)
    requires k <= |data|
    requires forall i :: 0 <= i < k ==> !data[i].marked
    ensures MarkedBefore(data, k) == 0
  {
    if k > 0 {
      NoneMarked(data, k - 1);
    }
  }

  // ---------------------------------------------------------------------
  // Markings given as a list of cells
  // ---------------------------------------------------------------------

  /** Exactly the listed cells are marked. */
  ghost predicate MarksExactly(data: seq<Tile>, cells: seq<nat>)
  {
    && (forall i :: 0 <= i < |cells| ==> cells[i] < |data|)
    && (forall x :: 0 <= x < |data| ==> (data[x].marked <==> x in cells))
  }

  /** The marked tiles before k are the listed cells below k. */
  lemma {:induction false} MarkedBeforeCounts(data: seq<Tile>, cells: seq<nat>, k: nat)
    requires k <= |data| && MarksExactly(data, cells)
    ensures MarkedBefore(data, k) == |set c | c in cells && c < k|
    decreases k
  {
    if k == 0 {
      assert (set c | c in cells && c < k) == {};
    } else {
      MarkedBeforeCounts(data, cells, k - 1);
      if data[k - 1].marked {
        assert (set c | c in cells && c < k) == (set c | c in cells && c < k - 1) + {k - 1};
      } else {
        assert (set c | c in cells && c < k) == (set c | c in cells && c < k - 1);
      }
    }
  }

  /** The values of a list. */
  function Elements(s: seq<nat>): set<nat>
  {
    set x | x in s
  }

  /** A list without repetitions has as many elements as its set. */
  lemma {:induction false} DistinctCard(s: seq<nat>)
    requires NoDuplicates(s)
    ensures |Elements(s)| == |s|
  {
    if |s| == 0 {
      assert Elements(s) == {};
    } else {
      assert NoDuplicates(s[1..]) by {
        forall i, j | 0 <= i < j < |s[1..]|
          ensures s[1..][i] != s[1..][j]
        {
          assert s[1..][i] == s[i + 1] && s[1..][j] == s[j + 1];
        }
      }
      DistinctCard(s[1..]);
      assert s[0] !in s[1..] by {
        forall i | 0 <= i < |s[1..]|
          ensures s[1..][i] != s[0]
        {
          assert s[1..][i] == s[i + 1];
        }
      }
      assert Elements(s) == Elements(s[1..]) + {s[0]};
    }
  }

  /** n marked cells, listed without repetition, are n marked tiles. */
  lemma MarkedOfCells(data: seq<Tile>, cells: seq<nat>)
    requires MarksExactly(data, cells) && NoDuplicates(cells)
    ensures MarkedBefore(data, |data|) == |cells|
  {
    MarkedBeforeCounts(data, cells, |data|);
    assert (set c | c in cells && c < |data|) == Elements(cells);
    DistinctCard(cells);
  }

  /** Marking n non-attacking cells that fall in n different compared
      colours wins. */
  lemma WinningOfCells(n: nat, p: Palette, data: seq<Tile>, cells: seq<nat>)
    requires n > 0 && |data| == n * n && |cells| == n
    requires MarksExactly(data, cells) && Board.NonAttacking(n, cells)
    requires forall a, b :: 0 <= a < b < n ==> ColourKey(p, data[cells[a]].color) != ColourKey(p, data[cells[b]].color)
    ensures Winning(n, p, data)
  {
    assert NoDuplicates(cells) by {
      forall a, b | 0 <= a < b < n
        ensures cells[a] != cells[b]
      {
        assert !Board.Attacks(n, cells[a], cells[b]);
      }
    }
    MarkedOfCells(data, cells);
    CellsApart(n, p, data, cells);
    forall f
      ensures DistinctBefore(f, n, p, data, |data|)
    {
    }
  }

  /** Two marked tiles of such a marking share no row, column or compared
      colour and do not touch at a corner. */
  lemma CellsApart(n: nat, p: Palette, data: seq<Tile>, cells: seq<nat>)
    requires n > 0 && |data| == n * n && |cells| == n
    requires MarksExactly(data, cells) && Board.NonAttacking(n, cells)
    requires forall a, b :: 0 <= a < b < n ==> ColourKey(p, data[cells[a]].color) != ColourKey(p, data[cells[b]].color)
    ensures forall i, j :: 0 <= i < j < |data| && data[i].marked && data[j].marked ==>
              && i / n != j / n && i % n != j % n && !Board.DiagonallyAdjacent(n, i, j)
              && ColourKey(p, data[i].color) != ColourKey(p, data[j].color)
  {
    forall i, j | 0 <= i < j < |data| && data[i].marked && data[j].marked
      ensures i / n != j / n && i % n != j % n && !Board.DiagonallyAdjacent(n, i, j)
      ensures ColourKey(p, data[i].color) != ColourKey(p, data[j].color)
    {
      var a :| 0 <= a < n && cells[a] == i;
      var b :| 0 <= b < n && cells[b] == j;
      if a < b {
        assert !Board.Attacks(n, cells[a], cells[b]);
      } else {
        assert !Board.Attacks(n, cells[b], cells[a]);
      }
    }
  }

  /** A list without repetitions of values below m has at most m elements. */
  lemma BoundedDistinct(s: seq<nat>, m: nat)
    requires NoDuplicates(s)
    requires forall i :: 0 <= i < |s| ==> s[i] < m
    ensures |s| <= m
  {
    var range := seq(m, i requires 0 <= i < m => i as nat);
    DistinctCard(s);
    DistinctCard(range);
    forall x | x in s
      ensures x in range
    {
      assert range[x] == x;
    }
    assert Elements(s) <= Elements(range);
    SubsetCard(Elements(s), Elements(range));
  }

  lemma {:induction false} SubsetCard(a: set<nat>, b: set<nat>)
    requires a <= b
    ensures |a| <= |b|
    decreases |a|
  {
    if a != {} {
      var x :| x in a;
      SubsetCard(a - {x}, b - {x});
    }
  }

  /** As written: the checker compares display colours, of which there are
      eleven (ten palette entries and GRAY), so it needs n of them
      different; for n >= 12 the game is never reported won, whatever is
      marked and whatever the layout. */
  lemma DisplayNeverWinsFromTwelve(n: nat, data: seq<Tile>, layout: Layout)
    requires n >= 12 && |data| == n * n
    ensures GetWinStatus(n, data, layout, Display).Ok? ==> !GetWinStatus(n, data, layout, Display).value.1
  {
    ScanInvariant(n, data, layout, Display, |data|);
    if GetWinStatus(n, data, layout, Display).Ok? {
      var s := ScanPrefix(n, data, layout, Display, |data|).value;
      forall i | 0 <= i < |s.colors|
        ensures s.colors[i] < 11
      {
        assert s.colors[i] in Seen(s, ColourOf);
        assert SeenBefore(ColourOf, n, Display, data, |data|, s.colors[i]);
      }
      assert NoDuplicates(Seen(s, ColourOf));
      BoundedDistinct(s.colors, 11);
    }
  }

  /** A winning marking on a layout covering the board is reported won,
      with no violation. */
  lemma WinningReported(n: nat, data: seq<Tile>, layout: Layout, p: Palette)
    requires n > 0 && |data| == n * n
    requires forall x :: 0 <= x < |data| ==> InSomeArea(layout, x)
    requires Winning(n, p, data)
    ensures GetWinStatus(n, data, layout, p) == Ok(([], true))
  {
    CoveredNeverFails(n, data, layout, p);
    WinStatusMeaning(n, data, layout, p);
  }
}
