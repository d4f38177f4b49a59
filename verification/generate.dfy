/** `generate_layout` (src/model/layout.rs) end to end: seed phase, one
    single-cell area per seed, growth, and `Layout::from_sections` over the
    one-cell sections the areas were built from. */
module LayoutGenerator {
  import opened Wrappers
  import opened Board
  import opened Layouts
  import opened Generator
  import opened Growth

  /** The state after the seed phase: area i holds seed i alone, the seeds'
      flags are set and `number_placed` is the number of seeds. */
  function Initial(n: nat, seeds: seq<nat>): (g: GrowthState)
    requires forall i :: 0 <= i < |seeds| ==> seeds[i] < n * n
    ensures |g.areas| == |seeds| && |g.placed| == n * n && g.count == |seeds|
    decreases |seeds|
  {
    if |seeds| == 0 then GrowthState([], seq(n * n, _ => false), 0)
    else
      var g := Initial(n, DropLast(seeds));
      GrowthState(g.areas + [[Last(seeds)]], g.placed[Last(seeds) := true], g.count + 1)
  }

  /** After the seed phase, area i is [seeds[i]], the set flags are the
      seeds, and with distinct seeds the count is the number of set flags. */
  lemma InitialShape(n: nat, seeds: seq<nat>)
    requires forall i :: 0 <= i < |seeds| ==> seeds[i] < n * n
    requires forall i, j :: 0 <= i < j < |seeds| ==> seeds[i] != seeds[j]
    ensures var g := Initial(n, seeds);
            && |g.areas| == |seeds| && |g.placed| == n * n && g.count == |seeds|
            && (forall i :: 0 <= i < |seeds| ==> g.areas[i] == [seeds[i]])
            && (forall c :: 0 <= c < n * n ==> (g.placed[c] <==> c in seeds))
            && g.count == CountTrue(g.placed)
  {
    InitialAreas(n, seeds);
    InitialFlags(n, seeds);
  }

  /** After the seed phase, area i is [seeds[i]]. */
  lemma {:induction false} InitialAreas(n: nat, seeds: seq<nat>)
    requires forall i :: 0 <= i < |seeds| ==> seeds[i] < n * n
    ensures forall i :: 0 <= i < |seeds| ==> Initial(n, seeds).areas[i] == [seeds[i]]
    decreases |seeds|
  {
    if |seeds| > 0 {
      var front := DropLast(seeds);
      InitialAreas(n, front);
      forall i | 0 <= i < |seeds|
        ensures Initial(n, seeds).areas[i] == [seeds[i]]
      {
        if i < |front| {
          assert front[i] == seeds[i];
        }
      }
    }
  }

  /** After the seed phase the set flags are the seeds, and with distinct
      seeds the count is the number of set flags. */
  lemma {:induction false} InitialFlags(n: nat, seeds: seq<nat>)
    requires forall i :: 0 <= i < |seeds| ==> seeds[i] < n * n
    requires forall i, j :: 0 <= i < j < |seeds| ==> seeds[i] != seeds[j]
    ensures var g := Initial(n, seeds);
            && (forall c :: 0 <= c < n * n ==> (g.placed[c] <==> c in seeds))
            && g.count == CountTrue(g.placed)
    decreases |seeds|
  {
    if |seeds| == 0 {
      CountNone(n * n);
    } else {
      var front := DropLast(seeds);
      InitialFlags(n, front);
      var g := Initial(n, front);
      assert Last(seeds) !in front by {
        forall i | 0 <= i < |front|
          ensures front[i] != Last(seeds)
        {
          assert front[i] == seeds[i];
        }
      }
      CountSet(g.placed, Last(seeds));
      assert seeds == front + [Last(seeds)];
    }
  }

  /** No flag set, nothing counted. */
  lemma {:induction false} CountNone(m: nat)
    ensures CountTrue(seq(m, _ => false)) == 0
  {
    if m > 0 {
      assert seq(m, _ => false)[1..] == seq(m - 1, _ => false);
      CountNone(m - 1);
    }
  }

  /** Cells that do not attack each other are distinct. */
  lemma NonAttackingDistinct(n: nat, seeds: seq<nat>)
    requires n > 0 && NonAttacking(n, seeds)
    ensures forall i, j :: 0 <= i < j < |seeds| ==> seeds[i] != seeds[j]
  {
    forall i, j | 0 <= i < j < |seeds|
      ensures seeds[i] != seeds[j]
    {
      assert !Attacks(n, seeds[i], seeds[j]);
    }
  }

  /** n distinct seeds give a state the growth loop can start from. */
  lemma InitialInv(n: nat, seeds: seq<nat>)
    requires n > 0 && |seeds| == n
    requires forall i :: 0 <= i < n ==> seeds[i] < n * n
    requires forall i, j :: 0 <= i < j < n ==> seeds[i] != seeds[j]
    ensures GrowthInv(n, Initial(n, seeds))
    ensures forall i :: 0 <= i < n ==> Initial(n, seeds).areas[i] == [seeds[i]]
  {
    InitialShape(n, seeds);
    InitialFlagged(n, seeds);
    InitialUnique(n, seeds);
  }

  /** After the seed phase a flag is set exactly for the seeds' cells. */
  lemma InitialFlagged(n: nat, seeds: seq<nat>)
    requires n > 0 && |seeds| == n
    requires forall i :: 0 <= i < n ==> seeds[i] < n * n
    requires forall i, j :: 0 <= i < j < n ==> seeds[i] != seeds[j]
    ensures Shaped(n, Initial(n, seeds)) && Flagged(n, Initial(n, seeds))
  {
    InitialShape(n, seeds);
    var g := Initial(n, seeds);
    forall c | 0 <= c < n * n
      ensures g.placed[c] <==> Listed(g.areas, c)
    {
      if c in seeds {
        var i :| 0 <= i < n && seeds[i] == c;
        assert g.areas[i][0] == c;
      }
      if Listed(g.areas, c) {
        var k, i :| 0 <= k < n && 0 <= i < |g.areas[k]| && g.areas[k][i] == c;
        assert seeds[k] == c;
      }
    }
  }

  /** After the seed phase no cell is listed twice. */
  lemma InitialUnique(n: nat, seeds: seq<nat>)
    requires n > 0 && |seeds| == n
    requires forall i :: 0 <= i < n ==> seeds[i] < n * n
    requires forall i, j :: 0 <= i < j < n ==> seeds[i] != seeds[j]
    ensures Unique(Initial(n, seeds).areas)
  {
    InitialShape(n, seeds);
    var g := Initial(n, seeds);
    forall k1, i1, k2, i2 |
      && 0 <= k1 < n && 0 <= i1 < |g.areas[k1]|
      && 0 <= k2 < n && 0 <= i2 < |g.areas[k2]|
      && g.areas[k1][i1] == g.areas[k2][i2]
      ensures k1 == k2 && i1 == i2
    {
      assert seeds[k1] == seeds[k2];
    }
  }

  /** The growth loop may start from the seeded state. */
  lemma InitialReady(n: nat, seeds: seq<nat>)
    requires n > 0 && |seeds| == n && NonAttacking(n, seeds)
    ensures Shaped(n, Initial(n, seeds)) && Initial(n, seeds).count == n
  {
    NonAttackingDistinct(n, seeds);
    InitialInv(n, seeds);
  }

  /** One one-cell section per cell, in order. */
  function CellSections(cells: seq<nat>): (secs: seq<Section>)
    ensures |secs| == |cells|
    ensures Flatten(secs) == cells
  {
    if |cells| == 0 then []
    else
      var secs := [SectionFromIndex(cells[0])] + CellSections(cells[1..]);
      assert secs[1..] == CellSections(cells[1..]);
      secs
  }

  /** `Layout::from_sections` over the areas' one-cell sections: area i
      lists exactly the cells area i claimed, in claim order, and has colour
      i. */
  function ToLayout(n: nat, areas: seq<seq<nat>>): (l: Layout)
    requires |areas| == n
    ensures |l.areas| == n
    ensures forall i :: 0 <= i < n ==> l.areas[i].cells == areas[i] && l.areas[i].color == i % 256
  {
    var l := FromSections(seq(n, i requires 0 <= i < n => CellSections(areas[i])), n);
    assert forall i :: 0 <= i < n ==> l.areas[i].cells == Flatten(CellSections(areas[i]));
    l
  }

  /** The growth phase of `generate_layout` from its seeds, driven by the
      supplied draws, and the layout built from the grown areas. `None`
      when the draws run out. */
  function GrowLayout(n: nat, seeds: seq<nat>, choices: seq<Choice>): Option<Layout>
    requires n > 0 && |seeds| == n && NonAttacking(n, seeds)
  {
    InitialReady(n, seeds);
    match Grow(n, Initial(n, seeds), choices)
    case None => None
    case Some(h) => Some(ToLayout(n, h.areas))
  }

  /** `generate_layout` for an n by n board, with the corrected seed phase:
      an attempt that fails in either way starts over with the next
      shuffle; then growth driven by the supplied draws. `None` when the
      shuffles or the draws run out. */
  function GenerateLayout(n: nat, shuffles: seq<seq<nat>>, choices: seq<Choice>): Option<Layout>
    requires n > 0 && AllOnBoard(n, shuffles)
  {
    match Seeds(n, shuffles)
    case None => None
    case Some(seeds) => GrowLayout(n, seeds, choices)
  }

  /** How `generate_layout` as written ends. */
  datatype Outcome =
    | Built(layout: Layout)
      /** a round of the seed phase began with an empty pool */
    | SeedPanic
      /** the supplied shuffles or draws ran out */
    | RanOut

  /** `generate_layout` as written: the seed phase panics when a round
      begins with an empty pool. Where it does not panic it ends as the
      corrected generator does. */
  function GenerateLayoutAsWritten(n: nat, shuffles: seq<seq<nat>>, choices: seq<Choice>): (r: Outcome)
    requires n > 0 && AllOnBoard(n, shuffles)
    ensures r.SeedPanic? <==> SeedsAsWritten(n, shuffles).Panicked?
    ensures r.Built? ==> GenerateLayout(n, shuffles, choices) == Some(r.layout)
    ensures r.RanOut? ==> GenerateLayout(n, shuffles, choices) == None
  {
    SeedsAgreeUnlessPanic(n, shuffles);
    match SeedsAsWritten(n, shuffles)
    case Panicked => SeedPanic
    case OutOfShuffles => RanOut
    case Found(seeds) =>
      match GrowLayout(n, seeds, choices)
      case None => RanOut
      case Some(l) => Built(l)
  }

  /** On PanicPool the program as written panics, where the corrected
      generator builds the layout of the next shuffle. */
  lemma PanicPoolLayout(next: seq<seq<nat>>, choices: seq<Choice>)
    requires AllOnBoard(10, next)
    ensures AllOnBoard(10, [PanicPool()] + next)
    ensures GenerateLayoutAsWritten(10, [PanicPool()] + next, choices) == SeedPanic
    ensures GenerateLayout(10, [PanicPool()] + next, choices) == GenerateLayout(10, next, choices)
  {
    PanicPoolRestarts(next);
  }

  /** The areas of a finished growth state form a partition of the board. */
  lemma FinishedIsPartition(n: nat, h: GrowthState)
    requires Shaped(n, h) && Unique(h.areas)
    requires forall c :: 0 <= c < n * n ==> Listed(h.areas, c)
    ensures IsPartition(ToLayout(n, h.areas), n * n)
  {
    var l := ToLayout(n, h.areas);
    forall x: nat | x < n * n
      ensures InSomeArea(l, x)
    {
      assert Listed(h.areas, x);
      var k, i :| 0 <= k < |h.areas| && 0 <= i < |h.areas[k]| && h.areas[k][i] == x;
      assert l.areas[k].cells[i] == x;
    }
    forall k1, i1, k2, i2 |
      && 0 <= k1 < n && 0 <= i1 < |l.areas[k1].cells|
      && 0 <= k2 < n && 0 <= i2 < |l.areas[k2].cells|
      && l.areas[k1].cells[i1] == l.areas[k2].cells[i2]
      ensures k1 == k2 && i1 == i2
    {
      assert h.areas[k1][i1] == h.areas[k2][i2];
    }
  }

  /** A finished growth from the seeded state yields a layout with the
      promised shape. */
  lemma FinishedLayout(n: nat, seeds: seq<nat>, h: GrowthState)
    requires n > 0 && |seeds| == n
    requires GrowthInv(n, h)
    requires forall c :: 0 <= c < n * n ==> Listed(h.areas, c)
    requires forall i :: 0 <= i < n ==> [seeds[i]] <= h.areas[i]
    requires h.areas[n - 1] == [seeds[n - 1]]
    ensures var l := ToLayout(n, h.areas);
            && IsPartition(l, n * n)
            && (forall i :: 0 <= i < n ==> Connected(n, l.areas[i].cells))
            && (forall i :: 0 <= i < n ==> |l.areas[i].cells| > 0 && l.areas[i].cells[0] == seeds[i])
            && l.areas[n - 1].cells == [seeds[n - 1]]
  {
    FinishedIsPartition(n, h);
    var l := ToLayout(n, h.areas);
    forall i | 0 <= i < n
      ensures |l.areas[i].cells| > 0 && l.areas[i].cells[0] == seeds[i]
      ensures Connected(n, l.areas[i].cells)
    {
      assert l.areas[i].cells == h.areas[i];
    }
  }

  /** The layout grew out of the seeds: n of them, not attacking each other,
      area i starting at seed i, and the last area being its seed alone. */
  ghost predicate SeededBy(n: nat, l: Layout, seeds: seq<nat>)
    requires n > 0 && |l.areas| == n
  {
    && |seeds| == n && NonAttacking(n, seeds)
    && (forall i :: 0 <= i < n ==> |l.areas[i].cells| > 0 && l.areas[i].cells[0] == seeds[i])
    && l.areas[n - 1].cells == [seeds[n - 1]]
  }

  /** What the generator promises: n areas, area i coloured i, that
      partition the board, each connected through its own cells and
      growing out of its own seed; the seeds do not attack each other, so
      marking them is a solution; the last area is its seed alone. */
  lemma GenerateLayoutValid(n: nat, shuffles: seq<seq<nat>>, choices: seq<Choice>)
    requires n > 0 && AllOnBoard(n, shuffles)
    ensures GenerateLayout(n, shuffles, choices).Some? ==>
              var l := GenerateLayout(n, shuffles, choices).value;
              && |l.areas| == n
              && IsPartition(l, n * n)
              && (forall i :: 0 <= i < n ==> l.areas[i].color == i % 256)
              && (forall i :: 0 <= i < n ==> Connected(n, l.areas[i].cells))
              && exists seeds :: SeededBy(n, l, seeds)
  {
    if GenerateLayout(n, shuffles, choices).Some? {
      var seeds := Seeds(n, shuffles).value;
      var h := GrownFrom(n, shuffles, choices);
      FinishedLayout(n, seeds, h);
      assert SeededBy(n, ToLayout(n, h.areas), seeds);
    }
  }

  /** The growth state a successful generation ends in, with what the
      growth loop keeps of the seeded start. */
  lemma GrownFrom(n: nat, shuffles: seq<seq<nat>>, choices: seq<Choice>) returns (h: GrowthState)
    requires n > 0 && AllOnBoard(n, shuffles)
    requires GenerateLayout(n, shuffles, choices).Some?
    ensures Seeds(n, shuffles).Some? && |Seeds(n, shuffles).value| == n
    ensures var seeds := Seeds(n, shuffles).value;
            && GrowthInv(n, h)
            && (forall c :: 0 <= c < n * n ==> Listed(h.areas, c))
            && (forall i :: 0 <= i < n ==> [seeds[i]] <= h.areas[i])
            && h.areas[n - 1] == [seeds[n - 1]]
    ensures GenerateLayout(n, shuffles, choices).value == ToLayout(n, h.areas)
  {
    var seeds := Seeds(n, shuffles).value;
    var g := Initial(n, seeds);
    SeededStart(n, seeds);
    GrowKeeps(n, g, choices);
    h := Grow(n, g, choices).value;
  }

  /** The seeded state satisfies the growth invariant, area i being seed i
      alone, and the growth loop may run on it. */
  lemma SeededStart(n: nat, seeds: seq<nat>)
    requires n > 0 && |seeds| == n && NonAttacking(n, seeds)
    ensures var g := Initial(n, seeds);
            && GrowthInv(n, g) && (n >= 2 || g.count >= n * n)
            && forall i :: 0 <= i < n ==> g.areas[i] == [seeds[i]]
  {
    NonAttackingDistinct(n, seeds);
    InitialInv(n, seeds);
    InitialShape(n, seeds);
  }

  /** `Layout::default()`: a generated layout for the board of side 10, so
      ten connected areas, coloured 0 to 9, that partition the hundred
      cells. */
  function DefaultLayout(shuffles: seq<seq<nat>>, choices: seq<Choice>): (r: Option<Layout>)
    requires AllOnBoard(10, shuffles)
    ensures r.Some? ==> && |r.value.areas| == 10 && IsPartition(r.value, 100)
                        && (forall i :: 0 <= i < 10 ==> r.value.areas[i].color == i)
                        && (forall i :: 0 <= i < 10 ==> Connected(10, r.value.areas[i].cells))
  {
    GenerateLayoutValid(10, shuffles, choices);
    forall i: nat | i < 10
      ensures i % 256 == i
    {
      ModSmall(i, 256);
    }
    GenerateLayout(10, shuffles, choices)
  }
}
