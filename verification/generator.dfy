/** `generate_layout` of src/model/layout.rs, for any board size n (the
    source fixes n = 10). The random number generator is replaced by its
    outputs: one shuffled pool per attempt of the seed phase, and a list of
    growth choices. */
module Generator {
  import opened Wrappers
  import opened Board
  import opened Layouts

  /** Every entry of s names a cell of the board. */
  predicate OnBoard(n: nat, s: seq<nat>)
  {
    forall i :: 0 <= i < |s| ==> s[i] < n * n
  }

  /** `Vec::pop` takes the last element. */
  function Last(s: seq<nat>): nat
    requires |s| > 0
  {
    s[|s| - 1]
  }

  function DropLast(s: seq<nat>): seq<nat>
    requires |s| > 0
  {
    s[..|s| - 1]
  }

  // ---------------------------------------------------------------------
  // Seed phase
  // ---------------------------------------------------------------------

  /** The flags after accepting seed r: r's column, r's row and the
      diagonal neighbours of r that lie on the board become unavailable. */
  function MarkUnavailable(n: nat, unav: seq<bool>, r: nat): (u: seq<bool>)
    requires n > 0 && |unav| == n * n
    ensures |u| == n * n
    ensures forall c :: 0 <= c < n * n ==> (u[c] <==> unav[c] || Attacks(n, r, c))
  {
    seq(n * n, c requires 0 <= c < n * n => unav[c] || Attacks(n, r, c))
  }

  datatype SeedOutcome =
    | Seeded(seeds: seq<nat>)
      /** the inner loop found the pool empty: the source restarts */
    | Exhausted
      /** a round began with an empty pool: the source's unwrap panics */
    | EmptyPoolPanic

  /** k more seeds are wanted; every round begins with an unchecked pop. */
  function Rounds(n: nat, k: nat, pool: seq<nat>, unav: seq<bool>, seeds: seq<nat>): SeedOutcome
    requires n > 0 && |unav| == n * n && OnBoard(n, pool)
    decreases |pool|, k, 1
  {
    if k == 0 then Seeded(seeds)
    else if |pool| == 0 then EmptyPoolPanic
    else Accept(n, k, Last(pool), DropLast(pool), unav, seeds)
  }

  /** r has just been popped: pop again while r is unavailable, then accept r. */
  function Accept(n: nat, k: nat, r: nat, pool: seq<nat>, unav: seq<bool>, seeds: seq<nat>): SeedOutcome
    requires n > 0 && |unav| == n * n && OnBoard(n, pool) && r < n * n && k > 0
    decreases |pool| + 1, k, 0
  {
    if unav[r] then
      if |pool| == 0 then Exhausted
      else Accept(n, k, Last(pool), DropLast(pool), unav, seeds)
    else
      Rounds(n, k - 1, pool, MarkUnavailable(n, unav, r), seeds + [r])
  }

  /** One attempt of the seed phase on one shuffled pool. */
  function SeedPhase(n: nat, pool: seq<nat>): SeedOutcome
    requires n > 0 && OnBoard(n, pool)
  {
    Rounds(n, n, pool, seq(n * n, _ => false), [])
  }

  /** The unavailable flags are exactly the cells some seed attacks. */
  ghost predicate Tracks(n: nat, unav: seq<bool>, seeds: seq<nat>)
    requires n > 0
  {
    && |unav| == n * n
    && forall c :: 0 <= c < n * n ==>
         (unav[c] <==> exists j :: 0 <= j < |seeds| && Attacks(n, seeds[j], c))
  }

  /** Accepting an available cell keeps the seeds pairwise non-attacking and
      the flags in step with them. */
  lemma {:induction false} AcceptKeepsValid(n: nat, unav: seq<bool>, seeds: seq<nat>, r: nat)
    requires n > 0 && Tracks(n, unav, seeds) && NonAttacking(n, seeds)
    requires r < n * n && !unav[r]
    ensures Tracks(n, MarkUnavailable(n, unav, r), seeds + [r])
    ensures NonAttacking(n, seeds + [r])
  {
    var s := seeds + [r];
    forall j | 0 <= j < |seeds|
      ensures !Attacks(n, seeds[j], r)
    {
    }
    var u := MarkUnavailable(n, unav, r);
    forall c | 0 <= c < n * n
      ensures u[c] <==> exists j :: 0 <= j < |s| && Attacks(n, s[j], c)
    {
      if u[c] {
        if Attacks(n, r, c) {
          assert s[|seeds|] == r;
        } else {
          var j :| 0 <= j < |seeds| && Attacks(n, seeds[j], c);
          assert s[j] == seeds[j];
        }
      }
      if exists j :: 0 <= j < |s| && Attacks(n, s[j], c) {
        var j :| 0 <= j < |s| && Attacks(n, s[j], c);
        if j < |seeds| {
          assert s[j] == seeds[j];
        }
      }
    }
  }

  /** Every seed list the rounds return extends the current one by k cells
      that no other seed attacks. */
  lemma {:induction false} RoundsValid(n: nat, k: nat, pool: seq<nat>, unav: seq<bool>, seeds: seq<nat>)
    requires n > 0 && |unav| == n * n && OnBoard(n, pool)
    requires Tracks(n, unav, seeds) && NonAttacking(n, seeds)
    ensures Rounds(n, k, pool, unav, seeds).Seeded? ==>
              var s := Rounds(n, k, pool, unav, seeds).seeds;
              |s| == |seeds| + k && NonAttacking(n, s)
    decreases |pool|, k, 1
  {
    if k > 0 && |pool| > 0 {
      AcceptValid(n, k, Last(pool), DropLast(pool), unav, seeds);
    }
  }

  lemma {:induction false} AcceptValid(n: nat, k: nat, r: nat, pool: seq<nat>, unav: seq<bool>, seeds: seq<nat>)
    requires n > 0 && |unav| == n * n && OnBoard(n, pool) && r < n * n && k > 0
    requires Tracks(n, unav, seeds) && NonAttacking(n, seeds)
    ensures Accept(n, k, r, pool, unav, seeds).Seeded? ==>
              var s := Accept(n, k, r, pool, unav, seeds).seeds;
              |s| == |seeds| + k && NonAttacking(n, s)
    decreases |pool| + 1, k, 0
  {
    if unav[r] {
      if |pool| > 0 {
        AcceptValid(n, k, Last(pool), DropLast(pool), unav, seeds);
      }
    } else {
      AcceptKeepsValid(n, unav, seeds, r);
      RoundsValid(n, k - 1, pool, MarkUnavailable(n, unav, r), seeds + [r]);
    }
  }

  /** An attempt that succeeds yields n pairwise non-attacking seeds: one
      mark per row and column, no two touching, the solution the generated
      puzzle is built around. */
  lemma SeedPhaseValid(n: nat, pool: seq<nat>)
    requires n > 0 && OnBoard(n, pool)
    ensures SeedPhase(n, pool).Seeded? ==>
              |SeedPhase(n, pool).seeds| == n && NonAttacking(n, SeedPhase(n, pool).seeds)
  {
    var unav: seq<bool> := seq(n * n, _ => false);
    assert Tracks(n, unav, []);
    RoundsValid(n, n, pool, unav, []);
  }

  /** A run of unavailable cells ending, at the bottom of the pool, in an
      available one: the inner loop pops through the run and accepts the
      bottom cell, leaving the pool empty. */
  lemma {:induction false} SkipToBottom(n: nat, k: nat, r: nat, pool: seq<nat>, unav: seq<bool>, seeds: seq<nat>)
    requires n > 0 && |unav| == n * n && OnBoard(n, pool) && r < n * n && k > 0
    requires unav[r] && |pool| > 0 && !unav[pool[0]]
    requires forall i :: 1 <= i < |pool| ==> unav[pool[i]]
    ensures Accept(n, k, r, pool, unav, seeds)
         == Rounds(n, k - 1, [], MarkUnavailable(n, unav, pool[0]), seeds + [pool[0]])
    decreases |pool|
  {
    if |pool| > 1 {
      assert DropLast(pool)[0] == pool[0];
      SkipToBottom(n, k, Last(pool), DropLast(pool), unav, seeds);
    } else {
      assert DropLast(pool) == [];
    }
  }

  /** A shuffle of 0 .. 99 on which the seed phase accepts 38, 69, 91, 87, 3,
      45, 10 and 22 (popped from the end), finds every remaining cell but 74
      unavailable, accepts 74 as the ninth seed with the pool now empty, and
      begins the tenth round with an empty pool. */
  function PanicPool(): seq<nat>
  {
    [74] + Unseeded() + [22, 10, 45, 3, 87, 91, 69, 38]
  }

  /** The cells other than the nine seeds, in increasing order. */
  function Unseeded(): seq<nat>
  {
      [0, 1, 2, 4, 5, 6, 7, 8, 9] +
      [11, 12, 13, 14, 15, 16, 17, 18, 19] +
      [20, 21, 23, 24, 25, 26, 27, 28, 29] +
      [30, 31, 32, 33, 34, 35, 36, 37, 39] +
      [40, 41, 42, 43, 44, 46, 47, 48, 49] +
      [50, 51, 52, 53, 54, 55, 56, 57, 58, 59] +
      [60, 61, 62, 63, 64, 65, 66, 67, 68] +
      [70, 71, 72, 73, 75, 76, 77, 78, 79] +
      [80, 81, 82, 83, 84, 85, 86, 88, 89] +
      [90, 92, 93, 94, 95, 96, 97, 98, 99]
  }

  /** PanicPool lists each of the cells 0 .. 99, and nothing else. */
  lemma PanicPoolIsShuffle()
    ensures |PanicPool()| == 100 && OnBoard(10, PanicPool())
    ensures forall c :: 0 <= c < 100 ==> c in PanicPool()
  {
    UnseededShape();
    UnseededCovers();
    var p := PanicPool();
    forall i | 0 <= i < |p|
      ensures p[i] < 100
    {
      if 1 <= i < 92 {
        assert p[i] == Unseeded()[i - 1];
      }
    }
  }

  lemma UnseededCovers()
    ensures |Unseeded()| == 91
    ensures forall c :: 0 <= c < 100 && c !in [74, 22, 10, 45, 3, 87, 91, 69, 38] ==> c in Unseeded()
  {
  }

  lemma UnseededShape()
    ensures forall i :: 0 <= i < |Unseeded()| ==> Unseeded()[i] < 100 && Unseeded()[i] != 74
  {
    var u := Unseeded();
    forall i | 0 <= i < |u|
      ensures u[i] < 100 && u[i] != 74
    {
      assert u[i] in u;
    }
  }

  /** The eight seeds leave exactly cell 74 unattacked. */
  lemma {:induction false} EightSeedsCover(u: seq<bool>)
    requires Tracks(10, u, [38, 69, 91, 87, 3, 45, 10, 22])
    ensures forall c :: 0 <= c < 100 ==> (u[c] <==> c != 74)
  {
    var s := [38, 69, 91, 87, 3, 45, 10, 22];
    forall c | 0 <= c < 100
      ensures u[c] <==> c != 74
    {
      var row := c / 10;
      if row == 0 { assert Attacks(10, s[4], c); }
      else if row == 1 { assert Attacks(10, s[6], c); }
      else if row == 2 { assert Attacks(10, s[7], c); }
      else if row == 3 { assert Attacks(10, s[0], c); }
      else if row == 4 { assert Attacks(10, s[5], c); }
      else if row == 6 { assert Attacks(10, s[1], c); }
      else if row == 8 { assert Attacks(10, s[3], c); }
      else if row == 9 { assert Attacks(10, s[2], c); }
      else if c == 74 {
        assert forall j :: 0 <= j < |s| ==> !Attacks(10, s[j], c);
      }
      else if c == 54 || c == 56 { assert Attacks(10, s[5], c); }
      else if c == 76 { assert Attacks(10, s[3], c); }
      else {
        var col := c % 10;
        if col == 0 { assert Attacks(10, s[6], c); }
        else if col == 1 { assert Attacks(10, s[2], c); }
        else if col == 2 { assert Attacks(10, s[7], c); }
        else if col == 3 { assert Attacks(10, s[4], c); }
        else if col == 5 { assert Attacks(10, s[5], c); }
        else if col == 7 { assert Attacks(10, s[3], c); }
        else if col == 8 { assert Attacks(10, s[0], c); }
        else { assert Attacks(10, s[1], c); }
      }
    }
  }

  /** The flags after accepting the seeds s in order from an all-clear board. */
  function Marked(n: nat, s: seq<nat>): (u: seq<bool>)
    requires n > 0
    ensures |u| == n * n
  {
    if |s| == 0 then seq(n * n, _ => false) else MarkUnavailable(n, Marked(n, DropLast(s)), Last(s))
  }

  lemma {:induction false} MarkedTracks(n: nat, s: seq<nat>)
    requires n > 0
    ensures Tracks(n, Marked(n, s), s)
  {
    if |s| > 0 {
      MarkedTracks(n, DropLast(s));
      var u := Marked(n, s);
      forall c | 0 <= c < n * n
        ensures u[c] <==> exists j :: 0 <= j < |s| && Attacks(n, s[j], c)
      {
        if exists j :: 0 <= j < |s| && Attacks(n, s[j], c) {
          var j :| 0 <= j < |s| && Attacks(n, s[j], c);
          if j < |s| - 1 {
            assert DropLast(s)[j] == s[j];
          }
        }
        if u[c] && !Attacks(n, Last(s), c) {
          var j :| 0 <= j < |DropLast(s)| && Attacks(n, DropLast(s)[j], c);
          assert s[j] == DropLast(s)[j];
        }
      }
    }
  }

  /** A round whose first pop is attacked by no seed so far accepts it. */
  lemma PanicStep(k: nat, pool: seq<nat>, seeds: seq<nat>, r: nat)
    requires OnBoard(10, pool) && k > 0 && |pool| > 0 && Last(pool) == r
    requires forall j :: 0 <= j < |seeds| ==> !Attacks(10, seeds[j], r)
    ensures Rounds(10, k, pool, Marked(10, seeds), seeds)
         == Rounds(10, k - 1, DropLast(pool), Marked(10, seeds + [r]), seeds + [r])
  {
    MarkedTracks(10, seeds);
    assert DropLast(seeds + [r]) == seeds;
  }

  lemma PanicRound1(rest: seq<nat>)
    requires OnBoard(10, rest)
    ensures OnBoard(10, rest + [22, 10, 45, 3, 87, 91, 69, 38])
    ensures Rounds(10, 10, rest + [22, 10, 45, 3, 87, 91, 69, 38], Marked(10, []), [])
         == Rounds(10, 9, rest + [22, 10, 45, 3, 87, 91, 69], Marked(10, [38]), [38])
  {
    assert Last(rest + [22, 10, 45, 3, 87, 91, 69, 38]) == 38 && DropLast(rest + [22, 10, 45, 3, 87, 91, 69, 38]) == rest + [22, 10, 45, 3, 87, 91, 69];
    assert [] + [38] == [38];
    PanicStep(10, rest + [22, 10, 45, 3, 87, 91, 69, 38], [], 38);
  }

  lemma PanicRound2(rest: seq<nat>)
    requires OnBoard(10, rest)
    ensures OnBoard(10, rest + [22, 10, 45, 3, 87, 91, 69])
    ensures Rounds(10, 9, rest + [22, 10, 45, 3, 87, 91, 69], Marked(10, [38]), [38])
         == Rounds(10, 8, rest + [22, 10, 45, 3, 87, 91], Marked(10, [38, 69]), [38, 69])
  {
    assert Last(rest + [22, 10, 45, 3, 87, 91, 69]) == 69 && DropLast(rest + [22, 10, 45, 3, 87, 91, 69]) == rest + [22, 10, 45, 3, 87, 91];
    assert [38] + [69] == [38, 69];
    PanicStep(9, rest + [22, 10, 45, 3, 87, 91, 69], [38], 69);
  }

  lemma PanicRound3(rest: seq<nat>)
    requires OnBoard(10, rest)
    ensures OnBoard(10, rest + [22, 10, 45, 3, 87, 91])
    ensures Rounds(10, 8, rest + [22, 10, 45, 3, 87, 91], Marked(10, [38, 69]), [38, 69])
         == Rounds(10, 7, rest + [22, 10, 45, 3, 87], Marked(10, [38, 69, 91]), [38, 69, 91])
  {
    assert Last(rest + [22, 10, 45, 3, 87, 91]) == 91 && DropLast(rest + [22, 10, 45, 3, 87, 91]) == rest + [22, 10, 45, 3, 87];
    assert [38, 69] + [91] == [38, 69, 91];
    PanicStep(8, rest + [22, 10, 45, 3, 87, 91], [38, 69], 91);
  }

  lemma PanicRound4(rest: seq<nat>)
    requires OnBoard(10, rest)
    ensures OnBoard(10, rest + [22, 10, 45, 3, 87])
    ensures Rounds(10, 7, rest + [22, 10, 45, 3, 87], Marked(10, [38, 69, 91]), [38, 69, 91])
         == Rounds(10, 6, rest + [22, 10, 45, 3], Marked(10, [38, 69, 91, 87]), [38, 69, 91, 87])
  {
    assert Last(rest + [22, 10, 45, 3, 87]) == 87 && DropLast(rest + [22, 10, 45, 3, 87]) == rest + [22, 10, 45, 3];
    assert [38, 69, 91] + [87] == [38, 69, 91, 87];
    PanicStep(7, rest + [22, 10, 45, 3, 87], [38, 69, 91], 87);
  }

  lemma PanicRound5(rest: seq<nat>)
    requires OnBoard(10, rest)
    ensures OnBoard(10, rest + [22, 10, 45, 3])
    ensures Rounds(10, 6, rest + [22, 10, 45, 3], Marked(10, [38, 69, 91, 87]), [38, 69, 91, 87])
         == Rounds(10, 5, rest + [22, 10, 45], Marked(10, [38, 69, 91, 87, 3]), [38, 69, 91, 87, 3])
  {
    assert Last(rest + [22, 10, 45, 3]) == 3 && DropLast(rest + [22, 10, 45, 3]) == rest + [22, 10, 45];
    assert [38, 69, 91, 87] + [3] == [38, 69, 91, 87, 3];
    PanicStep(6, rest + [22, 10, 45, 3], [38, 69, 91, 87], 3);
  }

  lemma PanicRound6(rest: seq<nat>)
    requires OnBoard(10, rest)
    ensures OnBoard(10, rest + [22, 10, 45])
    ensures Rounds(10, 5, rest + [22, 10, 45], Marked(10, [38, 69, 91, 87, 3]), [38, 69, 91, 87, 3])
         == Rounds(10, 4, rest + [22, 10], Marked(10, [38, 69, 91, 87, 3, 45]), [38, 69, 91, 87, 3, 45])
  {
    assert Last(rest + [22, 10, 45]) == 45 && DropLast(rest + [22, 10, 45]) == rest + [22, 10];
    assert [38, 69, 91, 87, 3] + [45] == [38, 69, 91, 87, 3, 45];
    PanicStep(5, rest + [22, 10, 45], [38, 69, 91, 87, 3], 45);
  }

  lemma PanicRound7(rest: seq<nat>)
    requires OnBoard(10, rest)
    ensures OnBoard(10, rest + [22, 10])
    ensures Rounds(10, 4, rest + [22, 10], Marked(10, [38, 69, 91, 87, 3, 45]), [38, 69, 91, 87, 3, 45])
         == Rounds(10, 3, rest + [22], Marked(10, [38, 69, 91, 87, 3, 45, 10]), [38, 69, 91, 87, 3, 45, 10])
  {
    assert Last(rest + [22, 10]) == 10 && DropLast(rest + [22, 10]) == rest + [22];
    assert [38, 69, 91, 87, 3, 45] + [10] == [38, 69, 91, 87, 3, 45, 10];
    PanicStep(4, rest + [22, 10], [38, 69, 91, 87, 3, 45], 10);
  }

  lemma PanicRound8(rest: seq<nat>)
    requires OnBoard(10, rest)
    ensures OnBoard(10, rest + [22])
    ensures Rounds(10, 3, rest + [22], Marked(10, [38, 69, 91, 87, 3, 45, 10]), [38, 69, 91, 87, 3, 45, 10])
         == Rounds(10, 2, rest, Marked(10, [38, 69, 91, 87, 3, 45, 10, 22]), [38, 69, 91, 87, 3, 45, 10, 22])
  {
    assert Last(rest + [22]) == 22 && DropLast(rest + [22]) == rest;
    assert [38, 69, 91, 87, 3, 45, 10] + [22] == [38, 69, 91, 87, 3, 45, 10, 22];
    PanicStep(3, rest + [22], [38, 69, 91, 87, 3, 45, 10], 22);
  }

  /** Whatever lies below the eight seeds, the first eight rounds accept
      38, 69, 91, 87, 3, 45, 10 and 22. */
  lemma PanicFirstRounds(rest: seq<nat>)
    requires OnBoard(10, rest)
    ensures OnBoard(10, rest + [22, 10, 45, 3, 87, 91, 69, 38])
    ensures SeedPhase(10, rest + [22, 10, 45, 3, 87, 91, 69, 38])
         == Rounds(10, 2, rest, Marked(10, [38, 69, 91, 87, 3, 45, 10, 22]), [38, 69, 91, 87, 3, 45, 10, 22])
  {
    assert Marked(10, []) == seq(100, _ => false);
    PanicRound1(rest); PanicRound2(rest); PanicRound3(rest); PanicRound4(rest);
    PanicRound5(rest); PanicRound6(rest); PanicRound7(rest); PanicRound8(rest);
  }

  /** Below the eight seeds: 74 at the bottom, then cells other than 74. The
      ninth round pops its way down to 74 and accepts it; the tenth round
      finds the pool empty. */
  lemma {:induction false} PanicShape(rest: seq<nat>)
    requires |rest| > 0 && rest[0] == 74
    requires forall i :: 1 <= i < |rest| ==> rest[i] < 100 && rest[i] != 74
    ensures OnBoard(10, rest + [22, 10, 45, 3, 87, 91, 69, 38])
    ensures SeedPhase(10, rest + [22, 10, 45, 3, 87, 91, 69, 38]) == EmptyPoolPanic
  {
    var s8 := [38, 69, 91, 87, 3, 45, 10, 22];
    PanicFirstRounds(rest);
    var u8 := Marked(10, s8);
    MarkedTracks(10, s8);
    EightSeedsCover(u8);
    if |rest| == 1 {
      assert Rounds(10, 2, rest, u8, s8) == Rounds(10, 1, [], Marked(10, s8 + [74]), s8 + [74]) by {
        PanicStep(2, rest, s8, 74);
        assert DropLast(rest) == [];
      }
    } else {
      var below := DropLast(rest);
      assert below[0] == 74;
      SkipToBottom(10, 2, Last(rest), below, u8, s8);
    }
  }

  /** The as-written seed phase panics on PanicPool. */
  lemma PanicPoolPanics()
    ensures OnBoard(10, PanicPool()) && SeedPhase(10, PanicPool()) == EmptyPoolPanic
  {
    UnseededShape();
    var rest := [74] + Unseeded();
    assert PanicPool() == rest + [22, 10, 45, 3, 87, 91, 69, 38];
    PanicShape(rest);
  }

  // ---------------------------------------------------------------------
  // Attempts: one shuffled pool per attempt
  // ---------------------------------------------------------------------

  predicate AllOnBoard(n: nat, shuffles: seq<seq<nat>>)
  {
    forall i :: 0 <= i < |shuffles| ==> OnBoard(n, shuffles[i])
  }

  datatype Attempts = Found(seeds: seq<nat>) | Panicked | OutOfShuffles

  /** The seed phase as written: an attempt that exhausts its pool inside
      a round starts over with the next shuffle (the recursive call of
      `generate_layout`); an attempt whose round begins with an empty pool
      panics. OutOfShuffles: the supplied shuffles ran out first. */
  function SeedsAsWritten(n: nat, shuffles: seq<seq<nat>>): Attempts
    requires n > 0 && AllOnBoard(n, shuffles)
  {
    if |shuffles| == 0 then OutOfShuffles
    else
      match SeedPhase(n, shuffles[0])
      case Seeded(s) => Found(s)
      case Exhausted => SeedsAsWritten(n, shuffles[1..])
      case EmptyPoolPanic => Panicked
  }

  /** The seed phase with both kinds of exhaustion starting over, as the
      "try again" of the inner loop intends: the first attempt that places
      n seeds wins, and its seeds are n pairwise non-attacking cells. None:
      the supplied shuffles ran out first. */
  function Seeds(n: nat, shuffles: seq<seq<nat>>): (r: Option<seq<nat>>)
    requires n > 0 && AllOnBoard(n, shuffles)
    ensures r.Some? ==> |r.value| == n && NonAttacking(n, r.value)
    ensures r.Some? ==> FirstSeeded(n, shuffles, r.value)
    ensures r.None? ==> forall i :: 0 <= i < |shuffles| ==> !SeedPhase(n, shuffles[i]).Seeded?
  {
    if |shuffles| == 0 then None
    else
      match SeedPhase(n, shuffles[0])
      case Seeded(s) =>
        SeedPhaseValid(n, shuffles[0]);
        Some(s)
      case _ =>
        var r := Seeds(n, shuffles[1..]);
        assert r.None? ==> forall i :: 1 <= i < |shuffles| ==> shuffles[i] == shuffles[1..][i - 1];
        if r.Some? then FirstSeededLater(n, shuffles, r.value); r else r
  }

  /** Attempt i is the first of the shuffles to place its seeds, and it
      placed these. */
  ghost predicate FirstSeeded(n: nat, shuffles: seq<seq<nat>>, seeds: seq<nat>)
    requires n > 0 && AllOnBoard(n, shuffles)
  {
    exists i :: 0 <= i < |shuffles| && SeedPhase(n, shuffles[i]) == Seeded(seeds)
                && forall j :: 0 <= j < i ==> !SeedPhase(n, shuffles[j]).Seeded?
  }

  /** An attempt that fails moves the first success one shuffle later. */
  lemma FirstSeededLater(n: nat, shuffles: seq<seq<nat>>, seeds: seq<nat>)
    requires n > 0 && AllOnBoard(n, shuffles) && |shuffles| > 0
    requires !SeedPhase(n, shuffles[0]).Seeded? && FirstSeeded(n, shuffles[1..], seeds)
    ensures FirstSeeded(n, shuffles, seeds)
  {
    var i :| 0 <= i < |shuffles[1..]| && SeedPhase(n, shuffles[1..][i]) == Seeded(seeds)
             && forall j :: 0 <= j < i ==> !SeedPhase(n, shuffles[1..][j]).Seeded?;
    assert SeedPhase(n, shuffles[i + 1]) == Seeded(seeds);
    forall j | 0 <= j < i + 1
      ensures !SeedPhase(n, shuffles[j]).Seeded?
    {
      if j > 0 {
        assert shuffles[j] == shuffles[1..][j - 1];
      }
    }
  }

  /** Where the source does not panic, the corrected phase does what it does. */
  lemma {:induction false} SeedsAgreeUnlessPanic(n: nat, shuffles: seq<seq<nat>>)
    requires n > 0 && AllOnBoard(n, shuffles)
    ensures SeedsAsWritten(n, shuffles).Found? ==> Seeds(n, shuffles) == Some(SeedsAsWritten(n, shuffles).seeds)
    ensures SeedsAsWritten(n, shuffles).OutOfShuffles? ==> Seeds(n, shuffles) == None
  {
    if |shuffles| > 0 && SeedPhase(n, shuffles[0]).Exhausted? {
      SeedsAgreeUnlessPanic(n, shuffles[1..]);
    }
  }

  /** On PanicPool the source panics where the corrected phase asks for
      the next shuffle. */
  lemma PanicPoolRestarts(next: seq<seq<nat>>)
    requires AllOnBoard(10, next)
    ensures AllOnBoard(10, [PanicPool()] + next)
    ensures SeedsAsWritten(10, [PanicPool()] + next) == Panicked
    ensures Seeds(10, [PanicPool()] + next) == Seeds(10, next)
  {
    PanicPoolPanics();
    assert ([PanicPool()] + next)[0] == PanicPool();
    assert ([PanicPool()] + next)[1..] == next;
  }
}
