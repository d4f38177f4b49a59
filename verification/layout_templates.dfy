/** The row-band layout of src/model/layout.rs (`easy_layout`): area i is
    row i of the board. */
module LayoutTemplates {
  import opened Layouts
  import Board

  /** Area i of the row bands is the single range i*n .. (i+1)*n. */
  function RowBandSections(n: nat): (secs: seq<seq<Section>>)
    ensures |secs| == n
  {
    seq(n, (i: int) requires 0 <= i < n => [SectionFromRange(i * n, (i + 1) * n)])
  }

  /** `easy_layout`: area i is row i. */
  function EasyLayout(n: nat): Layout
  {
    FromSections(RowBandSections(n), n)
  }

  lemma FlattenSingle(s: Section)
    ensures Flatten([s]) == Cells(s)
  {
    assert [s][1..] == [];
  }

  /** Area i of the row bands lists the cells n*i .. n*i+n-1, in order. */
  lemma EasyLayoutArea(n: nat, i: nat)
    requires n <= 256 && i < n
    ensures |EasyLayout(n).areas| == n
    ensures EasyLayout(n).areas[i].cells == seq(n, k => i * n + k)
    ensures EasyLayout(n).areas[i].color == i
  {
    FlattenSingle(SectionFromRange(i * n, (i + 1) * n));
    assert (i + 1) * n == i * n + n;
  }

  /** Row bands by rows: a cell lies in area i exactly when it is on the
      board and in row i. */
  lemma EasyLayoutMembers(n: nat, i: nat, x: nat)
    requires 0 < n <= 256 && i < n
    ensures x in EasyLayout(n).areas[i].cells <==> x < n * n && Board.Row(n, x) == i
  {
    var cells := EasyLayout(n).areas[i].cells;
    EasyLayoutArea(n, i);
    if x in cells {
      var k :| 0 <= k < n && cells[k] == x;
      Board.DivModUnique(n, i, k);
      Board.IndexInBoard(n, i, k);
    }
    if x < n * n && Board.Row(n, x) == i {
      Board.RowInBoard(n, x);
      assert cells[Board.Col(n, x)] == x;
    }
  }

  /** The row bands partition the board. */
  lemma EasyLayoutPartition(n: nat)
    requires n <= 256
    ensures IsPartition(EasyLayout(n), n * n)
  {
    var l := EasyLayout(n);
    forall k | 0 <= k < n
      ensures l.areas[k].cells == seq(n, j => k * n + j)
    {
      EasyLayoutArea(n, k);
    }
    BandsPartition(l, n);
  }

  /** Any layout whose area k lists n*k .. n*k+n-1 is a partition. */
  lemma BandsPartition(l: Layout, n: nat)
    requires |l.areas| == n
    requires forall k :: 0 <= k < n ==> l.areas[k].cells == seq(n, j => k * n + j)
    ensures IsPartition(l, n * n)
  {
    forall k, i | 0 <= k < n && 0 <= i < |l.areas[k].cells|
      ensures l.areas[k].cells[i] < n * n
    {
      Board.IndexInBoard(n, k, i);
    }
    forall x: nat | x < n * n
      ensures InSomeArea(l, x)
    {
      Board.RowInBoard(n, x);
      assert l.areas[x / n].cells[x % n] == x;
    }
    forall k1, i1, k2, i2 |
      && 0 <= k1 < n && 0 <= i1 < |l.areas[k1].cells|
      && 0 <= k2 < n && 0 <= i2 < |l.areas[k2].cells|
      && l.areas[k1].cells[i1] == l.areas[k2].cells[i2]
      ensures k1 == k2 && i1 == i2
    {
      Board.DivModUnique(n, k1, i1);
      Board.DivModUnique(n, k2, i2);
    }
  }
}
