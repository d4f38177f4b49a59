/** Areas and layouts of src/model/layout.rs. A `Section` is a half-open
    index range, an `Area` is the in-order list of the cells of its sections
    together with a colour, and a `Layout` is a list of areas. */
module Layouts {
  import opened Wrappers
  import opened Errors
  import Board

  /** `Range<usize>`: the indices start, start + 1, ..., end - 1 (none when
      start >= end). */
  datatype Section = Section(start: nat, end: nat)

  /** The indices of a section, in increasing order. */
  function Cells(s: Section): (r: seq<nat>)
    ensures forall x :: x in r <==> s.start <= x < s.end
    ensures |r| == if s.start < s.end then s.end - s.start else 0
    ensures forall k :: 0 <= k < |r| ==> r[k] == s.start + k
  {
    if s.start < s.end then
      var r := seq(s.end - s.start, k => s.start + k);
      assert forall x :: s.start <= x < s.end ==> x in r by {
        forall x | s.start <= x < s.end
          ensures x in r
        {
          assert r[x - s.start] == x;
        }
      }
      r
    else
      []
  }

  /** `From<usize>`: the one-cell section v..v+1. */
  function SectionFromIndex(v: nat): (s: Section)
    ensures Cells(s) == [v]
  {
    Section(v, v + 1)
  }

  /** `From<Range<usize>>`: the range itself. */
  function SectionFromRange(a: nat, b: nat): (s: Section)
    ensures forall x :: x in Cells(s) <==> a <= x < b
  {
    Section(a, b)
  }

  /** `From<RangeInclusive<usize>>`: a..=b becomes a..b+1. */
  function SectionFromInclusive(a: nat, b: nat): (s: Section)
    ensures forall x :: x in Cells(s) <==> a <= x <= b
  {
    Section(a, b + 1)
  }

  /** The cells of a list of sections, section after section. */
  function Flatten(secs: seq<Section>): seq<nat>
  {
    if |secs| == 0 then [] else Cells(secs[0]) + Flatten(secs[1..])
  }

  /** A cell is in the flattening exactly when one of the sections holds it. */
  lemma {:induction false} FlattenMembers(secs: seq<Section>)
    ensures forall x :: x in Flatten(secs) <==> exists j :: 0 <= j < |secs| && secs[j].start <= x < secs[j].end
    decreases |secs|
  {
    if |secs| > 0 {
      FlattenMembers(secs[1..]);
      var r := Flatten(secs);
      assert r == Cells(secs[0]) + Flatten(secs[1..]);
      forall x | x in r
        ensures exists j :: 0 <= j < |secs| && secs[j].start <= x < secs[j].end
      {
        if x !in Cells(secs[0]) {
          var j :| 0 <= j < |secs[1..]| && secs[1..][j].start <= x < secs[1..][j].end;
          assert secs[j + 1] == secs[1..][j];
        }
      }
      forall x | exists j :: 0 <= j < |secs| && secs[j].start <= x < secs[j].end
        ensures x in r
      {
        var j :| 0 <= j < |secs| && secs[j].start <= x < secs[j].end;
        if j > 0 {
          assert secs[1..][j - 1] == secs[j];
        }
      }
    }
  }

  /** `Area::from_sections` keeps the order of its sections: flattening a
      concatenation concatenates the flattenings. */
  lemma {:induction false} FlattenAppend(a: seq<Section>, b: seq<Section>)
    ensures Flatten(a + b) == Flatten(a) + Flatten(b)
    decreases |a|
  {
    if |a| == 0 {
      assert a + b == b;
    } else {
      assert (a + b)[0] == a[0];
      assert (a + b)[1..] == a[1..] + b;
      FlattenAppend(a[1..], b);
    }
  }

  /** A coloured area; `sections` in the source, the flat list of its cells. */
  datatype Area = Area(cells: seq<nat>, color: U8)

  function AreaFromSections(secs: seq<Section>, color: U8): Area
  {
    Area(Flatten(secs), color)
  }

  /** `Area::from_usize`: a one-cell area. */
  function AreaFromUsize(i: nat, color: U8): (a: Area)
    ensures a.cells == [i] && a.color == color
  {
    var secs := [SectionFromIndex(i)];
    assert secs[1..] == [];
    assert Flatten(secs) == Cells(secs[0]) + Flatten([]);
    AreaFromSections([SectionFromIndex(i)], color)
  }

  datatype Layout = Layout(areas: seq<Area>)

  /** `Layout::from_sections`: exactly n section lists are demanded (the
      source panics otherwise); list i becomes area i with colour `i as u8`,
      and overlaps between the lists are not looked at. */
  function FromSections(secs: seq<seq<Section>>, n: nat): (l: Layout)
    requires |secs| == n
    ensures |l.areas| == n
    ensures forall i :: 0 <= i < n ==> l.areas[i].color == i % 256
    ensures forall i, x :: 0 <= i < n ==>
              (x in l.areas[i].cells <==> exists j :: 0 <= j < |secs[i]| && secs[i][j].start <= x < secs[i][j].end)
  {
    var l := Layout(seq(n, i requires 0 <= i < n => AreaFromSections(secs[i], i % 256)));
    assert forall i, x :: 0 <= i < n ==>
             (x in l.areas[i].cells <==> exists j :: 0 <= j < |secs[i]| && secs[i][j].start <= x < secs[i][j].end) by {
      forall i | 0 <= i < n {
        FlattenMembers(secs[i]);
      }
    }
    l
  }

  /** Index of the first area holding cell `index`, or |areas| when none does. */
  function FirstContaining(areas: seq<Area>, index: nat): (k: nat)
    ensures k <= |areas|
    ensures k < |areas| ==> index in areas[k].cells
    ensures forall j :: 0 <= j < k ==> index !in areas[j].cells
  {
    if |areas| == 0 then 0
    else if index in areas[0].cells then 0
    else 1 + FirstContaining(areas[1..], index)
  }

  /** `get_area`: the first area, in layout order, whose cells hold `index`;
      an error when no area does. */
  function GetArea(l: Layout, index: nat): (r: Result<Area, QueensError>)
    ensures r.Ok? <==> exists k :: 0 <= k < |l.areas| && index in l.areas[k].cells
    ensures r.Ok? ==> index in r.value.cells
    ensures r.Ok? ==> exists k :: 0 <= k < |l.areas| && r.value == l.areas[k] &&
                                  forall j :: 0 <= j < k ==> index !in l.areas[j].cells
    ensures r.Err? ==> r.error == AreaNotFound(index)
  {
    var k := FirstContaining(l.areas, index);
    if k < |l.areas| then Ok(l.areas[k]) else Err(AreaNotFound(index))
  }

  /** No cell is listed twice within one area or in two areas. */
  ghost predicate Disjoint(l: Layout)
  {
    forall k1, i1, k2, i2 ::
      && 0 <= k1 < |l.areas| && 0 <= i1 < |l.areas[k1].cells|
      && 0 <= k2 < |l.areas| && 0 <= i2 < |l.areas[k2].cells|
      && l.areas[k1].cells[i1] == l.areas[k2].cells[i2]
      ==> k1 == k2 && i1 == i2
  }

  ghost predicate InSomeArea(l: Layout, x: nat)
  {
    exists k :: 0 <= k < |l.areas| && x in l.areas[k].cells
  }

  /** The areas cover the cells 0 .. size-1, each exactly once, and list no
      other cell. */
  ghost predicate IsPartition(l: Layout, size: nat)
  {
    && (forall k, i :: 0 <= k < |l.areas| && 0 <= i < |l.areas[k].cells| ==> l.areas[k].cells[i] < size)
    && (forall x :: 0 <= x < size ==> InSomeArea(l, x))
    && Disjoint(l)
  }

  /** Within a partition, the area found for a cell is the one area holding it. */
  lemma GetAreaInPartition(l: Layout, size: nat, x: nat, k: nat)
    requires IsPartition(l, size)
    requires k < |l.areas| && x in l.areas[k].cells
    ensures GetArea(l, x) == Ok(l.areas[k])
  {
    var j := FirstContaining(l.areas, x);
    var i1 :| 0 <= i1 < |l.areas[j].cells| && l.areas[j].cells[i1] == x;
    var i2 :| 0 <= i2 < |l.areas[k].cells| && l.areas[k].cells[i2] == x;
  }

  predicate NoDuplicates(s: seq<nat>)
  {
    forall i, j :: 0 <= i < j < |s| ==> s[i] != s[j]
  }

  /** Each element below the next. */
  predicate Increasing(s: seq<nat>)
  {
    forall i :: 0 < i < |s| ==> s[i - 1] < s[i]
  }

  /** In an increasing list an element is below every later one. */
  lemma {:induction false} IncreasingBelow(s: seq<nat>, i: nat, j: nat)
    requires Increasing(s) && i < j < |s|
    ensures s[i] < s[j]
    decreases j - i
  {
    if i + 1 < j {
      IncreasingBelow(s, i, j - 1);
    }
  }

  /** An increasing list repeats nothing. */
  lemma IncreasingNoDuplicates(s: seq<nat>)
    requires Increasing(s)
    ensures NoDuplicates(s)
  {
    forall i, j | 0 <= i < j < |s|
      ensures s[i] != s[j]
    {
      IncreasingBelow(s, i, j);
    }
  }

  /** A layout whose areas are exactly the owner classes of a colouring
      `owner` of 0 .. size-1, no area listing a cell twice, is a partition. */
  lemma PartitionByOwner(l: Layout, size: nat, owner: nat -> nat)
    requires forall k, x: nat :: 0 <= k < |l.areas| && x in l.areas[k].cells ==> x < size && owner(x) == k
    requires forall x: nat :: x < size ==> owner(x) < |l.areas| && x in l.areas[owner(x)].cells
    requires forall k :: 0 <= k < |l.areas| ==> NoDuplicates(l.areas[k].cells)
    ensures IsPartition(l, size)
  {
    forall k, i | 0 <= k < |l.areas| && 0 <= i < |l.areas[k].cells|
      ensures l.areas[k].cells[i] < size
    {
      var x: nat := l.areas[k].cells[i];
      assert x in l.areas[k].cells;
      assert 0 <= k < |l.areas| && x in l.areas[k].cells;
      assert owner(x) == k;
    }
    forall x: nat | x < size
      ensures InSomeArea(l, x)
    {
      assert x in l.areas[owner(x)].cells;
    }
    forall k1, i1, k2, i2 |
      && 0 <= k1 < |l.areas| && 0 <= i1 < |l.areas[k1].cells|
      && 0 <= k2 < |l.areas| && 0 <= i2 < |l.areas[k2].cells|
      && l.areas[k1].cells[i1] == l.areas[k2].cells[i2]
      ensures k1 == k2 && i1 == i2
    {
      var x: nat := l.areas[k1].cells[i1];
      assert x in l.areas[k1].cells && x in l.areas[k2].cells;
      assert owner(x) == k1 && owner(x) == k2;
    }
  }
}
