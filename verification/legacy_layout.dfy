/** The older layout of src/state/layout.rs: areas are bare cell lists
    kept as the keys of a map to their colour. Its `Section` conversions
    and `Area::from_sections` are the ones of src/model/layout.rs, so the
    same `Layouts` functions serve both. */
module LegacyLayouts {
  import opened Wrappers
  import opened Errors
  import opened Layouts
  import LayoutTemplates
  import Board
  import ComplexTemplate

  /** `colors: HashMap<Area, u8>`. */
  datatype LegacyLayout = LegacyLayout(colors: map<seq<nat>, U8>)

  /** Area `a` is entered last at index j of `areas`. */
  predicate LastAt(areas: seq<seq<nat>>, a: seq<nat>, j: nat)
  {
    j < |areas| && areas[j] == a && forall j' :: j < j' < |areas| ==> areas[j'] != a
  }

  /** `Layout::from_areas`: area i is inserted with colour `i as u8`, in
      order, so an area listed twice keeps the colour of its last entry. */
  function FromAreas(areas: seq<seq<nat>>): (l: LegacyLayout)
    ensures forall a :: a in l.colors <==> a in areas
    ensures forall a :: a in l.colors ==> exists j: nat :: LastAt(areas, a, j) && l.colors[a] == j % 256
    decreases |areas|
  {
    if |areas| == 0 then LegacyLayout(map[])
    else
      var front := areas[..|areas| - 1];
      var a := areas[|areas| - 1];
      var l := FromAreas(front);
      var r := LegacyLayout(l.colors[a := (|areas| - 1) % 256]);
      assert areas == front + [a];
      assert forall b :: b in r.colors ==> exists j: nat :: LastAt(areas, b, j) && r.colors[b] == j % 256 by {
        forall b | b in r.colors
          ensures exists j: nat :: LastAt(areas, b, j) && r.colors[b] == j % 256
        {
          if b == a {
            assert LastAt(areas, b, |areas| - 1);
          } else {
            var j: nat :| LastAt(front, b, j) && l.colors[b] == j % 256;
            assert LastAt(areas, b, j);
          }
        }
      }
      r
  }

  /** `Layout::from_sections`: exactly n section lists are demanded (the
      source panics otherwise); list i is flattened into area i, and
      overlaps are not looked at. */
  function FromSections(secs: seq<seq<Section>>, n: nat): LegacyLayout
    requires |secs| == n
  {
    FromAreas(SectionAreas(secs))
  }

  /** `Area::from_sections` on each list. */
  function SectionAreas(secs: seq<seq<Section>>): (areas: seq<seq<nat>>)
    ensures |areas| == |secs|
  {
    seq(|secs|, i requires 0 <= i < |secs| => Flatten(secs[i]))
  }

  /** The legacy areas are the cells of the current version's areas. */
  lemma SameCells(secs: seq<seq<Section>>, n: nat)
    requires |secs| == n
    ensures forall i :: 0 <= i < n ==> Layouts.FromSections(secs, n).areas[i].cells == SectionAreas(secs)[i]
  {
  }

  /** With pairwise different areas every area keeps its own index as
      colour and there is one key per area. */
  lemma {:induction false} DistinctAreasKeepIndex(areas: seq<seq<nat>>)
    requires forall i, j :: 0 <= i < j < |areas| ==> areas[i] != areas[j]
    ensures forall i :: 0 <= i < |areas| ==> areas[i] in FromAreas(areas).colors && FromAreas(areas).colors[areas[i]] == i % 256
    ensures |FromAreas(areas).colors| == |areas|
  {
    var l := FromAreas(areas);
    forall i | 0 <= i < |areas|
      ensures l.colors[areas[i]] == i % 256
    {
      var j: nat :| LastAt(areas, areas[i], j) && l.colors[areas[i]] == j % 256;
      assert areas[j] == areas[i];
      assert j == i;
    }
    DistinctKeyCount(areas);
  }

  /** The key set of n pairwise different areas has n elements. */
  lemma {:induction false} DistinctKeyCount(areas: seq<seq<nat>>)
    requires forall i, j :: 0 <= i < j < |areas| ==> areas[i] != areas[j]
    ensures |FromAreas(areas).colors| == |areas|
    decreases |areas|
  {
    if |areas| > 0 {
      var front := areas[..|areas| - 1];
      var a := areas[|areas| - 1];
      DistinctKeyCount(front);
      assert a !in FromAreas(front).colors by {
        forall i | 0 <= i < |front|
          ensures front[i] != a
        {
          assert front[i] == areas[i];
        }
      }
    }
  }

  /** Two identical areas collapse into one map entry: it keeps the colour
      of an entry no earlier than the later of the two, and the map has
      fewer keys than there are areas. */
  lemma IdenticalAreasCollapse(areas: seq<seq<nat>>, i: nat, j: nat)
    requires i < j < |areas| && areas[i] == areas[j]
    ensures areas[i] in FromAreas(areas).colors
    ensures exists j' :: j <= j' < |areas| && areas[j'] == areas[i] && FromAreas(areas).colors[areas[i]] == j' % 256
    ensures |FromAreas(areas).colors| < |areas|
  {
    var l := FromAreas(areas);
    var a := areas[i];
    assert a in areas;
    var j': nat :| LastAt(areas, a, j') && l.colors[a] == j' % 256;
    assert areas[j] == a;
    assert j <= j';
    KeyCountBelow(areas, i, j);
  }

  /** The map has at most one key per area. */
  lemma {:induction false} KeyCountAtMost(areas: seq<seq<nat>>)
    ensures |FromAreas(areas).colors| <= |areas|
    decreases |areas|
  {
    if |areas| > 0 {
      var front := areas[..|areas| - 1];
      KeyCountAtMost(front);
      LastInsert(areas);
    }
  }

  /** An area listed twice makes the map smaller than the list. */
  lemma {:induction false} KeyCountBelow(areas: seq<seq<nat>>, i: nat, j: nat)
    requires i < j < |areas| && areas[i] == areas[j]
    ensures |FromAreas(areas).colors| < |areas|
    decreases |areas|
  {
    var front := areas[..|areas| - 1];
    LastInsert(areas);
    if j == |areas| - 1 {
      assert front[i] == areas[j];
      KeyCountAtMost(front);
    } else {
      assert front[i] == front[j];
      KeyCountBelow(front, i, j);
    }
  }

  /** The last area adds a key exactly when no earlier area equals it. */
  lemma LastInsert(areas: seq<seq<nat>>)
    requires |areas| > 0
    ensures var front := areas[..|areas| - 1];
            |FromAreas(areas).colors| ==
              if areas[|areas| - 1] in front then |FromAreas(front).colors| else |FromAreas(front).colors| + 1
  {
    var front := areas[..|areas| - 1];
    var a := areas[|areas| - 1];
    var m := FromAreas(front).colors;
    assert FromAreas(areas).colors == m[a := (|areas| - 1) % 256];
    assert a in m <==> a in front;
  }

  /** `get_color`: the colour stored for an area; the source panics on an
      area that is not a key. */
  function GetColor(l: LegacyLayout, a: seq<nat>): U8
    requires a in l.colors
  {
    l.colors[a]
  }

  /** Looking up an area of a layout built from pairwise different areas
      gives that area's index. */
  lemma GetColorOfArea(areas: seq<seq<nat>>, i: nat)
    requires forall i, j :: 0 <= i < j < |areas| ==> areas[i] != areas[j]
    requires i < |areas|
    ensures areas[i] in FromAreas(areas).colors && GetColor(FromAreas(areas), areas[i]) == i % 256
  {
    DistinctAreasKeepIndex(areas);
  }

  /** `order` lists every key of the map once: the iteration order of the
      `HashMap`, which the source does not fix. */
  ghost predicate Enumerates(order: seq<seq<nat>>, l: LegacyLayout)
  {
    && (forall a :: a in order <==> a in l.colors)
    && (forall i, j :: 0 <= i < j < |order| ==> order[i] != order[j])
  }

  /** The first area of `order` holding `index`. */
  function FirstHolding(order: seq<seq<nat>>, index: nat): (k: nat)
    ensures k <= |order|
    ensures k < |order| ==> index in order[k]
    ensures forall j :: 0 <= j < k ==> index !in order[j]
  {
    if |order| == 0 then 0
    else if index in order[0] then 0
    else 1 + FirstHolding(order[1..], index)
  }

  /** `get_area`: the first area, in iteration order, whose cells hold
      `index`, or the error string. */
  function GetArea(l: LegacyLayout, order: seq<seq<nat>>, index: nat): (r: Result<seq<nat>, string>)
    requires Enumerates(order, l)
    ensures r.Ok? <==> exists a :: a in l.colors && index in a
    ensures r.Ok? ==> r.value in l.colors && index in r.value
    ensures r.Err? ==> r.error == "No colored area found for index"
  {
    var k := FirstHolding(order, index);
    if k < |order| then Ok(order[k])
    else
      assert forall a :: a in l.colors ==> index !in a by {
        forall a | a in l.colors
          ensures index !in a
        {
          var j :| 0 <= j < |order| && order[j] == a;
        }
      }
      Err("No colored area found for index")
  }

  /** Keys that share no cell. */
  ghost predicate KeysDisjoint(l: LegacyLayout)
  {
    forall a, b, x :: a in l.colors && b in l.colors && x in a && x in b ==> a == b
  }

  /** With disjoint keys the area found does not depend on the iteration
      order: it is the one key holding the index. */
  lemma GetAreaUnique(l: LegacyLayout, o1: seq<seq<nat>>, o2: seq<seq<nat>>, index: nat)
    requires Enumerates(o1, l) && Enumerates(o2, l) && KeysDisjoint(l)
    ensures GetArea(l, o1, index) == GetArea(l, o2, index)
  {
  }

  /** `easy_layout` (n = 10): area i is row i. */
  function EasyLayout(): LegacyLayout
  {
    FromSections(LayoutTemplates.RowBandSections(10), 10)
  }

  /** `Default` is the row-band layout: ten keys partitioning 0 .. 99,
      each cell coloured by its row. */
  function Default(): (l: LegacyLayout)
    ensures LegacyPartition(l, 10, 100)
    ensures forall a, x :: a in l.colors && x in a ==> l.colors[a] == x / 10
  {
    EasyLayoutPartition();
    EasyLayout()
  }

  /** `complex_layout` (n = 10): the same ten section lists as the current
      version's. */
  function ComplexLayout(): LegacyLayout
  {
    FromSections(ComplexTemplate.ComplexSections(), 10)
  }

  /** Some key holds cell x. */
  ghost predicate Covered(l: LegacyLayout, x: nat)
  {
    exists a :: a in l.colors && x in a
  }

  /** Every cell of area a is below size. */
  predicate Below(a: seq<nat>, size: nat)
  {
    forall i :: 0 <= i < |a| ==> a[i] < size
  }

  /** The legacy counterpart of a partition of 0 .. size-1 into n areas:
      n keys, all cells on the board, every cell held, no cell held twice. */
  ghost predicate LegacyPartition(l: LegacyLayout, n: nat, size: nat)
  {
    && |l.colors| == n
    && (forall a :: a in l.colors ==> Below(a, size))
    && (forall x :: 0 <= x < size ==> Covered(l, x))
    && KeysDisjoint(l)
  }

  /** Areas that are the cells of a partition of the board, none empty,
      give a legacy layout with one key per area, coloured by its index,
      that is a partition too. */
  lemma FromPartition(m: Layout, areas: seq<seq<nat>>, size: nat)
    requires IsPartition(m, size) && |m.areas| == |areas|
    requires forall i :: 0 <= i < |areas| ==> m.areas[i].cells == areas[i] && |areas[i]| > 0
    ensures LegacyPartition(FromAreas(areas), |areas|, size)
    ensures forall i :: 0 <= i < |areas| ==> areas[i] in FromAreas(areas).colors && FromAreas(areas).colors[areas[i]] == i % 256
  {
    assert forall i, j :: 0 <= i < j < |areas| ==> areas[i] != areas[j] by {
      AreasDistinct(m, areas);
    }
    DistinctAreasKeepIndex(areas);
    PartitionKeys(m, areas, size);
  }

  lemma PartitionKeys(m: Layout, areas: seq<seq<nat>>, size: nat)
    requires IsPartition(m, size) && |m.areas| == |areas|
    requires forall i :: 0 <= i < |areas| ==> m.areas[i].cells == areas[i] && |areas[i]| > 0
    requires |FromAreas(areas).colors| == |areas|
    ensures LegacyPartition(FromAreas(areas), |areas|, size)
  {
    var l := FromAreas(areas);
    assert forall a :: a in l.colors ==> Below(a, size) by {
      KeysBelow(m, areas, size);
    }
    assert forall x :: 0 <= x < size ==> Covered(l, x) by {
      KeysCover(m, areas, size);
    }
    assert KeysDisjoint(l) by {
      KeysApart(m, areas);
    }
  }

  lemma AreasDistinct(m: Layout, areas: seq<seq<nat>>)
    requires Disjoint(m) && |m.areas| == |areas|
    requires forall i :: 0 <= i < |areas| ==> m.areas[i].cells == areas[i] && |areas[i]| > 0
    ensures forall i, j :: 0 <= i < j < |areas| ==> areas[i] != areas[j]
  {
    forall i, j | 0 <= i < j < |areas|
      ensures areas[i] != areas[j]
    {
      assert m.areas[i].cells[0] != m.areas[j].cells[0];
    }
  }

  lemma KeysBelow(m: Layout, areas: seq<seq<nat>>, size: nat)
    requires IsPartition(m, size) && |m.areas| == |areas|
    requires forall i :: 0 <= i < |areas| ==> m.areas[i].cells == areas[i]
    ensures forall a :: a in FromAreas(areas).colors ==> Below(a, size)
  {
    forall a | a in FromAreas(areas).colors
      ensures Below(a, size)
    {
      var i :| 0 <= i < |areas| && areas[i] == a;
      assert m.areas[i].cells == a;
    }
  }

  lemma KeysCover(m: Layout, areas: seq<seq<nat>>, size: nat)
    requires IsPartition(m, size) && |m.areas| == |areas|
    requires forall i :: 0 <= i < |areas| ==> m.areas[i].cells == areas[i]
    ensures forall x :: 0 <= x < size ==> Covered(FromAreas(areas), x)
  {
    forall x | 0 <= x < size
      ensures Covered(FromAreas(areas), x)
    {
      assert InSomeArea(m, x);
      var k :| 0 <= k < |m.areas| && x in m.areas[k].cells;
      assert areas[k] in FromAreas(areas).colors;
    }
  }

  lemma KeysApart(m: Layout, areas: seq<seq<nat>>)
    requires Disjoint(m) && |m.areas| == |areas|
    requires forall i :: 0 <= i < |areas| ==> m.areas[i].cells == areas[i]
    ensures KeysDisjoint(FromAreas(areas))
  {
    var l := FromAreas(areas);
    forall a, b, x | a in l.colors && b in l.colors && x in a && x in b
      ensures a == b
    {
      SharedCell(m, areas, a, b, x);
    }
  }

  /** Two areas of a disjoint layout sharing a cell are the same area. */
  lemma SharedCell(m: Layout, areas: seq<seq<nat>>, a: seq<nat>, b: seq<nat>, x: nat)
    requires Disjoint(m) && |m.areas| == |areas|
    requires forall i :: 0 <= i < |areas| ==> m.areas[i].cells == areas[i]
    requires a in areas && b in areas && x in a && x in b
    ensures a == b
  {
    var i :| 0 <= i < |areas| && areas[i] == a;
    var j :| 0 <= j < |areas| && areas[j] == b;
    var p :| 0 <= p < |a| && a[p] == x;
    var q :| 0 <= q < |b| && b[q] == x;
    assert m.areas[i].cells[p] == m.areas[j].cells[q];
  }

  /** When area i holds only cells whose owner is i, a key's colour is the
      owner of each of its cells. */
  lemma ColourIsOwner(areas: seq<seq<nat>>, owner: nat -> nat)
    requires |areas| <= 256
    requires forall i, j :: 0 <= i < j < |areas| ==> areas[i] != areas[j]
    requires forall i, x :: 0 <= i < |areas| && x in areas[i] ==> owner(x) == i
    ensures forall a, x :: a in FromAreas(areas).colors && x in a ==> FromAreas(areas).colors[a] == owner(x)
  {
    DistinctAreasKeepIndex(areas);
    forall a, x | a in FromAreas(areas).colors && x in a
      ensures FromAreas(areas).colors[a] == owner(x)
    {
      var i :| 0 <= i < |areas| && areas[i] == a;
      Board.ModSmall(i, 256);
    }
  }

  /** Row band i holds the cells of row i. */
  lemma EasyOwners()
    ensures forall i, x :: 0 <= i < 10 && x in SectionAreas(LayoutTemplates.RowBandSections(10))[i] ==> x / 10 == i
  {
    var secs := LayoutTemplates.RowBandSections(10);
    SameCells(secs, 10);
    forall i, x | 0 <= i < 10 && x in SectionAreas(secs)[i]
      ensures x / 10 == i
    {
      LayoutTemplates.EasyLayoutMembers(10, i, x);
    }
  }

  /** The legacy row bands are the cells of the current row bands. */
  lemma EasyAreas()
    ensures IsPartition(LayoutTemplates.EasyLayout(10), 100)
    ensures |LayoutTemplates.EasyLayout(10).areas| == 10
    ensures forall i :: 0 <= i < 10 ==>
              && LayoutTemplates.EasyLayout(10).areas[i].cells == SectionAreas(LayoutTemplates.RowBandSections(10))[i]
              && |SectionAreas(LayoutTemplates.RowBandSections(10))[i]| > 0
  {
    var secs := LayoutTemplates.RowBandSections(10);
    LayoutTemplates.EasyLayoutPartition(10);
    SameCells(secs, 10);
    forall i | 0 <= i < 10
      ensures |SectionAreas(secs)[i]| > 0
    {
      LayoutTemplates.EasyLayoutArea(10, i);
    }
  }

  /** The legacy row bands partition 0 .. 99 into ten keys; a key's
      colour is the row of each of its cells. */
  lemma EasyLayoutPartition()
    ensures LegacyPartition(EasyLayout(), 10, 100)
    ensures forall a, x :: a in EasyLayout().colors && x in a ==> EasyLayout().colors[a] == x / 10
  {
    EasyKeys();
    EasyColours();
  }

  lemma EasyKeys()
    ensures LegacyPartition(EasyLayout(), 10, 100)
  {
    var areas := SectionAreas(LayoutTemplates.RowBandSections(10));
    EasyAreas();
    FromPartition(LayoutTemplates.EasyLayout(10), areas, 100);
    assert EasyLayout() == FromAreas(areas);
  }

  lemma EasyColours()
    ensures forall a, x :: a in EasyLayout().colors && x in a ==> EasyLayout().colors[a] == x / 10
  {
    var areas := SectionAreas(LayoutTemplates.RowBandSections(10));
    EasyAreas();
    AreasDistinct(LayoutTemplates.EasyLayout(10), areas);
    EasyOwners();
    ColourIsOwner(areas, x => x / 10);
    assert EasyLayout() == FromAreas(areas);
  }

  /** The legacy complex template partitions 0 .. 99 into the same ten
      areas; a key's colour is the template's area of each of its cells. */
  lemma ComplexLayoutPartition()
    ensures LegacyPartition(ComplexLayout(), 10, 100)
    ensures forall a, x :: a in ComplexLayout().colors && x in a ==>
              ComplexLayout().colors[a] == ComplexTemplate.TemplateOwner(x)
  {
    ComplexKeys();
    ComplexColours();
  }

  /** The legacy complex areas are the cells of the current template's. */
  lemma ComplexAreas()
    ensures |ComplexTemplate.ComplexLayout().areas| == 10
    ensures forall k :: 0 <= k < 10 ==>
              && ComplexTemplate.ComplexLayout().areas[k].cells == SectionAreas(ComplexTemplate.ComplexSections())[k]
              && |SectionAreas(ComplexTemplate.ComplexSections())[k]| > 0
  {
    var secs := ComplexTemplate.ComplexSections();
    var areas := SectionAreas(secs);
    ComplexTemplate.ComplexAreas();
    SameCells(secs, 10);
    forall k | 0 <= k < 10
      ensures |areas[k]| > 0
    {
      assert areas[k] == ComplexTemplate.ListedCells(k);
    }
  }

  lemma ComplexKeys()
    ensures LegacyPartition(ComplexLayout(), 10, 100)
  {
    var areas := SectionAreas(ComplexTemplate.ComplexSections());
    ComplexAreas();
    ComplexTemplate.ComplexLayoutPartition();
    FromPartition(ComplexTemplate.ComplexLayout(), areas, 100);
    assert ComplexLayout() == FromAreas(areas);
  }

  lemma ComplexColours()
    ensures forall a, x :: a in ComplexLayout().colors && x in a ==>
              ComplexLayout().colors[a] == ComplexTemplate.TemplateOwner(x)
  {
    var areas := SectionAreas(ComplexTemplate.ComplexSections());
    var m := ComplexTemplate.ComplexLayout();
    ComplexAreas();
    ComplexTemplate.ComplexLayoutPartition();
    AreasDistinct(m, areas);
    assert forall i, x :: 0 <= i < |areas| && x in areas[i] ==> ComplexTemplate.TemplateOwner(x) == i;
    ColourIsOwner(areas, ComplexTemplate.TemplateOwner);
    assert ComplexLayout() == FromAreas(areas);
  }
}
