/** `complex_layout` of src/model/layout.rs: a hand-written ten-area board
    for n = 10, and the proof that it covers every cell exactly once. */
module ComplexTemplate {
  import opened Layouts

  /** The section lists of the template, written with the source's own
      arithmetic on n = 10. */
  function ComplexSections(): (secs: seq<seq<Section>>)
    ensures |secs| == 10
  {
    var n := 10;
    [
      [ SectionFromRange(0, n), SectionFromIndex(n * 2 - 1), SectionFromIndex(n * 3 - 1),
        SectionFromIndex(n * 4 - 1), SectionFromIndex(n * 5 - 1), SectionFromIndex(n * 6 - 1),
        SectionFromIndex(n * 7 - 1), SectionFromIndex(n * 8 - 1), SectionFromIndex(n * 9 - 1),
        SectionFromIndex(n * n - 1) ],
      [ SectionFromInclusive(n, n + 2), SectionFromInclusive(n * 2, n * 2 + 2),
        SectionFromInclusive(n * 3, n * 3 + 4) ],
      [ SectionFromIndex(n * 3 - 3), SectionFromIndex(n * 4 - 3), SectionFromRange(n * 5 - 3, n * 5 - 1),
        SectionFromRange(n * 6 - 6, n * 6 - 1), SectionFromRange(n * 7 - 5, n * 7 - 1),
        SectionFromIndex(n * 8 - 2) ],
      [ SectionFromRange(n + 3, 2 * n - 1), SectionFromRange(2 * n + 3, 3 * n - 3),
        SectionFromIndex(3 * n - 2), SectionFromIndex(4 * n - 5), SectionFromIndex(4 * n - 2) ],
      [ SectionFromInclusive(n * 4 + 3, n * 4 + 4) ],
      [ SectionFromIndex(n * 4 - 4), SectionFromInclusive(n * 4 + 5, n * 4 + 6) ],
      [ SectionFromRange(n * 4, n * 4 + 3), SectionFromRange(n * 5, n * 5 + 4),
        SectionFromRange(n * 6, n * 6 + 4), SectionFromRange(n * 7, n * 7 + 2),
        SectionFromRange(n * 8, n * 8 + 5), SectionFromRange(n * 9, n * 9 + 5) ],
      [ SectionFromInclusive(n * 7 + 2, n * 7 + 3) ],
      [ SectionFromIndex(6 * n + 4), SectionFromRange(7 * n + 4, 7 * n + 8),
        SectionFromRange(8 * n + 5, 8 * n + 9), SectionFromRange(9 * n + 5, 9 * n + 8) ],
      [ SectionFromIndex(n * n - 2) ]
    ]
  }

  function ComplexLayout(): Layout
  {
    FromSections(ComplexSections(), 10)
  }

  /** The template drawn row by row, the digit being the area of the cell:
        0000000000
        1113333330
        1113333230
        1111135230
        6664455220
        6666222220
        6666822220
        6677888820
        6666688880
        6666688890 */
  function TemplateColour(row: nat, col: nat): nat
    requires row < 10 && col < 10
  {
    match row
    case 0 => 0
    case 1 => if col < 3 then 1 else if col < 9 then 3 else 0
    case 2 => if col < 3 then 1 else if col < 7 then 3 else if col == 7 then 2 else if col == 8 then 3 else 0
    case 3 =>
      if col < 5 then 1 else if col == 5 then 3 else if col == 6 then 5
      else if col == 7 then 2 else if col == 8 then 3 else 0
    case 4 => if col < 3 then 6 else if col < 5 then 4 else if col < 7 then 5 else if col < 9 then 2 else 0
    case 5 => if col < 4 then 6 else if col < 9 then 2 else 0
    case 6 => if col < 4 then 6 else if col == 4 then 8 else if col < 9 then 2 else 0
    case 7 => if col < 2 then 6 else if col < 4 then 7 else if col < 8 then 8 else if col == 8 then 2 else 0
    case 8 => if col < 5 then 6 else if col < 9 then 8 else 0
    case _ => if col < 5 then 6 else if col < 8 then 8 else if col == 8 then 9 else 0
  }

  function ComplexCells(k: nat): seq<nat>
    requires k < 10
  {
    ComplexLayout().areas[k].cells
  }

  /** The cells of each template area, in the order the source lists them. */
  function ListedCells(k: nat): seq<nat>
    requires k < 10
  {
    match k
    case 0 => [0, 1, 2, 3, 4, 5, 6, 7, 8, 9, 19, 29, 39, 49, 59, 69, 79, 89, 99]
    case 1 => [10, 11, 12, 20, 21, 22, 30, 31, 32, 33, 34]
    case 2 => [27, 37, 47, 48, 54, 55, 56, 57, 58, 65, 66, 67, 68, 78]
    case 3 => [13, 14, 15, 16, 17, 18, 23, 24, 25, 26, 28, 35, 38]
    case 4 => [43, 44]
    case 5 => [36, 45, 46]
    case 6 => [40, 41, 42, 50, 51, 52, 53, 60, 61, 62, 63, 70, 71, 80, 81, 82, 83, 84, 90, 91, 92, 93, 94]
    case 7 => [72, 73]
    case 8 => [64, 74, 75, 76, 77, 85, 86, 87, 88, 95, 96, 97]
    case _ => [98]
  }

  /** The section lists of the template with the arithmetic done. */
  function WrittenArea(k: nat): seq<Section>
    requires k < 10
  {
    match k
    case 0 => [Section(0, 10), Section(19, 20), Section(29, 30), Section(39, 40), Section(49, 50), Section(59, 60), Section(69, 70), Section(79, 80), Section(89, 90), Section(99, 100)]
    case 1 => [Section(10, 13), Section(20, 23), Section(30, 35)]
    case 2 => [Section(27, 28), Section(37, 38), Section(47, 49), Section(54, 59), Section(65, 69), Section(78, 79)]
    case 3 => [Section(13, 19), Section(23, 27), Section(28, 29), Section(35, 36), Section(38, 39)]
    case 4 => [Section(43, 45)]
    case 5 => [Section(36, 37), Section(45, 47)]
    case 6 => [Section(40, 43), Section(50, 54), Section(60, 64), Section(70, 72), Section(80, 85), Section(90, 95)]
    case 7 => [Section(72, 74)]
    case 8 => [Section(64, 65), Section(74, 78), Section(85, 89), Section(95, 98)]
    case _ => [Section(98, 99)]
  }

  /** Area k of the template holds the cells of its written sections. */
  lemma AreaCells(k: nat)
    requires k < 10
    ensures ComplexCells(k) == Flatten(WrittenArea(k))
  {
    assert ComplexSections()[k] == WrittenArea(k);
  }

  lemma Chunk0a()
    ensures Flatten([Section(0, 10), Section(19, 20), Section(29, 30)]) == [0, 1, 2, 3, 4, 5, 6, 7, 8, 9, 19, 29]
  {
  }

  lemma Chunk0b()
    ensures Flatten([Section(39, 40), Section(49, 50), Section(59, 60)]) == [39, 49, 59]
  {
  }

  lemma Chunk0c()
    ensures Flatten([Section(69, 70), Section(79, 80), Section(89, 90)]) == [69, 79, 89]
  {
  }

  lemma Chunk0d()
    ensures Flatten([Section(99, 100)]) == [99]
  {
  }

  lemma ComplexArea0()
    ensures Flatten(WrittenArea(0)) == ListedCells(0)
  {
    var h1 := [Section(0, 10), Section(19, 20), Section(29, 30), Section(39, 40), Section(49, 50), Section(59, 60)];
    var h2 := [Section(69, 70), Section(79, 80), Section(89, 90), Section(99, 100)];
    assert WrittenArea(0) == h1 + h2;
    FlattenAppend(h1, h2);
    Half0a();
    Half0b();
    assert ListedCells(0) == [0, 1, 2, 3, 4, 5, 6, 7, 8, 9, 19, 29, 39, 49, 59] + [69, 79, 89, 99];
  }

  lemma Half0a()
    ensures Flatten([Section(0, 10), Section(19, 20), Section(29, 30), Section(39, 40), Section(49, 50), Section(59, 60)])
            == [0, 1, 2, 3, 4, 5, 6, 7, 8, 9, 19, 29, 39, 49, 59]
  {
    var s1 := [Section(0, 10), Section(19, 20), Section(29, 30)];
    var s2 := [Section(39, 40), Section(49, 50), Section(59, 60)];
    assert [Section(0, 10), Section(19, 20), Section(29, 30), Section(39, 40), Section(49, 50), Section(59, 60)] == s1 + s2;
    FlattenAppend(s1, s2);
    Chunk0a();
    Chunk0b();
  }

  lemma Half0b()
    ensures Flatten([Section(69, 70), Section(79, 80), Section(89, 90), Section(99, 100)]) == [69, 79, 89, 99]
  {
    var s3 := [Section(69, 70), Section(79, 80), Section(89, 90)];
    var s4 := [Section(99, 100)];
    assert [Section(69, 70), Section(79, 80), Section(89, 90), Section(99, 100)] == s3 + s4;
    FlattenAppend(s3, s4);
    Chunk0c();
    Chunk0d();
  }

  lemma ComplexArea1()
    ensures Flatten(WrittenArea(1)) == ListedCells(1)
  {
    assert Flatten([Section(10, 13), Section(20, 23), Section(30, 35)]) == [10, 11, 12, 20, 21, 22, 30, 31, 32, 33, 34];
  }

  lemma Chunk2a()
    ensures Flatten([Section(27, 28), Section(37, 38), Section(47, 49)]) == [27, 37, 47, 48]
  {
  }

  lemma Chunk2b()
    ensures Flatten([Section(54, 59), Section(65, 69), Section(78, 79)]) == [54, 55, 56, 57, 58, 65, 66, 67, 68, 78]
  {
  }

  lemma ComplexArea2()
    ensures Flatten(WrittenArea(2)) == ListedCells(2)
  {
    var s1 := [Section(27, 28), Section(37, 38), Section(47, 49)];
    var s2 := [Section(54, 59), Section(65, 69), Section(78, 79)];
    assert WrittenArea(2) == s1 + s2;
    assert ListedCells(2) == [27, 37, 47, 48] + [54, 55, 56, 57, 58, 65, 66, 67, 68, 78];
    FlattenAppend(s1, s2);
    Chunk2a();
    Chunk2b();
  }

  lemma Chunk3a()
    ensures Flatten([Section(13, 19), Section(23, 27), Section(28, 29)]) == [13, 14, 15, 16, 17, 18, 23, 24, 25, 26, 28]
  {
  }

  lemma Chunk3b()
    ensures Flatten([Section(35, 36), Section(38, 39)]) == [35, 38]
  {
  }

  lemma ComplexArea3()
    ensures Flatten(WrittenArea(3)) == ListedCells(3)
  {
    var s1 := [Section(13, 19), Section(23, 27), Section(28, 29)];
    var s2 := [Section(35, 36), Section(38, 39)];
    assert WrittenArea(3) == s1 + s2;
    assert ListedCells(3) == [13, 14, 15, 16, 17, 18, 23, 24, 25, 26, 28] + [35, 38];
    FlattenAppend(s1, s2);
    Chunk3a();
    Chunk3b();
  }

  lemma ComplexArea4()
    ensures Flatten(WrittenArea(4)) == ListedCells(4)
  {
    assert Flatten([Section(43, 45)]) == [43, 44];
  }

  lemma ComplexArea5()
    ensures Flatten(WrittenArea(5)) == ListedCells(5)
  {
    assert Flatten([Section(36, 37), Section(45, 47)]) == [36, 45, 46];
  }

  lemma Chunk6a()
    ensures Flatten([Section(40, 43), Section(50, 54), Section(60, 64)]) == [40, 41, 42, 50, 51, 52, 53, 60, 61, 62, 63]
  {
  }

  lemma Chunk6b()
    ensures Flatten([Section(70, 72), Section(80, 85), Section(90, 95)]) == [70, 71, 80, 81, 82, 83, 84, 90, 91, 92, 93, 94]
  {
  }

  lemma ComplexArea6()
    ensures Flatten(WrittenArea(6)) == ListedCells(6)
  {
    var s1 := [Section(40, 43), Section(50, 54), Section(60, 64)];
    var s2 := [Section(70, 72), Section(80, 85), Section(90, 95)];
    assert WrittenArea(6) == s1 + s2;
    assert ListedCells(6) == [40, 41, 42, 50, 51, 52, 53, 60, 61, 62, 63] + [70, 71, 80, 81, 82, 83, 84, 90, 91, 92, 93, 94];
    FlattenAppend(s1, s2);
    Chunk6a();
    Chunk6b();
  }

  lemma ComplexArea7()
    ensures Flatten(WrittenArea(7)) == ListedCells(7)
  {
    assert Flatten([Section(72, 74)]) == [72, 73];
  }

  lemma Chunk8a()
    ensures Flatten([Section(64, 65), Section(74, 78), Section(85, 89)]) == [64, 74, 75, 76, 77, 85, 86, 87, 88]
  {
  }

  lemma Chunk8b()
    ensures Flatten([Section(95, 98)]) == [95, 96, 97]
  {
  }

  lemma ComplexArea8()
    ensures Flatten(WrittenArea(8)) == ListedCells(8)
  {
    var s1 := [Section(64, 65), Section(74, 78), Section(85, 89)];
    var s2 := [Section(95, 98)];
    assert WrittenArea(8) == s1 + s2;
    assert ListedCells(8) == [64, 74, 75, 76, 77, 85, 86, 87, 88] + [95, 96, 97];
    FlattenAppend(s1, s2);
    Chunk8a();
    Chunk8b();
  }

  lemma ComplexArea9()
    ensures Flatten(WrittenArea(9)) == ListedCells(9)
  {
    assert Flatten([Section(98, 99)]) == [98];
  }

  /** The ten area lemmas together. */
  lemma ComplexAreas()
    ensures |ComplexLayout().areas| == 10
    ensures forall k :: 0 <= k < 10 ==> ComplexLayout().areas[k].cells == ListedCells(k)
    ensures forall k :: 0 <= k < 10 ==> ComplexLayout().areas[k].color == k
  {
    var l := ComplexLayout();
    forall k | 0 <= k < 10
      ensures l.areas[k].cells == ListedCells(k)
    {
      AreaCells(k);
      if k == 0 { ComplexArea0(); } else if k == 1 { ComplexArea1(); }
      else if k == 2 { ComplexArea2(); } else if k == 3 { ComplexArea3(); }
      else if k == 4 { ComplexArea4(); } else if k == 5 { ComplexArea5(); }
      else if k == 6 { ComplexArea6(); } else if k == 7 { ComplexArea7(); }
      else if k == 8 { ComplexArea8(); } else { ComplexArea9(); }
    }
  }

  /** The area of cell x in the drawing; 10 for cells off the board. */
  function TemplateOwner(x: nat): nat
  {
    if x < 100 then TemplateColour(x / 10, x % 10) else 10
  }

  /** The listed cells of area k are drawn with digit k, each once. */
  lemma ListedOwned(k: nat)
    requires k < 10
    ensures forall x :: x in ListedCells(k) ==> x < 100 && TemplateOwner(x) == k
    ensures NoDuplicates(ListedCells(k))
  {
    if k == 0 { ListedArea0(); } else if k == 1 { ListedArea1(); }
    else if k == 2 { ListedArea2(); } else if k == 3 { ListedArea3(); }
    else if k == 4 { ListedArea4(); } else if k == 5 { ListedArea5(); }
    else if k == 6 { ListedArea6(); } else if k == 7 { ListedArea7(); }
    else if k == 8 { ListedArea8(); } else { ListedArea9(); }
  }

  /** Every listed cell is on the board and drawn with digit k. */
  predicate OwnedBy(cells: seq<nat>, k: nat)
  {
    forall i :: 0 <= i < |cells| ==> cells[i] < 100 && TemplateOwner(cells[i]) == k
  }

  lemma OwnedConcat(a: seq<nat>, b: seq<nat>, k: nat)
    requires OwnedBy(a, k) && OwnedBy(b, k)
    ensures OwnedBy(a + b, k)
  {
    forall i | 0 <= i < |a + b|
      ensures (a + b)[i] < 100 && TemplateOwner((a + b)[i]) == k
    {
      if i >= |a| {
        assert (a + b)[i] == b[i - |a|];
      }
    }
  }

  lemma ListedArea0()
    ensures forall x :: x in ListedCells(0) ==> x < 100 && TemplateOwner(x) == 0
    ensures NoDuplicates(ListedCells(0))
  {
    IncreasingNoDuplicates(ListedCells(0));
    assert ListedCells(0) == [0, 1, 2, 3, 4, 5, 6, 7, 8] + [9, 19, 29, 39, 49, 59, 69, 79, 89, 99];
    FrontOwned0();
    BackOwned0();
    OwnedConcat([0, 1, 2, 3, 4, 5, 6, 7, 8], [9, 19, 29, 39, 49, 59, 69, 79, 89, 99], 0);
  }

  lemma FrontOwned0()
    ensures OwnedBy([0, 1, 2, 3, 4, 5, 6, 7, 8], 0)
  {
  }

  lemma BackOwned0()
    ensures OwnedBy([9, 19, 29, 39, 49, 59, 69, 79, 89, 99], 0)
  {
  }

  lemma ListedArea1()
    ensures forall x :: x in ListedCells(1) ==> x < 100 && TemplateOwner(x) == 1
    ensures NoDuplicates(ListedCells(1))
  {
    IncreasingNoDuplicates(ListedCells(1));
  }

  lemma ListedArea2()
    ensures forall x :: x in ListedCells(2) ==> x < 100 && TemplateOwner(x) == 2
    ensures NoDuplicates(ListedCells(2))
  {
    IncreasingNoDuplicates(ListedCells(2));
    assert ListedCells(2) == [27, 37, 47, 48, 54, 55, 56] + [57, 58, 65, 66, 67, 68, 78];
    FrontOwned2();
    BackOwned2();
    OwnedConcat([27, 37, 47, 48, 54, 55, 56], [57, 58, 65, 66, 67, 68, 78], 2);
  }

  lemma FrontOwned2()
    ensures OwnedBy([27, 37, 47, 48, 54, 55, 56], 2)
  {
  }

  lemma BackOwned2()
    ensures OwnedBy([57, 58, 65, 66, 67, 68, 78], 2)
  {
  }

  lemma ListedArea3()
    ensures forall x :: x in ListedCells(3) ==> x < 100 && TemplateOwner(x) == 3
    ensures NoDuplicates(ListedCells(3))
  {
    IncreasingNoDuplicates(ListedCells(3));
    assert ListedCells(3) == [13, 14, 15, 16, 17, 18] + [23, 24, 25, 26, 28, 35, 38];
    FrontOwned3();
    BackOwned3();
    OwnedConcat([13, 14, 15, 16, 17, 18], [23, 24, 25, 26, 28, 35, 38], 3);
  }

  lemma FrontOwned3()
    ensures OwnedBy([13, 14, 15, 16, 17, 18], 3)
  {
  }

  lemma BackOwned3()
    ensures OwnedBy([23, 24, 25, 26, 28, 35, 38], 3)
  {
  }

  lemma ListedArea4()
    ensures forall x :: x in ListedCells(4) ==> x < 100 && TemplateOwner(x) == 4
    ensures NoDuplicates(ListedCells(4))
  {
    IncreasingNoDuplicates(ListedCells(4));
  }

  lemma ListedArea5()
    ensures forall x :: x in ListedCells(5) ==> x < 100 && TemplateOwner(x) == 5
    ensures NoDuplicates(ListedCells(5))
  {
    IncreasingNoDuplicates(ListedCells(5));
  }

  lemma ListedArea6()
    ensures forall x :: x in ListedCells(6) ==> x < 100 && TemplateOwner(x) == 6
    ensures NoDuplicates(ListedCells(6))
  {
    IncreasingNoDuplicates(ListedCells(6));
    assert ListedCells(6) == [40, 41, 42, 50, 51, 52, 53, 60, 61, 62, 63] + [70, 71, 80, 81, 82, 83, 84, 90, 91, 92, 93, 94];
    FrontOwned6();
    BackOwned6();
    OwnedConcat([40, 41, 42, 50, 51, 52, 53, 60, 61, 62, 63], [70, 71, 80, 81, 82, 83, 84, 90, 91, 92, 93, 94], 6);
  }

  lemma FrontOwned6()
    ensures OwnedBy([40, 41, 42, 50, 51, 52, 53, 60, 61, 62, 63], 6)
  {
  }

  lemma BackOwned6()
    ensures OwnedBy([70, 71, 80, 81, 82, 83, 84, 90, 91, 92, 93, 94], 6)
  {
  }

  lemma ListedArea7()
    ensures forall x :: x in ListedCells(7) ==> x < 100 && TemplateOwner(x) == 7
    ensures NoDuplicates(ListedCells(7))
  {
    IncreasingNoDuplicates(ListedCells(7));
  }

  lemma ListedArea8()
    ensures forall x :: x in ListedCells(8) ==> x < 100 && TemplateOwner(x) == 8
    ensures NoDuplicates(ListedCells(8))
  {
    IncreasingNoDuplicates(ListedCells(8));
  }

  lemma ListedArea9()
    ensures forall x :: x in ListedCells(9) ==> x < 100 && TemplateOwner(x) == 9
    ensures NoDuplicates(ListedCells(9))
  {
    IncreasingNoDuplicates(ListedCells(9));
  }

  /** Every cell of the drawing is listed in the area of its digit. */
  lemma ListedCovers(row: nat, col: nat)
    requires row < 10 && col < 10
    ensures TemplateColour(row, col) < 10
    ensures 10 * row + col in ListedCells(TemplateColour(row, col))
  {
    if row < 5 { CoversTop(row, col); } else { CoversBottom(row, col); }
  }

  lemma CoversTop(row: nat, col: nat)
    requires row < 5 && col < 10
    ensures TemplateColour(row, col) < 10
    ensures 10 * row + col in ListedCells(TemplateColour(row, col))
  {
    if row == 0 {} else if row == 1 {} else if row == 2 {} else if row == 3 {} else {}
  }

  lemma CoversBottom(row: nat, col: nat)
    requires 5 <= row < 10 && col < 10
    ensures TemplateColour(row, col) < 10
    ensures 10 * row + col in ListedCells(TemplateColour(row, col))
  {
    if row == 5 {} else if row == 6 {} else if row == 7 {} else if row == 8 {} else {}
  }

  /** Any layout whose areas are the listed cells is a partition of the
      10 x 10 board, area k being the cells drawn with digit k. */
  lemma ListedPartition(l: Layout)
    requires |l.areas| == 10
    requires forall k :: 0 <= k < 10 ==> l.areas[k].cells == ListedCells(k)
    ensures IsPartition(l, 100)
    ensures forall k, x: nat :: 0 <= k < 10 ==> (x in l.areas[k].cells <==> x < 100 && TemplateOwner(x) == k)
  {
    forall k | 0 <= k < 10
      ensures forall x :: x in ListedCells(k) ==> x < 100 && TemplateOwner(x) == k
      ensures NoDuplicates(ListedCells(k))
    {
      ListedOwned(k);
    }
    forall x: nat | x < 100
      ensures TemplateOwner(x) < 10 && x in ListedCells(TemplateOwner(x))
    {
      ListedCovers(x / 10, x % 10);
    }
    PartitionByOwner(l, 100, TemplateOwner);
  }

  /** `complex_layout` partitions the 10 x 10 board into ten areas coloured
      0 .. 9, area k holding exactly the cells drawn with digit k. */
  lemma ComplexLayoutPartition()
    ensures |ComplexLayout().areas| == 10
    ensures IsPartition(ComplexLayout(), 100)
    ensures forall k :: 0 <= k < 10 ==> ComplexLayout().areas[k].color == k
    ensures forall k, x: nat :: 0 <= k < 10 ==>
              (x in ComplexLayout().areas[k].cells <==> x < 100 && TemplateOwner(x) == k)
  {
    ComplexAreas();
    ListedPartition(ComplexLayout());
  }
}
