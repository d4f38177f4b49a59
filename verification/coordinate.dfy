/** Cell addressing of src/model/coordinate.rs: a `Coordinate` wraps a raw
    linear index; `from_context` builds it from two indices and a board size,
    `to_coords` splits it again. */
module Coordinates {
  import opened Wrappers
  import opened Errors
  import Board

  /** A (row, col) pair together with the board size it refers to. */
  datatype ContextCoordinate = ContextCoordinate(row: nat, col: nat, n: nat)

  datatype Coordinate = Coordinate(raw: nat)

  /** `From<usize>`: wraps a raw index without any check. */
  function FromRaw(raw: nat): Coordinate
  {
    Coordinate(raw)
  }

  /** `from_context(col, row, n)`: the first argument is the major index
      (the one multiplied by n), the second the minor one. */
  function FromContext(col: nat, row: nat, n: U8): (r: Result<Coordinate, CoordinateError>)
    ensures r.Ok? <==> col < n && row < n
    ensures r.Ok? ==> r.value.raw < n * n
    ensures r.Ok? ==> r.value.raw / n == col && r.value.raw % n == row
  {
    if col >= n || row >= n then
      Err(CoordinateError)
    else
      Board.DivModUnique(n, col, row);
      Board.IndexInBoard(n, col, row);
      Ok(Coordinate(col * n + row))
  }

  /** `from_context_signed`: negative indices are refused before delegating. */
  function FromContextSigned(col: int, row: int, n: U8): (r: Result<Coordinate, CoordinateError>)
    ensures col < 0 || row < 0 ==> r.Err?
    ensures col >= 0 && row >= 0 ==> r == FromContext(col, row, n)
  {
    if col < 0 || row < 0 then Err(CoordinateError) else FromContext(col, row, n)
  }

  /** `to_coords(n)`: the pair (raw / n, raw % n), refused when raw >= n * n
      (in particular always refused when n == 0). */
  function ToCoords(c: Coordinate, n: nat): (r: Result<(nat, nat), CoordinateError>)
    ensures r.Ok? <==> c.raw < n * n
    ensures r.Ok? ==> r.value.0 < n && r.value.1 < n
    ensures r.Ok? ==> r.value.0 * n + r.value.1 == c.raw
  {
    if c.raw >= n * n then
      Err(CoordinateError)
    else
      Board.RowInBoard(n, c.raw);
      Ok((c.raw / n, c.raw % n))
  }

  /** `From<ContextCoordinate>`: row * n + col, without a bounds check. For
      an in-range pair it names the cell that `to_coords` splits back into
      (row, col), and it agrees with `from_context` called with the row as
      its FIRST argument. */
  function FromContextCoordinate(cc: ContextCoordinate): (r: Coordinate)
    ensures cc.row < cc.n && cc.col < cc.n ==> ToCoords(r, cc.n) == Ok((cc.row, cc.col))
    ensures cc.row < cc.n && cc.col < cc.n && cc.n < 256 ==>
              FromContext(cc.row, cc.col, cc.n) == Ok(r)
  {
    var raw := cc.row * cc.n + cc.col;
    if cc.row < cc.n && cc.col < cc.n then
      Board.DivModUnique(cc.n, cc.row, cc.col);
      Board.IndexInBoard(cc.n, cc.row, cc.col);
      Coordinate(raw)
    else
      Coordinate(raw)
  }

  /** Round trip: splitting a built coordinate gives back its two indices. */
  lemma RoundTrip(a: nat, b: nat, n: U8)
    requires a < n && b < n
    ensures FromContext(a, b, n).Ok?
    ensures ToCoords(FromContext(a, b, n).value, n) == Ok((a, b))
  {
    var c := FromContext(a, b, n).value;
    Board.DivModUnique(n, a, b);
  }

  /** The other round trip: rebuilding a split coordinate gives it back. */
  lemma SplitThenBuild(c: Coordinate, n: U8)
    requires ToCoords(c, n).Ok?
    ensures FromContext(ToCoords(c, n).value.0, ToCoords(c, n).value.1, n) == Ok(c)
  {
  }
}
