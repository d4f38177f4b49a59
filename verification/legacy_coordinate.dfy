/** The earlier cell addressing of src/state/coordinate.rs. It has the same
    checks and arithmetic as src/model/coordinate.rs, no `ContextCoordinate`,
    and an explicit conversion back to `usize`. */
module LegacyCoordinates {
  import opened Wrappers
  import opened Errors
  import Board
  import Model = Coordinates

  datatype Coordinate = Coordinate(raw: nat)

  /** `From<usize> for Coordinate`. */
  function FromUsize(raw: nat): Coordinate
  {
    Coordinate(raw)
  }

  /** `From<Coordinate> for usize`: gives back the raw index; the inverse of
      `FromUsize` in both directions. */
  function ToUsize(c: Coordinate): (raw: nat)
    ensures FromUsize(raw) == c
  {
    c.raw
  }

  function FromContext(col: nat, row: nat, n: U8): (r: Result<Coordinate, CoordinateError>)
    ensures r.Ok? <==> col < n && row < n
    ensures r.Ok? ==> r.value.raw < n * n
    ensures r.Ok? ==> r.value.raw / n == col && r.value.raw % n == row
  {
    if col >= n || row >= n then
      Err(CoordinateError)
    else
      Board.DivModUnique(n, col, row);
      Board.IndexInBoard(n, col, row);
      Ok(Coordinate(col * n + row))
  }

  function FromContextSigned(col: int, row: int, n: U8): (r: Result<Coordinate, CoordinateError>)
    ensures col < 0 || row < 0 ==> r.Err?
    ensures col >= 0 && row >= 0 ==> r == FromContext(col, row, n)
  {
    if col < 0 || row < 0 then Err(CoordinateError) else FromContext(col, row, n)
  }

  function ToCoords(c: Coordinate, n: nat): (r: Result<(nat, nat), CoordinateError>)
    ensures r.Ok? <==> c.raw < n * n
    ensures r.Ok? ==> r.value.0 < n && r.value.1 < n
    ensures r.Ok? ==> r.value.0 * n + r.value.1 == c.raw
  {
    if c.raw >= n * n then
      Err(CoordinateError)
    else
      Board.RowInBoard(n, c.raw);
      Ok((c.raw / n, c.raw % n))
  }

  lemma RoundTrip(a: nat, b: nat, n: U8)
    requires a < n && b < n
    ensures FromContext(a, b, n).Ok?
    ensures ToCoords(FromContext(a, b, n).value, n) == Ok((a, b))
  {
    Board.DivModUnique(n, a, b);
  }

  lemma UsizeRoundTrip(raw: nat)
    ensures ToUsize(FromUsize(raw)) == raw
  {
  }

  /** The two iterations of the addressing code agree on every input. */
  lemma AgreesWithModel(col: int, row: int, n: U8, raw: nat)
    ensures FromContextSigned(col, row, n).Ok? <==> Model.FromContextSigned(col, row, n).Ok?
    ensures FromContextSigned(col, row, n).Ok? ==>
              FromContextSigned(col, row, n).value.raw == Model.FromContextSigned(col, row, n).value.raw
    ensures ToCoords(Coordinate(raw), n) == Model.ToCoords(Model.Coordinate(raw), n)
  {
  }
}
