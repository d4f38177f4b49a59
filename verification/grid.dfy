/** The board state of src/model/grid.rs: a flat vector of n * n tiles, read
    with a checked lookup and written with an unchecked (panicking) store. */
module Grids {
  import opened Wrappers
  import opened Errors
  import opened Tiles
  import Board
  import Coordinates

  datatype Grid = Grid(data: seq<Tile>, n: U8)

  /** A grid built for its own size n holds n * n tiles. */
  predicate WellFormed(g: Grid)
  {
    |g.data| == g.n * g.n
  }

  /** `Grid::new(n)`. `n.pow(2)` is computed in `u8`, so the size is
      refused (an overflow panic) unless n * n < 256, that is n <= 15. */
  function New(n: U8): (g: Grid)
    requires n * n < 256
    ensures WellFormed(g) && g.n == n
    ensures forall i :: 0 <= i < |g.data| ==> g.data[i] == Default()
  {
    Grid(seq(n * n, _ => Default()), n)
  }

  /** `get_tile`: the tile at index i, or an error past the end. */
  function GetTile(g: Grid, i: nat): (r: Result<Tile, CoordinateError>)
    ensures r.Ok? <==> i < |g.data|
    ensures r.Ok? ==> r.value == g.data[i]
  {
    if i < |g.data| then Ok(g.data[i]) else Err(CoordinateError)
  }

  /** `set_tile`: indexing panics past the end, hence the precondition. */
  function SetTile(g: Grid, i: nat, t: Tile): (r: Grid)
    requires i < |g.data|
    ensures |r.data| == |g.data| && r.n == g.n
    ensures GetTile(r, i) == Ok(t)
    ensures forall j :: j != i ==> GetTile(r, j) == GetTile(g, j)
  {
    Grid(g.data[i := t], g.n)
  }

  function GetN(g: Grid): nat
  {
    g.n
  }

  /** `get_n` reports the size the grid was built with. */
  lemma GetNOfNew(n: U8)
    requires n * n < 256
    ensures GetN(New(n)) == n
  {
  }

  /** `coord_from_indices(col, row)`: `from_context` on the grid's size. */
  function CoordFromIndices(g: Grid, col: nat, row: nat): (r: Result<Coordinates.Coordinate, CoordinateError>)
    ensures r.Ok? <==> col < g.n && row < g.n
    ensures r.Ok? ==> Coordinates.ToCoords(r.value, g.n) == Ok((col, row))
  {
    var r := Coordinates.FromContext(col, row, g.n);
    if r.Ok? then Coordinates.RoundTrip(col, row, g.n); r else r
  }

  /** `get_tile_by_indices(row, col)`: negative indices are refused, then the
      tile at row * n + col is read (an error when row or col is off the
      board). */
  function GetTileByIndices(g: Grid, row: int, col: int): (r: Result<Tile, CoordinateError>)
    ensures row < 0 || col < 0 || row >= g.n || col >= g.n ==> r.Err?
    ensures 0 <= row < g.n && 0 <= col < g.n ==> r == GetTile(g, row * g.n + col)
    ensures WellFormed(g) && 0 <= row < g.n && 0 <= col < g.n ==> r.Ok?
  {
    if row < 0 then
      Err(CoordinateError)
    else if col < 0 then
      Err(CoordinateError)
    else
      match CoordFromIndices(g, row, col)
      case Err(e) => Err(e)
      case Ok(index) =>
        Board.RowInBoard(g.n, index.raw);
        Board.IndexInBoard(g.n, row, col);
        GetTile(g, index.raw)
  }
}
