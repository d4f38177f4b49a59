/** One board cell (src/model/tile.rs): a mark flag and the raw colour of the
    area the cell belongs to. */
module Tiles {
  import opened Errors

  /** `set` in the source; renamed because `set` is a Dafny keyword. */
  datatype Tile = Tile(marked: bool, color: U8)

  function New(marked: bool, color: U8): Tile
  {
    Tile(marked, color)
  }

  function IsSet(t: Tile): bool
  {
    t.marked
  }

  function GetRawColor(t: Tile): U8
  {
    t.color
  }

  /** `#[derive(Default)]`: unmarked, colour 0. */
  function Default(): (t: Tile)
    ensures !IsSet(t) && GetRawColor(t) == 0
  {
    Tile(false, 0)
  }

  /** A click toggles the mark and never touches the colour. */
  function OnClick(t: Tile): (r: Tile)
    ensures IsSet(r) != IsSet(t)
    ensures GetRawColor(r) == GetRawColor(t)
  {
    Tile(!t.marked, t.color)
  }

  /** Two clicks restore the tile. */
  lemma OnClickInvolution(t: Tile)
    ensures OnClick(OnClick(t)) == t
  {
  }

  /** The accessors read back what `new` stored. */
  lemma NewAccessors(marked: bool, color: U8)
    ensures IsSet(New(marked, color)) == marked
    ensures GetRawColor(New(marked, color)) == color
  {
  }
}
