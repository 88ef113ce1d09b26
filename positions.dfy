/** Grid coordinates and the hash the sheet's map is keyed with. */
module Positions {

  /** A zero-based (row, column) coordinate. */
  datatype Position = Position(row: int, col: int)

  /** Grid bounds used by Position::IsValid. */
  const MaxRows: int := 16384
  const MaxCols: int := 16384

  /** Position::IsValid: both coordinates non-negative and inside the grid. */
  predicate IsValid(p: Position) {
    0 <= p.row < MaxRows && 0 <= p.col < MaxCols
  }

  /** Sheet::PositionHasher: `row + col * 37`, computed in `int` and returned
      as a `size_t`. For a valid position the sum is non-negative and below
      2^31, so neither the `int` arithmetic overflows nor the conversion
      changes the value. */
  function Hash(p: Position): (h: nat)
    requires IsValid(p)
    ensures h <= (MaxRows - 1) + (MaxCols - 1) * 37 < 0x8000_0000
    ensures h == 0 <==> p == Position(0, 0)
  {
    p.row + p.col * 37
  }

  /** The hash is not injective on valid positions: the map must (and does)
      compare keys by Position equality, not by hash. */
  lemma HashCollides()
    ensures exists p, q :: IsValid(p) && IsValid(q) && p != q && Hash(p) == Hash(q)
  {
    var p, q := Position(37, 0), Position(0, 1);
    assert IsValid(p) && IsValid(q) && Hash(p) == Hash(q);
  }
}
