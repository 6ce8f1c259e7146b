/** Natural-number arithmetic shared by the geometry models. */
module Arithmetic {
  function DivCeil(n: nat, d: nat): nat
    requires d > 0
  {
    (n + d - 1) / d
  }

  function SaturatingSub(a: nat, b: nat): nat {
    if a > b then a - b else 0
  }

  function Min(a: nat, b: nat): nat {
    if a < b then a else b
  }

  lemma RowMajor(row: nat, rows: nat, column: nat, columns: nat)
    requires row < rows && column < columns
    ensures row * columns + column < rows * columns
  {
    assert row * columns + columns == (row + 1) * columns <= rows * columns;
  }

  lemma FlatIndex(width: nat, row: nat, column: nat)
    requires column < width
    ensures (row * width + column) / width == row && (row * width + column) % width == column
  {
    var i := row * width + column;
    assert i == width * (i / width) + i % width;
    assert width * (i / width - row) == column - i % width;
    SmallMultiple(width, i / width - row);
  }

  lemma SmallMultiple(width: int, d: int)
    requires -width < width * d < width
    ensures d == 0
  {
  }

  lemma QuotientBelow(i: nat, width: nat, rows: nat)
    requires width > 0 && i < width * rows
    ensures i / width < rows
  {
    if i / width >= rows {
      ProductGrows(width, rows, i / width);
      assert false;
    }
  }

  lemma ProductGrows(a: nat, b: nat, c: nat)
    requires b <= c
    ensures a * b <= a * c
  {
  }

  lemma Commutes(a: nat, b: nat)
    ensures a * b == b * a
  {
  }
}
