/**
 * The matrix part of `toggleCell`: a bounds-checked flip of one bit on a copy
 * of the matrix, and why it shows error detection: a flipped codeword fails
 * exactly the parity checks of the flipped cell's row and column.
 */
module CellToggle {
  import opened Bits
  import opened Matrices
  import opened Encoding

  /** The bounds `toggleCell` checks: the row against the matrix, the column against its first row. */
  predicate InRange(m: Matrix, row: nat, col: nat)
  {
    row < |m| && col < |m[0]|
  }

  /**
   * `toggleCell`: inside the bounds, the copy differs from `m` in cell
   * (row, col) alone, which holds the other bit; outside them `m` is
   * returned unchanged.
   */
  function ToggleCell(m: Matrix, row: nat, col: nat): (r: Matrix)
    requires Rectangular(m)
    ensures |r| == |m| && Rectangular(r)
    ensures forall i :: 0 <= i < |m| ==> |r[i]| == |m[i]|
    ensures forall i, j :: 0 <= i < |m| && 0 <= j < |m[i]| ==>
      r[i][j] == if InRange(m, row, col) && i == row && j == col then 1 - m[i][j] else m[i][j]
    ensures !InRange(m, row, col) ==> r == m
  {
    if InRange(m, row, col) then
      var flipped: seq<Bit> := m[row][col := 1 - m[row][col]];
      m[row := flipped]
    else
      m
  }

  /** Flipping the same cell twice restores the matrix. */
  lemma ToggleTwice(m: Matrix, row: nat, col: nat)
    requires Rectangular(m)
    ensures ToggleCell(ToggleCell(m, row, col), row, col) == m
  {
    var once := ToggleCell(m, row, col);
    var twice := ToggleCell(once, row, col);
    assert InRange(once, row, col) == InRange(m, row, col);
    forall i | 0 <= i < |m|
      ensures twice[i] == m[i]
    {
      assert forall j :: 0 <= j < |m[i]| ==> twice[i][j] == m[i][j];
    }
  }

  /** Column `j` of the flipped matrix is column `j` of `m`, flipped at `row` when j is `col`. */
  lemma ToggledColumn(m: Matrix, row: nat, col: nat, j: nat)
    requires Rectangular(m) && InRange(m, row, col) && j < |m[0]|
    ensures HasColumn(m, j) && HasColumn(ToggleCell(m, row, col), j)
    ensures Column(ToggleCell(m, row, col), j)
         == if j == col then Column(m, j)[row := 1 - m[row][col]] else Column(m, j)
  {
  }

  /**
   * Single-error detection: flip any one cell (row, col) of a codeword, and
   * the rows that fail their parity check are exactly row `row`, and the
   * columns that fail theirs exactly column `col`.
   */
  lemma FlipDetected(m: Matrix, rows: nat, cols: nat, row: nat, col: nat)
    requires IsCodeword(m, rows, cols)
    requires row <= rows && col <= cols
    ensures Rectangular(m)
    ensures HasShape(ToggleCell(m, row, col), rows + 1, cols + 1)
    ensures forall i :: 0 <= i <= rows ==> (RowEven(ToggleCell(m, row, col), i) <==> i != row)
    ensures forall j :: 0 <= j <= cols ==> (ColumnEven(ToggleCell(m, row, col), j) <==> j != col)
  {
    var f := ToggleCell(m, row, col);
    assert InRange(m, row, col);
    forall i | 0 <= i <= rows
      ensures RowEven(f, i) <==> i != row
    {
      assert RowEven(m, i);
      if i == row {
        assert f[i] == m[i][col := 1 - m[i][col]];
        ParityFlip(m[i], col);
      } else {
        assert f[i] == m[i];
      }
    }
    forall j | 0 <= j <= cols
      ensures ColumnEven(f, j) <==> j != col
    {
      assert ColumnEven(m, j);
      ToggledColumn(m, row, col, j);
      if j == col {
        ParityFlip(Column(m, j), row);
      }
    }
  }

  /**
   * The same for a matrix straight from the encoder: after one cell (i, j) is
   * flipped, exactly row i and column j fail their parity checks.
   */
  lemma EncodedFlipDetected(rows: nat, cols: nat, data: seq<Bit>, row: nat, col: nat)
    requires row <= rows && col <= cols
    ensures Rectangular(Encode(rows, cols, data))
    ensures var f := ToggleCell(Encode(rows, cols, data), row, col);
      && HasShape(f, rows + 1, cols + 1)
      && (forall i :: 0 <= i <= rows ==> (RowEven(f, i) <==> i != row))
      && (forall j :: 0 <= j <= cols ==> (ColumnEven(f, j) <==> j != col))
  {
    EncodeIsCodeword(rows, cols, data);
    FlipDetected(Encode(rows, cols, data), rows, cols, row, col);
  }
}
