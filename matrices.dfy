/**
 * Bit matrices as lists of rows, `createMatrix`, columns, and the parity
 * checks of a finished iterative codeword.
 */
module Matrices {
  import opened Bits

  /** A matrix as a list of rows (JavaScript's array of arrays). */
  type Matrix = seq<seq<Bit>>

  /** `m` has `height` rows of `width` cells each. */
  predicate HasShape(m: Matrix, height: nat, width: nat)
  {
    |m| == height && forall i :: 0 <= i < height ==> |m[i]| == width
  }

  /** Every row of `m` is as long as the first one. */
  predicate Rectangular(m: Matrix)
  {
    forall i :: 0 <= i < |m| ==> |m[i]| == |m[0]|
  }

  /** Every row of `m` has a cell at column `j`. */
  predicate HasColumn(m: Matrix, j: nat)
  {
    forall i :: 0 <= i < |m| ==> j < |m[i]|
  }

  /** `createMatrix`: a fresh `height` by `width` matrix of zeros. */
  function CreateMatrix(height: nat, width: nat): (m: Matrix)
    ensures HasShape(m, height, width)
    ensures forall i, j :: 0 <= i < height && 0 <= j < width ==> m[i][j] == 0
  {
    seq(height, _ => Zeros(width))
  }

  /** Column `j` of `m`, top to bottom (`m.map(row => row[j])`). */
  function Column(m: Matrix, j: nat): (c: seq<Bit>)
    requires HasColumn(m, j)
    ensures |c| == |m|
    ensures forall i :: 0 <= i < |m| ==> c[i] == m[i][j]
  {
    seq(|m|, i requires 0 <= i < |m| => m[i][j])
  }

  /** The rows of `m`, concatenated in order (row-major reading). */
  function Flatten(m: Matrix): (s: seq<Bit>)
  {
    if |m| == 0 then [] else Flatten(m[..|m| - 1]) + m[|m| - 1]
  }

  /** Row `i` passes its even-parity check. */
  predicate RowEven(m: Matrix, i: nat)
    requires i < |m|
  {
    IsEven(m[i])
  }

  /** Column `j` passes its even-parity check. */
  predicate ColumnEven(m: Matrix, j: nat)
    requires HasColumn(m, j)
  {
    IsEven(Column(m, j))
  }

  /**
   * `m` is a valid codeword of the `rows` by `cols` iterative code: its shape
   * is (rows + 1) by (cols + 1) and every row and every column, the parity
   * row and the parity column included, holds an even number of ones.
   */
  predicate IsCodeword(m: Matrix, rows: nat, cols: nat)
  {
    && HasShape(m, rows + 1, cols + 1)
    && (forall i :: 0 <= i <= rows ==> RowEven(m, i))
    && (forall j :: 0 <= j <= cols ==> ColumnEven(m, j))
  }
}
