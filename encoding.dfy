/**
 * The two-dimensional iterative (product) even-parity code: the payload
 * block, the parity column, the parity row and the corner bit, and the
 * properties of the finished matrix.
 */
module Encoding {
  import opened Bits
  import opened Matrices

  /** Input bit `k`, or the padding bit 0 past the end of the input. */
  function DataBit(data: seq<Bit>, k: nat): (b: Bit)
  {
    if k < |data| then data[k] else 0
  }

  /** Payload row `i`: the `cols` input bits from index i * cols on. */
  function PayloadRow(cols: nat, data: seq<Bit>, i: nat): (row: seq<Bit>)
    ensures |row| == cols
  {
    seq<Bit>(cols, j requires 0 <= j < cols => DataBit(data, i * cols + j))
  }

  /** The `rows` by `cols` payload block, filled row-major from `data`. */
  function PayloadBlock(rows: nat, cols: nat, data: seq<Bit>): (p: Matrix)
    ensures HasShape(p, rows, cols)
  {
    seq(rows, i requires 0 <= i < rows => PayloadRow(cols, data, i))
  }

  /** The check bit of every row of `p`. */
  function RowParities(p: Matrix): (r: seq<Bit>)
    ensures |r| == |p|
  {
    seq(|p|, i requires 0 <= i < |p| => CalculateParity(p[i]))
  }

  /** The check bit of every column of the `cols`-wide block `p`. */
  function ColumnParities(p: Matrix, cols: nat): (r: seq<Bit>)
    requires forall i :: 0 <= i < |p| ==> |p[i]| == cols
    ensures |r| == cols
  {
    seq(cols, j requires 0 <= j < cols => CalculateParity(Column(p, j)))
  }

  /**
   * What `encodeMessage` computes: each payload row followed by its check
   * bit, then the parity row (the check bits of the payload columns) followed
   * by its own check bit, the corner.
   */
  function Encode(rows: nat, cols: nat, data: seq<Bit>): (m: Matrix)
    ensures HasShape(m, rows + 1, cols + 1)
  {
    var p := PayloadBlock(rows, cols, data);
    var parityRow := ColumnParities(p, cols);
    seq(rows + 1, i requires 0 <= i <= rows =>
      if i < rows then p[i] + [CalculateParity(p[i])] else parityRow + [CalculateParity(parityRow)])
  }

  /** The cells of the encoded matrix, one region at a time. */
  lemma EncodeCells(rows: nat, cols: nat, data: seq<Bit>)
    ensures var m, p := Encode(rows, cols, data), PayloadBlock(rows, cols, data);
      && (forall i, j :: 0 <= i < rows && 0 <= j < cols ==> m[i][j] == p[i][j])
      && (forall i :: 0 <= i < rows ==> m[i][cols] == CalculateParity(p[i]))
      && (forall j :: 0 <= j < cols ==> m[rows][j] == CalculateParity(Column(p, j)))
      && m[rows][cols] == CalculateParity(ColumnParities(p, cols))
  {
  }

  /** Payload cell (i, j) of the encoded matrix holds input bit i * cols + j, or 0 past the input. */
  lemma EncodeDataCell(rows: nat, cols: nat, data: seq<Bit>, i: nat, j: nat)
    requires i < rows && j < cols
    ensures |Encode(rows, cols, data)[i]| == cols + 1
    ensures Encode(rows, cols, data)[i][j] == DataBit(data, i * cols + j)
  {
    EncodeCells(rows, cols, data);
  }

  /** The payload block of a (rows + 1) by (cols + 1) matrix. */
  function PayloadOf(m: Matrix, rows: nat, cols: nat): (p: Matrix)
    requires HasShape(m, rows + 1, cols + 1)
    ensures HasShape(p, rows, cols)
    ensures forall i, j :: 0 <= i < rows && 0 <= j < cols ==> p[i][j] == m[i][j]
  {
    seq(rows, i requires 0 <= i < rows => m[i][..cols])
  }

  /** `data` cut or zero-padded to exactly `n` bits. */
  function Fit(data: seq<Bit>, n: nat): (s: seq<Bit>)
  {
    if |data| >= n then data[..n] else data + Zeros(n - |data|)
  }

  lemma CellIndexBound(rows: nat, cols: nat, i: nat, j: nat)
    requires i < rows && j < cols
    ensures i * cols + j < rows * cols
  {
    assert i * cols + j < i * cols + cols == (i + 1) * cols;
    assert (i + 1) * cols <= rows * cols;
  }

  /** The payload block of an encoded matrix is the block filled from `data`. */
  lemma PayloadOfEncode(rows: nat, cols: nat, data: seq<Bit>)
    ensures PayloadOf(Encode(rows, cols, data), rows, cols) == PayloadBlock(rows, cols, data)
  {
    var m := Encode(rows, cols, data);
    var p := PayloadBlock(rows, cols, data);
    forall i | 0 <= i < rows
      ensures PayloadOf(m, rows, cols)[i] == p[i]
    {
      assert m[i] == p[i] + [CalculateParity(p[i])];
      assert m[i][..cols] == p[i];
    }
  }

  lemma {:induction false} FlattenPayloadBlock(rows: nat, cols: nat, data: seq<Bit>)
    ensures Flatten(PayloadBlock(rows, cols, data)) == seq(rows * cols, k requires 0 <= k < rows * cols => DataBit(data, k))
    decreases rows
  {
    var p := PayloadBlock(rows, cols, data);
    if rows > 0 {
      var r := rows - 1;
      assert p[..r] == PayloadBlock(r, cols, data);
      FlattenPayloadBlock(r, cols, data);
      var front := seq(r * cols, k requires 0 <= k < r * cols => DataBit(data, k));
      assert rows * cols == r * cols + cols;
      var whole := seq(rows * cols, k requires 0 <= k < rows * cols => DataBit(data, k));
      assert Flatten(p) == front + p[r];
      forall k | 0 <= k < rows * cols
        ensures (front + p[r])[k] == whole[k]
      {
        if k >= r * cols {
          assert p[r][k - r * cols] == DataBit(data, r * cols + (k - r * cols));
        }
      }
    }
  }

  /**
   * Payload placement, padding and truncation: read row-major, the payload of
   * the encoded matrix is the input cut to, or zero-padded to, rows * cols bits.
   */
  lemma EncodePayload(rows: nat, cols: nat, data: seq<Bit>)
    ensures Flatten(PayloadOf(Encode(rows, cols, data), rows, cols)) == Fit(data, rows * cols)
  {
    PayloadOfEncode(rows, cols, data);
    FlattenPayloadBlock(rows, cols, data);
  }

  /** An input of exactly rows * cols bits is read back unchanged from the payload. */
  lemma EncodeRoundTrip(rows: nat, cols: nat, data: seq<Bit>)
    requires |data| == rows * cols
    ensures Flatten(PayloadOf(Encode(rows, cols, data), rows, cols)) == data
  {
    EncodePayload(rows, cols, data);
    assert data[..rows * cols] == data;
  }

  /** Two inputs that agree on their first rows * cols bits (zero-padded) encode alike. */
  lemma EncodeDependsOnFit(rows: nat, cols: nat, d: seq<Bit>, e: seq<Bit>)
    requires forall k :: 0 <= k < rows * cols ==> DataBit(d, k) == DataBit(e, k)
    ensures Encode(rows, cols, d) == Encode(rows, cols, e)
  {
    forall i | 0 <= i < rows
      ensures PayloadRow(cols, d, i) == PayloadRow(cols, e, i)
    {
      forall j | 0 <= j < cols
        ensures PayloadRow(cols, d, i)[j] == PayloadRow(cols, e, i)[j]
      {
        CellIndexBound(rows, cols, i, j);
      }
    }
    assert PayloadBlock(rows, cols, d) == PayloadBlock(rows, cols, e);
  }

  /** Bits past the capacity rows * cols are ignored. */
  lemma EncodeTruncates(rows: nat, cols: nat, data: seq<Bit>)
    requires |data| >= rows * cols
    ensures Encode(rows, cols, data) == Encode(rows, cols, data[..rows * cols])
  {
    EncodeDependsOnFit(rows, cols, data, data[..rows * cols]);
  }

  /** A short input behaves as if zero-padded: trailing zeros change nothing. */
  lemma EncodePads(rows: nat, cols: nat, data: seq<Bit>, n: nat)
    ensures Encode(rows, cols, data + Zeros(n)) == Encode(rows, cols, data)
  {
    EncodeDependsOnFit(rows, cols, data + Zeros(n), data);
  }

  /** The check bits of the rows of `p`, taken together, have the parity of all of `p`. */
  lemma {:induction false} RowParitiesParity(p: Matrix)
    ensures CalculateParity(RowParities(p)) == CalculateParity(Flatten(p))
    decreases |p|
  {
    if |p| > 0 {
      var n := |p| - 1;
      assert RowParities(p) == RowParities(p[..n]) + [CalculateParity(p[n])];
      RowParitiesParity(p[..n]);
      ParitySnoc(RowParities(p[..n]), CalculateParity(p[n]));
      ParityConcat(Flatten(p[..n]), p[n]);
    }
  }

  /** The check bits of the columns of `p`, taken together, have the parity of all of `p`. */
  lemma {:induction false} ColumnParitiesParity(p: Matrix, cols: nat)
    requires forall i :: 0 <= i < |p| ==> |p[i]| == cols
    ensures CalculateParity(ColumnParities(p, cols)) == CalculateParity(Flatten(p))
    decreases |p|
  {
    if |p| == 0 {
      assert ColumnParities(p, cols) == Zeros(cols);
      ParityZeros(cols);
    } else {
      var n := |p| - 1;
      var q := p[..n];
      forall j | 0 <= j < cols
        ensures ColumnParities(p, cols)[j] == XorBits(ColumnParities(q, cols), p[n])[j]
      {
        assert Column(p, j) == Column(q, j) + [p[n][j]];
        ParitySnoc(Column(q, j), p[n][j]);
      }
      assert ColumnParities(p, cols) == XorBits(ColumnParities(q, cols), p[n]);
      ParityXor(ColumnParities(q, cols), p[n]);
      ColumnParitiesParity(q, cols);
      ParityConcat(Flatten(q), p[n]);
    }
  }

  /**
   * Corner consistency: the corner bit is the parity of the parity row, of
   * the parity column and of all payload bits, so the two derivations agree.
   */
  lemma CornerConsistency(rows: nat, cols: nat, data: seq<Bit>)
    ensures var m := Encode(rows, cols, data);
      && m[rows][cols] == CalculateParity(m[rows][..cols])
      && m[rows][cols] == CalculateParity(Column(m[..rows], cols))
      && m[rows][cols] == CalculateParity(Flatten(PayloadBlock(rows, cols, data)))
  {
    var m := Encode(rows, cols, data);
    var p := PayloadBlock(rows, cols, data);
    var parityRow := ColumnParities(p, cols);
    assert m[rows] == parityRow + [CalculateParity(parityRow)];
    assert m[rows][..cols] == parityRow;
    assert Column(m[..rows], cols) == RowParities(p);
    ColumnParitiesParity(p, cols);
    RowParitiesParity(p);
  }

  /** Row parity: every row of the encoded matrix, check bit included, is even. */
  lemma EncodeRowsEven(rows: nat, cols: nat, data: seq<Bit>)
    ensures forall i :: 0 <= i <= rows ==> RowEven(Encode(rows, cols, data), i)
  {
    var m := Encode(rows, cols, data);
    var p := PayloadBlock(rows, cols, data);
    var parityRow := ColumnParities(p, cols);
    forall i | 0 <= i <= rows
      ensures RowEven(m, i)
    {
      if i < rows {
        assert m[i] == p[i] + [CalculateParity(p[i])];
        CheckBitMakesEven(p[i]);
      } else {
        assert m[i] == parityRow + [CalculateParity(parityRow)];
        CheckBitMakesEven(parityRow);
      }
    }
  }

  /**
   * Column parity: every column of the encoded matrix, parity-row bit
   * included, is even; the payload columns' check bits are computed from the
   * payload rows only.
   */
  lemma EncodeColumnsEven(rows: nat, cols: nat, data: seq<Bit>)
    ensures forall j :: 0 <= j <= cols ==> ColumnEven(Encode(rows, cols, data), j)
  {
    var m := Encode(rows, cols, data);
    var p := PayloadBlock(rows, cols, data);
    var parityRow := ColumnParities(p, cols);
    forall j | 0 <= j <= cols
      ensures ColumnEven(m, j)
    {
      if j < cols {
        PayloadColumn(rows, cols, data, j);
        CheckBitMakesEven(Column(p, j));
      } else {
        CornerConsistency(rows, cols, data);
        assert Column(m, cols) == Column(m[..rows], cols) + [m[rows][cols]];
        CheckBitMakesEven(Column(m[..rows], cols));
      }
    }
  }

  lemma PayloadColumn(rows: nat, cols: nat, data: seq<Bit>, j: nat)
    requires j < cols
    ensures Column(Encode(rows, cols, data), j)
         == Column(PayloadBlock(rows, cols, data), j) + [ColumnParities(PayloadBlock(rows, cols, data), cols)[j]]
  {
    var m := Encode(rows, cols, data);
    var p := PayloadBlock(rows, cols, data);
    forall i | 0 <= i < rows
      ensures m[i][j] == p[i][j]
    {
      assert m[i] == p[i] + [CalculateParity(p[i])];
    }
  }

  /** The encoded matrix is a codeword of the iterative code. */
  lemma EncodeIsCodeword(rows: nat, cols: nat, data: seq<Bit>)
    ensures IsCodeword(Encode(rows, cols, data), rows, cols)
  {
    EncodeRowsEven(rows, cols, data);
    EncodeColumnsEven(rows, cols, data);
  }

  /**
   * The code is determined by its payload: the encoded matrix is the only
   * codeword whose payload block is the block filled from `data`.
   */
  lemma CodewordUnique(rows: nat, cols: nat, data: seq<Bit>, m: Matrix)
    requires IsCodeword(m, rows, cols)
    requires PayloadOf(m, rows, cols) == PayloadBlock(rows, cols, data)
    ensures m == Encode(rows, cols, data)
  {
    var e := Encode(rows, cols, data);
    var p := PayloadBlock(rows, cols, data);
    var parityRow := ColumnParities(p, cols);
    forall i | 0 <= i < rows
      ensures m[i] == e[i]
    {
      assert PayloadOf(m, rows, cols)[i] == m[i][..cols];
      assert m[i][..cols] == p[i];
      assert m[i] == p[i] + [m[i][cols]];
      assert e[i] == p[i] + [CalculateParity(p[i])];
      assert RowEven(m, i);
      EvenIffCheckBit(p[i], m[i][cols]);
    }
    forall j | 0 <= j < cols
      ensures m[rows][j] == parityRow[j]
    {
      forall i | 0 <= i < rows
        ensures m[i][j] == p[i][j]
      {
        assert PayloadOf(m, rows, cols)[i][j] == m[i][j];
      }
      assert Column(m, j) == Column(p, j) + [m[rows][j]];
      assert ColumnEven(m, j);
      EvenIffCheckBit(Column(p, j), m[rows][j]);
    }
    assert m[rows][..cols] == parityRow;
    assert m[rows] == parityRow + [m[rows][cols]];
    assert RowEven(m, rows);
    EvenIffCheckBit(parityRow, m[rows][cols]);
    assert m[rows] == e[rows];
  }

  /** The 2 by 2 payload 10 / 11 gets check bits 1 and 0, parity row 0 1 and corner 1. */
  lemma EncodeExample()
    ensures Encode(2, 2, [1, 0, 1, 1]) == [[1, 0, 1], [1, 1, 0], [0, 1, 1]]
  {
    var data: seq<Bit> := [1, 0, 1, 1];
    var p := PayloadBlock(2, 2, data);
    var m := Encode(2, 2, data);
    assert p[0] == PayloadRow(2, data, 0);
    assert p[1] == PayloadRow(2, data, 1);
    assert DataBit(data, 0) == 1 && DataBit(data, 1) == 0;
    assert PayloadRow(2, data, 0)[0] == DataBit(data, 0 * 2 + 0);
    assert PayloadRow(2, data, 0)[1] == DataBit(data, 0 * 2 + 1);
    assert DataBit(data, 2) == 1 && DataBit(data, 3) == 1;
    assert PayloadRow(2, data, 1)[0] == DataBit(data, 1 * 2 + 0);
    assert PayloadRow(2, data, 1)[1] == DataBit(data, 1 * 2 + 1);
    assert PayloadRow(2, data, 1)[0] == 1 && PayloadRow(2, data, 1)[1] == 1;
    assert p[0] == [1, 0] && p[1] == [1, 1];
    assert [1, 0][..1] == [1] && [1, 1][..1] == [1];
    assert CalculateParity([1, 0]) == 1 && CalculateParity([1, 1]) == 0;
    assert Column(p, 0) == [1, 1] && Column(p, 1) == [0, 1];
    assert [0, 1][..1] == [0];
    assert CalculateParity([0, 1]) == 1;
    var parityRow := ColumnParities(p, 2);
    assert parityRow[0] == 0 && parityRow[1] == 1;
    assert parityRow == [0, 1];
    assert m[0] == [1, 0, 1] && m[1] == [1, 1, 0] && m[2] == [0, 1, 1];
  }
}
