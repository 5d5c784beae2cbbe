/**
 * The `IterativeCode` class: an encoder configured with the payload
 * dimensions, whose two operations run in place, loop by loop.
 */
module IterativeCoding {
  import opened Bits
  import opened Matrices
  import opened Encoding
  import opened BinaryText

  class IterativeCode {
    const rows: nat
    const cols: nat

    /** Configures the encoder with `rows` by `cols` payload cells. */
    constructor (rows: nat, cols: nat)
      requires rows >= 1 && cols >= 1
      ensures this.rows == rows && this.cols == cols
    {
      this.rows := rows;
      this.cols := cols;
    }

    /**
     * `encodeMessage`: allocates a zero matrix, copies the payload in
     * row-major order, then writes the parity column, the parity row and the
     * corner. The result is the codeword whose payload is `data` cut to, or
     * zero-padded to, rows * cols bits.
     */
    method EncodeMessage(data: seq<Bit>) returns (matrix: Matrix)
      ensures matrix == Encode(rows, cols, data)
      ensures IsCodeword(matrix, rows, cols)
      ensures Flatten(PayloadOf(matrix, rows, cols)) == Fit(data, rows * cols)
    {
      ghost var e := Encode(rows, cols, data);
      matrix := CopyPayload(data);
      matrix := WriteRowParities(data, matrix);
      matrix := WriteParityRow(data, matrix);

      ghost var p := PayloadBlock(rows, cols, data);
      EncodeCells(rows, cols, data);
      assert matrix[rows][..cols] == ColumnParities(p, cols);
      var corner := CalculateParity(matrix[rows][..cols]);
      var lastRow: seq<Bit> := matrix[rows][cols := corner];
      matrix := matrix[rows := lastRow];

      forall a | 0 <= a <= rows
        ensures matrix[a] == e[a]
      {
        assert forall b :: 0 <= b <= cols ==> matrix[a][b] == e[a][b];
      }
      EncodeIsCodeword(rows, cols, data);
      EncodePayload(rows, cols, data);
    }

    /** First phase of `encodeMessage`: the zero matrix with the payload copied in, row by row. */
    method CopyPayload(data: seq<Bit>) returns (matrix: Matrix)
      ensures HasShape(matrix, rows + 1, cols + 1)
      ensures forall a, b :: 0 <= a <= rows && 0 <= b <= cols ==>
        matrix[a][b] == if a < rows && b < cols then Encode(rows, cols, data)[a][b] else 0
    {
      matrix := CreateMatrix(rows + 1, cols + 1);
      for i := 0 to rows
        invariant HasShape(matrix, rows + 1, cols + 1)
        invariant forall a, b :: 0 <= a <= rows && 0 <= b <= cols ==>
          matrix[a][b] == if a < i && b < cols then Encode(rows, cols, data)[a][b] else 0
      {
        matrix := CopyPayloadRow(data, matrix, i);
      }
    }

    /** One pass of the first phase's inner loop: payload row `i` copied in, cell by cell. */
    method CopyPayloadRow(data: seq<Bit>, m: Matrix, i: nat) returns (matrix: Matrix)
      requires i < rows && HasShape(m, rows + 1, cols + 1)
      requires forall a, b :: 0 <= a <= rows && 0 <= b <= cols ==>
        m[a][b] == if a < i && b < cols then Encode(rows, cols, data)[a][b] else 0
      ensures HasShape(matrix, rows + 1, cols + 1)
      ensures forall a, b :: 0 <= a <= rows && 0 <= b <= cols ==>
        matrix[a][b] == if a <= i && b < cols then Encode(rows, cols, data)[a][b] else 0
    {
      ghost var e := Encode(rows, cols, data);
      matrix := m;
      for j := 0 to cols
        invariant HasShape(matrix, rows + 1, cols + 1)
        invariant forall a, b :: 0 <= a <= rows && 0 <= b <= cols ==>
          matrix[a][b] == if (a < i || (a == i && b < j)) && b < cols then e[a][b] else 0
      {
        EncodeDataCell(rows, cols, data, i, j);
        if i * cols + j < |data| {
          var row: seq<Bit> := matrix[i][j := data[i * cols + j]];
          matrix := matrix[i := row];
        }
      }
    }

    /** Second phase: the check bit of each payload row, in the last column. */
    method WriteRowParities(data: seq<Bit>, m: Matrix) returns (matrix: Matrix)
      requires HasShape(m, rows + 1, cols + 1)
      requires forall a, b :: 0 <= a <= rows && 0 <= b <= cols ==>
        m[a][b] == if a < rows && b < cols then Encode(rows, cols, data)[a][b] else 0
      ensures HasShape(matrix, rows + 1, cols + 1)
      ensures forall a, b :: 0 <= a <= rows && 0 <= b <= cols ==>
        matrix[a][b] == if a < rows then Encode(rows, cols, data)[a][b] else 0
    {
      ghost var e := Encode(rows, cols, data);
      ghost var p := PayloadBlock(rows, cols, data);
      EncodeCells(rows, cols, data);
      matrix := m;
      for i := 0 to rows
        invariant HasShape(matrix, rows + 1, cols + 1)
        invariant forall a, b :: 0 <= a <= rows && 0 <= b <= cols ==>
          matrix[a][b] == if (a < rows && b < cols) || (a < i && b == cols) then e[a][b] else 0
      {
        assert matrix[i][..cols] == p[i];
        var check := CalculateParity(matrix[i][..cols]);
        var row: seq<Bit> := matrix[i][cols := check];
        matrix := matrix[i := row];
      }
    }

    /** Third phase: the check bit of each payload column, in the last row. */
    method WriteParityRow(data: seq<Bit>, m: Matrix) returns (matrix: Matrix)
      requires HasShape(m, rows + 1, cols + 1)
      requires forall a, b :: 0 <= a <= rows && 0 <= b <= cols ==>
        m[a][b] == if a < rows then Encode(rows, cols, data)[a][b] else 0
      ensures HasShape(matrix, rows + 1, cols + 1)
      ensures forall a, b :: 0 <= a <= rows && 0 <= b <= cols ==>
        matrix[a][b] == if a < rows || b < cols then Encode(rows, cols, data)[a][b] else 0
    {
      ghost var e := Encode(rows, cols, data);
      ghost var p := PayloadBlock(rows, cols, data);
      EncodeCells(rows, cols, data);
      matrix := m;
      for j := 0 to cols
        invariant HasShape(matrix, rows + 1, cols + 1)
        invariant forall a, b :: 0 <= a <= rows && 0 <= b <= cols ==>
          matrix[a][b] == if a < rows || b < j then e[a][b] else 0
      {
        assert Column(matrix[..rows], j) == Column(p, j);
        var check := CalculateParity(Column(matrix[..rows], j));
        var row: seq<Bit> := matrix[rows][j := check];
        matrix := matrix[rows := row];
      }
    }

    /**
     * `stringToBinary`: appends the bits of each code unit in turn. For text
     * of code units below 256 the result is eight bits per code unit and
     * reads back, byte by byte, as the text.
     */
    method StringToBinary(text: seq<CodeUnit>) returns (binary: seq<Bit>)
      ensures binary == TextBits(text)
      ensures IsNarrow(text) ==> |binary| == 8 * |text| && BytesToText(binary) == text
    {
      binary := [];
      for i := 0 to |text|
        invariant binary == TextBits(text[..i])
      {
        var bits := PadStart(BinaryDigits(text[i]), 8);
        assert text[..i + 1][..i] == text[..i];
        binary := binary + bits;
      }
      assert text[..|text|] == text;
      if IsNarrow(text) {
        NarrowRoundTrip(text);
      }
    }
  }

  /**
   * The encoding step of the demo's `handleEncode`: a 4 by 8 encoder applied
   * to the bits of the input text. Up to four code units below 256 fill the
   * 32 payload cells without loss, padded with zeros.
   */
  method HandleEncode(input: seq<CodeUnit>) returns (encoded: Matrix)
    ensures encoded == Encode(4, 8, TextBits(input))
    ensures IsCodeword(encoded, 4, 8)
    ensures IsNarrow(input) && |input| <= 4 ==>
      Flatten(PayloadOf(encoded, 4, 8)) == TextBits(input) + Zeros(32 - 8 * |input|)
  {
    var codec := new IterativeCode(4, 8);
    var binaryData := codec.StringToBinary(input);
    encoded := codec.EncodeMessage(binaryData);
  }
}
