/** The binary table framing: a rows-by-columns array of strings written as
    the row count, the column count, then every cell in row-major order,
    and read back the same way. The byte encoding of each field is the
    runtime's business; a stream here is a sequence of typed fields. */
module BinaryTable {
  import opened Wrappers
  import opened Ints

  /** One field of a `BinaryWriter` stream. */
  datatype Field = Int32Field(n: int32) | StringField(s: string)

  /** A C# `string[rows, cols]`, as its sequence of rows. */
  datatype Grid = Grid(cols: nat, rows: seq<seq<string>>)

  /** Every row has `cols` cells. */
  ghost predicate Rectangular(rows: seq<seq<string>>, cols: nat) {
    forall i :: 0 <= i < |rows| ==> |rows[i]| == cols
  }

  /** A grid a C# two-dimensional array can be: rectangular, with both
      dimensions within `int`. */
  ghost predicate IsArray(g: Grid) {
    && Rectangular(g.rows, g.cols)
    && |g.rows| < 0x8000_0000
    && g.cols < 0x8000_0000
  }

  /** Why `Read2DArray` throws: the stream ends early, a dimension is
      negative, or a field is not of the kind being read. */
  datatype FramingError = EndOfStream | NegativeDimension | WrongFieldKind

  function RowFields(row: seq<string>): (fs: seq<Field>)
    ensures |fs| == |row|
    ensures forall j :: 0 <= j < |row| ==> fs[j] == StringField(row[j])
    decreases |row|
  {
    if |row| == 0 then [] else [StringField(row[0])] + RowFields(row[1..])
  }

  function CellFields(rows: seq<seq<string>>): seq<Field>
    decreases |rows|
  {
    if |rows| == 0 then [] else RowFields(rows[0]) + CellFields(rows[1..])
  }

  lemma {:induction false} CellFieldsLength(rows: seq<seq<string>>, cols: nat)
    requires Rectangular(rows, cols)
    ensures |CellFields(rows)| == |rows| * cols
    decreases |rows|
  {
    if |rows| > 0 {
      CellFieldsLength(rows[1..], cols);
      assert |rows| * cols == cols + (|rows| - 1) * cols;
    }
  }

  /** Cell `(i, j)` sits at position `i * cols + j` of the cell fields. */
  lemma {:induction false} CellFieldsAt(rows: seq<seq<string>>, cols: nat, i: nat, j: nat)
    requires Rectangular(rows, cols)
    requires i < |rows| && j < cols
    ensures i * cols + j < |CellFields(rows)|
    ensures CellFields(rows)[i * cols + j] == StringField(rows[i][j])
    decreases i
  {
    CellFieldsLength(rows, cols);
    if i > 0 {
      CellFieldsAt(rows[1..], cols, i - 1, j);
      assert i * cols + j == cols + ((i - 1) * cols + j);
    }
  }

  /** `Write2DArray`: the row count, the column count, then every cell,
      row by row. */
  function Write2DArray(g: Grid): (fs: seq<Field>)
    requires IsArray(g)
    ensures |fs| == 2 + |g.rows| * g.cols
    ensures fs[0] == Int32Field(|g.rows| as int32)
    ensures fs[1] == Int32Field(g.cols as int32)
  {
    CellFieldsLength(g.rows, g.cols);
    [Int32Field(|g.rows| as int32), Int32Field(g.cols as int32)] + CellFields(g.rows)
  }

  /** The cells are written in row-major order: cell `(i, j)` is field
      `2 + i * cols + j`. */
  lemma WrittenRowMajor(g: Grid, i: nat, j: nat)
    requires IsArray(g)
    requires i < |g.rows| && j < g.cols
    ensures 2 + i * g.cols + j < |Write2DArray(g)|
    ensures Write2DArray(g)[2 + i * g.cols + j] == StringField(g.rows[i][j])
  {
    CellFieldsAt(g.rows, g.cols, i, j);
  }

  /** `ReadInt32`. */
  function ReadInt32(fs: seq<Field>): Result<(int32, seq<Field>), FramingError> {
    if |fs| == 0 then Failure(EndOfStream)
    else if fs[0].StringField? then Failure(WrongFieldKind)
    else Success((fs[0].n, fs[1..]))
  }

  /** `ReadString`. */
  function ReadString(fs: seq<Field>): Result<(string, seq<Field>), FramingError> {
    if |fs| == 0 then Failure(EndOfStream)
    else if fs[0].Int32Field? then Failure(WrongFieldKind)
    else Success((fs[0].s, fs[1..]))
  }

  /** The inner loop: `count` strings in a row. */
  function ReadRow(fs: seq<Field>, count: nat): (r: Result<(seq<string>, seq<Field>), FramingError>)
    ensures r.Success? ==> |r.value.0| == count
    decreases count
  {
    if count == 0 then Success(([], fs))
    else
      var (cell, rest) :- ReadString(fs);
      var (cells, rest') :- ReadRow(rest, count - 1);
      Success(([cell] + cells, rest'))
  }

  /** The outer loop: `count` rows of `cols` strings each. */
  function ReadRows(fs: seq<Field>, count: nat, cols: nat): (r: Result<(seq<seq<string>>, seq<Field>), FramingError>)
    ensures r.Success? ==> |r.value.0| == count && Rectangular(r.value.0, cols)
    decreases count
  {
    if count == 0 then Success(([], fs))
    else
      var (row, rest) :- ReadRow(fs, cols);
      var (rows, rest') :- ReadRows(rest, count - 1, cols);
      Success(([row] + rows, rest'))
  }

  /** `Read2DArray`: both dimensions, then the cells row by row. A negative
      dimension makes the array allocation throw before any cell is read;
      fields after the last cell are left unread. */
  function Read2DArray(fs: seq<Field>): (r: Result<Grid, FramingError>)
    ensures r.Success? ==> IsArray(r.value)
    ensures |fs| < 2 && (forall i :: 0 <= i < |fs| ==> fs[i].Int32Field?) ==> r == Failure(EndOfStream)
    ensures |fs| >= 2 && fs[0].Int32Field? && fs[1].Int32Field? && (fs[0].n < 0 || fs[1].n < 0) ==>
      r == Failure(NegativeDimension)
  {
    var (x, rest) :- ReadInt32(fs);
    var (y, rest') :- ReadInt32(rest);
    if x < 0 || y < 0 then Failure(NegativeDimension)
    else
      var (rows, _) :- ReadRows(rest', x as nat, y as nat);
      Success(Grid(y as nat, rows))
  }

  lemma {:induction false} ReadRowOfWritten(row: seq<string>, rest: seq<Field>)
    ensures ReadRow(RowFields(row) + rest, |row|) == Success((row, rest))
    decreases |row|
  {
    if |row| > 0 {
      var fs := RowFields(row) + rest;
      assert fs[1..] == RowFields(row[1..]) + rest;
      assert ReadString(fs) == Success((row[0], fs[1..]));
      ReadRowOfWritten(row[1..], rest);
      assert |row[1..]| == |row| - 1;
      assert [row[0]] + row[1..] == row;
      assert ReadRow(fs, |row|) == Success(([row[0]] + row[1..], rest));
    } else {
      assert RowFields(row) + rest == rest;
    }
  }

  lemma {:induction false} ReadRowsOfWritten(rows: seq<seq<string>>, cols: nat, rest: seq<Field>)
    requires Rectangular(rows, cols)
    ensures ReadRows(CellFields(rows) + rest, |rows|, cols) == Success((rows, rest))
    decreases |rows|
  {
    if |rows| > 0 {
      var tail := CellFields(rows[1..]) + rest;
      assert CellFields(rows) + rest == RowFields(rows[0]) + tail;
      ReadRowOfWritten(rows[0], tail);
      assert |rows[0]| == cols;
      ReadRowsOfWritten(rows[1..], cols, rest);
      assert [rows[0]] + rows[1..] == rows;
    } else {
      assert CellFields(rows) + rest == rest;
    }
  }

  /** Reading back what `Write2DArray` wrote gives the same table, cell for
      cell, whatever follows it in the stream. */
  lemma WriteReadRoundTrip(g: Grid, rest: seq<Field>)
    requires IsArray(g)
    ensures Read2DArray(Write2DArray(g) + rest) == Success(g)
  {
    var fs := Write2DArray(g) + rest;
    assert fs[2..] == CellFields(g.rows) + rest;
    ReadRowsOfWritten(g.rows, g.cols, rest);
  }

  lemma {:induction false} ShortRowFails(row: seq<string>, k: nat)
    requires k < |row|
    ensures ReadRow(RowFields(row)[..k], |row|) == Failure(EndOfStream)
    decreases |row|
  {
    var fs := RowFields(row)[..k];
    if k > 0 {
      assert fs[1..] == RowFields(row[1..])[..k - 1];
      ShortRowFails(row[1..], k - 1);
    }
  }

  lemma {:induction false} ShortRowsFail(rows: seq<seq<string>>, cols: nat, k: nat)
    requires Rectangular(rows, cols)
    requires k < |CellFields(rows)|
    ensures ReadRows(CellFields(rows)[..k], |rows|, cols) == Failure(EndOfStream)
    decreases |rows|
  {
    var first := RowFields(rows[0]);
    var fs := CellFields(rows)[..k];
    if k < |first| {
      assert fs == first[..k];
      ShortRowFails(rows[0], k);
    } else {
      assert fs == first + CellFields(rows[1..])[..k - |first|];
      ReadRowOfWritten(rows[0], CellFields(rows[1..])[..k - |first|]);
      ShortRowsFail(rows[1..], cols, k - |first|);
    }
  }

  /** Every proper prefix of a written table is a failed read: reading past
      the end of the stream is an error, never a shorter table. */
  lemma TruncatedStreamFails(g: Grid, k: nat)
    requires IsArray(g)
    requires k < |Write2DArray(g)|
    ensures Read2DArray(Write2DArray(g)[..k]) == Failure(EndOfStream)
  {
    var fs := Write2DArray(g);
    if k >= 2 {
      assert fs[..k][2..] == CellFields(g.rows)[..k - 2];
      ShortRowsFail(g.rows, g.cols, k - 2);
    }
  }
}
