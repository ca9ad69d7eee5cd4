/** Concrete load behaviours: duplicate keys, rows that are skipped, and
    files that make the load throw. */
module LoadScenarios {
  import opened Wrappers
  import opened Ints
  import opened Text
  import opened PrefValues
  import opened TypedStore
  import opened BinaryTable
  import opened PrefsCodec

  /** A vector row is decoded only when its text has exactly one comma
      (`vector2`) or two commas (`vector3`). */
  lemma {:induction false} VectorArityChecked(row: Row, num: FloatText)
    ensures row.tag == "vector2" && Occurrences(row.text, ',') != 1 ==> ParseRow(row, num).None?
    ensures row.tag == "vector3" && Occurrences(row.text, ',') != 2 ==> ParseRow(row, num).None?
  {
    var parts := Split(row.text, ',');
    assert |parts| == Occurrences(row.text, ',') + 1;
  }

  /** A decimal integer beyond 32 bits, above or below, makes its `int` row
      be skipped. */
  lemma IntRowOutOfRange(key: string, n: nat, num: FloatText)
    requires n >= 0x8000_0000
    ensures ParseRow(Row("int", key, IntText(n)), num).None?
    ensures ParseRow(Row("int", key, IntText(-(n as int) - 1)), num).None?
  {
    OutOfRangeRejected(n);
  }

  /** A trailing run of NULs after an `int` row's digits is accepted. */
  lemma IntRowTrailingNuls(key: string, i: int32, nuls: string, num: FloatText)
    requires AllBlank(nuls, Nuls)
    ensures ParseRow(Row("int", key, IntText(i as int) + nuls), num) == Some(IntValue(i))
  {
    ParseIntPadded("", IntText(i as int), "", nuls);
    assert "" + IntText(i as int) + "" + nuls == IntText(i as int) + nuls;
    IntTextRoundTrip(i);
  }

  /** Of two valid rows for the same key, the later one is kept, whatever
      came before them: the earlier one leaves no trace. */
  lemma DuplicateKeyLastWins(rows: seq<Row>, a: Row, b: Row, num: FloatText)
    requires a.key == b.key
    requires ParseRow(a, num).Some? && ParseRow(b, num).Some?
    ensures Overlay(rows + [a, b], Decoder(num)) == Overlay(rows + [b], Decoder(num))
    ensures Overlay(rows + [a, b], Decoder(num)) == Overlay(rows, Decoder(num))[b.key := ParseRow(b, num).value]
  {
    var decode := Decoder(num);
    var xs, ys := rows + [a, b], rows + [b];
    assert xs[..|xs| - 1] == rows + [a] && xs[|xs| - 1] == b;
    assert (rows + [a])[..|rows|] == rows && (rows + [a])[|rows|] == a;
    assert ys[..|ys| - 1] == rows && ys[|ys| - 1] == b;
    assert decode(a) == ParseRow(a, num) && decode(b) == ParseRow(b, num);
  }

  /** A bool, int or float row whose text its parser rejects, or a row with
      an unknown tag, is ignored wherever it stands: a later invalid row for
      a key leaves the earlier value in place. */
  lemma InvalidLaterRowIgnored(rows: seq<Row>, row: Row, more: seq<Row>, num: FloatText)
    requires || (row.tag == "bool" && ParseBool(row.text).None?)
             || (row.tag == "int" && ParseInt(row.text).None?)
             || (row.tag == "float" && num.parse(row.text).None?)
             || !IsKindName(row.tag)
    ensures Overlay(rows + [row] + more, Decoder(num)) == Overlay(rows + more, Decoder(num))
  {
    RowSkipped(row, num);
    assert Decoder(num)(row) == ParseRow(row, num);
    SkippedRowChangesNothing(rows, row, more, Decoder(num));
  }

  /** An empty file ends the stream before the row count: the load
      throws and leaves an empty store. */
  lemma EmptyFileLoad(num: FloatText)
    ensures Load(Some([]), num) == LoadResult(Loaded(map[]), Some(Framing(EndOfStream)))
  {
  }

  /** A negative row or column count makes the array allocation throw,
      whatever follows in the stream. */
  lemma NegativeCountLoad(fs: seq<Field>, num: FloatText)
    requires |fs| >= 2 && fs[0].Int32Field? && fs[1].Int32Field?
    requires fs[0].n < 0 || fs[1].n < 0
    ensures Load(Some(fs), num) == LoadResult(Loaded(map[]), Some(Framing(NegativeDimension)))
  {
  }

  /** Any table that has a row but fewer than three columns throws when the
      missing cell of its first row is read. */
  lemma NarrowTableLoad(g: Grid, rest: seq<Field>, num: FloatText)
    requires IsArray(g) && |g.rows| > 0 && g.cols < 3
    ensures Load(Some(Write2DArray(g) + rest), num) == LoadResult(Loaded(map[]), Some(MissingColumn))
  {
    WriteReadRoundTrip(g, rest);
  }

  /** A table with no rows reads as an empty store, whatever its
      non-negative column count. */
  lemma NoRowsLoad(cols: int32, num: FloatText)
    requires cols >= 0
    ensures Load(Some([Int32Field(0), Int32Field(cols)]), num) == LoadResult(Loaded(map[]), None)
  {
    var fs := [Int32Field(0), Int32Field(cols)];
    assert Read2DArray(fs) == Success(Grid(cols as nat, []));
  }
}
