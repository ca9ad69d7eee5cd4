/** Saving the store as a three-column table of `[type tag, key, formatted
    value]` rows, loading it back, and looking up the save date of a saved
    table. File access stays outside: a save produces the field stream to
    write, and a load or date lookup receives the stream that was read, or
    `None` when there is no file. */
module PrefsCodec {
  import opened Wrappers
  import opened Ints
  import opened Text
  import opened PrefValues
  import opened TypedStore
  import opened BinaryTable

  /** The formatted-value cell of an entry. Bools are written in lower
      case and ints in decimal, so that their parsers read them back;
      strings are written verbatim, floats by the runtime's formatter, and
      vectors as their formatted components joined by commas (see
      `VectorCellParts`). The date entry carries the text of the
      whole-second timestamp of the save, not the float stored under it. */
  function FormatValue(key: string, v: Value, now: int, num: FloatText): (t: string)
    ensures v.BoolValue? ==> t == BoolText(v.b) && ParseBool(t) == Some(v.b)
    ensures v.IntValue? ==> ParseInt(t) == Some(v.i)
    ensures v.StringValue? ==> t == v.s
    ensures v.FloatValue? ==> t == (if key == DateKey then IntText(now) else num.format(v.f))
  {
    match v
    case BoolValue(b) => BoolTextRoundTrip(b); BoolText(b)
    case IntValue(i) => IntTextRoundTrip(i); IntText(i as int)
    case FloatValue(f) => if key != DateKey then num.format(f) else IntText(now)
    case StringValue(s) => s
    case Vector2Value(x, y) => Join([num.format(x), num.format(y)], ',')
    case Vector3Value(x, y, z) => Join([num.format(x), num.format(y), num.format(z)], ',')
  }

  /** A vector's cell splits at its commas into the formatted components,
      as long as no component's text contains a comma itself. */
  lemma VectorCellParts(key: string, v: Value, now: int, num: FloatText)
    ensures v.Vector2Value? && ',' !in num.format(v.x) && ',' !in num.format(v.y) ==>
      Split(FormatValue(key, v, now, num), ',') == [num.format(v.x), num.format(v.y)]
    ensures v.Vector3Value? && ',' !in num.format(v.x) && ',' !in num.format(v.y) && ',' !in num.format(v.z) ==>
      Split(FormatValue(key, v, now, num), ',') == [num.format(v.x), num.format(v.y), num.format(v.z)]
  {
    match v
    case Vector2Value(x, y) =>
      var parts := [num.format(x), num.format(y)];
      if ',' !in parts[0] && ',' !in parts[1] {
        SplitJoin(parts, ',');
      }
    case Vector3Value(x, y, z) =>
      var parts := [num.format(x), num.format(y), num.format(z)];
      if ',' !in parts[0] && ',' !in parts[1] && ',' !in parts[2] {
        SplitJoin(parts, ',');
      }
    case _ =>
  }

  /** The three cells of a table row that the store reads and writes. */
  datatype Row = Row(tag: string, key: string, text: string)

  /** The row the save loop builds for one entry. */
  function EncodeEntry(key: string, v: Value, now: int, num: FloatText): (row: Row)
    ensures row.tag == KindName(v) && row.key == key
  {
    Row(KindName(v), key, FormatValue(key, v, now, num))
  }

  /** The tags the load loop recognises. */
  predicate IsKindName(tag: string) {
    tag in {"bool", "int", "float", "string", "vector2", "vector3"}
  }

  /** A vector component: trimmed, then parsed as a float. */
  function ParseComponent(part: string, num: FloatText): Option<Float> {
    num.parse(Trim(part, TrimBlanks))
  }

  /** A `bool` row's value: `bool.TryParse` of the text; the row is
      skipped exactly when that fails. */
  function ParseBoolRow(text: string): (r: Option<Value>)
    ensures r.Some? ==> r.value.BoolValue?
    ensures r.None? <==> ParseBool(text).None?
    ensures r.Some? ==> r.value.b == ParseBool(text).value
  {
    var b := ParseBool(text);
    if b.Some? then Some(BoolValue(b.value)) else None
  }

  /** An `int` row's value: `int.TryParse` of the text; the row is skipped
      exactly when that fails. */
  function ParseIntRow(text: string): (r: Option<Value>)
    ensures r.Some? ==> r.value.IntValue?
    ensures r.None? <==> ParseInt(text).None?
    ensures r.Some? ==> r.value.i == ParseInt(text).value
  {
    var i := ParseInt(text);
    if i.Some? then Some(IntValue(i.value)) else None
  }

  /** A `float` row's value: `float.TryParse` of the text; the row is
      skipped exactly when that fails. */
  function ParseFloatRow(text: string, num: FloatText): (r: Option<Value>)
    ensures r.Some? ==> r.value.FloatValue?
    ensures r.None? <==> num.parse(text).None?
    ensures r.Some? ==> r.value.f == num.parse(text).value
  {
    var f := num.parse(text);
    if f.Some? then Some(FloatValue(f.value)) else None
  }

  /** A `vector2` row's value: exactly two comma-separated parts, each of
      which parses. */
  function ParseVector2Row(text: string, num: FloatText): (r: Option<Value>)
    ensures r.Some? ==> r.value.Vector2Value?
    ensures Occurrences(text, ',') != 1 ==> r.None?
    ensures var parts := Split(text, ',');
      |parts| == 2 ==> (r.None? <==> ParseComponent(parts[0], num).None? || ParseComponent(parts[1], num).None?)
    ensures r.Some? ==> var parts := Split(text, ',');
      r.value == Vector2Value(ParseComponent(parts[0], num).value, ParseComponent(parts[1], num).value)
  {
    var parts := Split(text, ',');
    if |parts| != 2 then None
    else
      var x, y := ParseComponent(parts[0], num), ParseComponent(parts[1], num);
      if x.Some? && y.Some? then Some(Vector2Value(x.value, y.value)) else None
  }

  /** A `vector3` row's value: exactly three comma-separated parts, each of
      which parses. */
  function ParseVector3Row(text: string, num: FloatText): (r: Option<Value>)
    ensures r.Some? ==> r.value.Vector3Value?
    ensures Occurrences(text, ',') != 2 ==> r.None?
    ensures var parts := Split(text, ',');
      |parts| == 3 ==> (r.None? <==>
        ParseComponent(parts[0], num).None? || ParseComponent(parts[1], num).None? || ParseComponent(parts[2], num).None?)
    ensures r.Some? ==> var parts := Split(text, ',');
      r.value == Vector3Value(ParseComponent(parts[0], num).value, ParseComponent(parts[1], num).value,
                              ParseComponent(parts[2], num).value)
  {
    var parts := Split(text, ',');
    if |parts| != 3 then None
    else
      var x, y, z := ParseComponent(parts[0], num), ParseComponent(parts[1], num), ParseComponent(parts[2], num);
      if x.Some? && y.Some? && z.Some? then Some(Vector3Value(x.value, y.value, z.value)) else None
  }

  /** One pass of the load loop: the value a row decodes to, dispatched on
      its tag, or `None` when the row is skipped (an unparsable value, a
      vector with the wrong number of comma-separated parts, `unknown` or
      any other tag). */
  function ParseRow(row: Row, num: FloatText): (r: Option<Value>)
    ensures r.Some? ==> KindName(r.value) == row.tag
    ensures !IsKindName(row.tag) ==> r.None?
    ensures row.tag == "string" ==> r == Some(StringValue(row.text))
  {
    var tag, text := row.tag, row.text;
    if tag == "bool" then ParseBoolRow(text)
    else if tag == "string" then Some(StringValue(text))
    else if tag == "int" then ParseIntRow(text)
    else if tag == "float" then ParseFloatRow(text, num)
    else if tag == "vector2" then ParseVector2Row(text, num)
    else if tag == "vector3" then ParseVector3Row(text, num)
    else None
  }

  /** A vector component ignores white space around it. */
  lemma ComponentPadding(pre: string, part: string, post: string, num: FloatText)
    requires AllBlank(pre, TrimBlanks) && AllBlank(post, TrimBlanks)
    ensures ParseComponent(pre + part + post, num) == ParseComponent(part, num)
  {
    TrimPadding(pre, part, post, TrimBlanks);
  }

  /** Which rows the load loop skips, tag by tag: a bool, int or float row
      whose text its parser rejects, a vector row without the right number
      of parts or with a part that does not parse after trimming, and a row
      with any other tag. A string row is never skipped. */
  lemma RowSkipped(row: Row, num: FloatText)
    ensures row.tag == "bool" ==> (ParseRow(row, num).None? <==> ParseBool(row.text).None?)
    ensures row.tag == "int" ==> (ParseRow(row, num).None? <==> ParseInt(row.text).None?)
    ensures row.tag == "float" ==> (ParseRow(row, num).None? <==> num.parse(row.text).None?)
    ensures row.tag == "string" ==> ParseRow(row, num).Some?
    ensures row.tag == "vector2" ==> var parts := Split(row.text, ',');
      (ParseRow(row, num).None? <==>
        |parts| != 2 || ParseComponent(parts[0], num).None? || ParseComponent(parts[1], num).None?)
    ensures row.tag == "vector3" ==> var parts := Split(row.text, ',');
      (ParseRow(row, num).None? <==>
        |parts| != 3 || ParseComponent(parts[0], num).None? || ParseComponent(parts[1], num).None?
        || ParseComponent(parts[2], num).None?)
    ensures !IsKindName(row.tag) ==> ParseRow(row, num).None?
  {
  }

  /** `ParseRow` with the float numerics fixed, as the load loop uses it. */
  function Decoder(num: FloatText): Row -> Option<Value> {
    row => ParseRow(row, num)
  }

  /** The load loop over all rows, for any row decoder: starting from an
      empty dictionary, every row the decoder accepts is stored under its
      key, replacing what an earlier row stored there. */
  function Overlay(rows: seq<Row>, decode: Row -> Option<Value>): (m: map<string, Value>)
    ensures |m| <= |rows|
    decreases |rows|
  {
    if |rows| == 0 then map[]
    else
      var m := Overlay(rows[..|rows| - 1], decode);
      var last := rows[|rows| - 1];
      var v := decode(last);
      if v.Some? then m[last.key := v.value] else m
  }

  /** Every key the load loop stores comes from a row that decodes to the
      value stored. */
  lemma {:induction false} OverlayOrigin(rows: seq<Row>, decode: Row -> Option<Value>)
    ensures forall k :: k in Overlay(rows, decode) ==>
      exists i :: 0 <= i < |rows| && rows[i].key == k && decode(rows[i]) == Some(Overlay(rows, decode)[k])
    decreases |rows|
  {
    if |rows| > 0 {
      var init := rows[..|rows| - 1];
      OverlayOrigin(init, decode);
      var m := Overlay(rows, decode);
      forall k | k in m ensures exists i :: 0 <= i < |rows| && rows[i].key == k && decode(rows[i]) == Some(m[k]) {
        var last := rows[|rows| - 1];
        if !(decode(last).Some? && k == last.key) {
          assert k in Overlay(init, decode) && m[k] == Overlay(init, decode)[k];
          var i :| 0 <= i < |init| && init[i].key == k && decode(init[i]) == Some(Overlay(init, decode)[k]);
          assert rows[i] == init[i];
        }
      }
    }
  }

  /** When several rows share a key, the key ends up holding the value of
      the last of them that decodes. */
  lemma {:induction false} LastValidRowWins(rows: seq<Row>, decode: Row -> Option<Value>, k: string, i: nat)
    requires i < |rows| && rows[i].key == k && decode(rows[i]).Some?
    requires forall j :: i < j < |rows| && rows[j].key == k ==> decode(rows[j]).None?
    ensures k in Overlay(rows, decode)
    ensures Overlay(rows, decode)[k] == decode(rows[i]).value
    decreases |rows|
  {
    var init := rows[..|rows| - 1];
    if i < |rows| - 1 {
      assert init[i] == rows[i];
      forall j | i < j < |init| && init[j].key == k ensures decode(init[j]).None? {
        assert init[j] == rows[j];
      }
      LastValidRowWins(init, decode, k, i);
    }
  }

  /** A row that does not decode changes nothing: decoding carries on with
      the rows after it. */
  lemma {:induction false} SkippedRowChangesNothing(rows: seq<Row>, row: Row, more: seq<Row>, decode: Row -> Option<Value>)
    requires decode(row).None?
    ensures Overlay(rows + [row] + more, decode) == Overlay(rows + more, decode)
    decreases |more|
  {
    var a := rows + [row] + more;
    var b := rows + more;
    if |more| == 0 {
      assert a[..|a| - 1] == rows;
      assert a[|a| - 1] == row;
      assert b == rows;
    } else {
      var more' := more[..|more| - 1];
      SkippedRowChangesNothing(rows, row, more', decode);
      assert a[..|a| - 1] == rows + [row] + more';
      assert b[..|b| - 1] == rows + more';
      assert a[|a| - 1] == b[|b| - 1];
      assert Overlay(a[..|a| - 1], decode) == Overlay(b[..|b| - 1], decode);
    }
  }

  /** Why a load or a date lookup throws once the file is open: the framing
      is broken, or the table has rows but fewer than three columns, so
      that reading the first row's cells goes out of bounds. */
  datatype LoadError = Framing(cause: FramingError) | MissingColumn

  /** A row's three cells, in column order. */
  function Cells(row: Row): (cells: seq<string>)
    ensures |cells| == 3
  {
    [row.tag, row.key, row.text]
  }

  /** `Read2DArray` and the reads of the first three cells of each row;
      further columns are ignored. */
  function ReadTable(fs: seq<Field>): (r: Result<seq<Row>, LoadError>)
    ensures Read2DArray(fs).Failure? ==> r == Failure(Framing(Read2DArray(fs).error))
    ensures Read2DArray(fs).Success? ==>
      (r == Failure(MissingColumn) <==> |Read2DArray(fs).value.rows| > 0 && Read2DArray(fs).value.cols < 3)
    ensures r.Success? ==> (|r.value| == |Read2DArray(fs).value.rows| &&
      forall i :: 0 <= i < |r.value| ==> Cells(r.value[i]) == Read2DArray(fs).value.rows[i][..3])
  {
    match Read2DArray(fs)
    case Failure(e) => Failure(Framing(e))
    case Success(g) =>
      if |g.rows| > 0 && g.cols < 3 then Failure(MissingColumn)
      else Success(seq(|g.rows|, i requires 0 <= i < |g.rows| => Row(g.rows[i][0], g.rows[i][1], g.rows[i][2])))
  }

  /** The three-column array the save routine fills, one row per entry. */
  function ToGrid(rows: seq<Row>): (g: Grid)
    ensures g.cols == 3 && |g.rows| == |rows|
    ensures forall i :: 0 <= i < |rows| ==> g.rows[i] == Cells(rows[i])
    ensures |rows| < 0x8000_0000 ==> IsArray(g)
  {
    Grid(3, seq(|rows|, i requires 0 <= i < |rows| => Cells(rows[i])))
  }

  /** Reading a written three-column table gives back its rows. */
  lemma ReadTableOfWritten(rows: seq<Row>)
    requires |rows| < 0x8000_0000
    ensures ReadTable(Write2DArray(ToGrid(rows))) == Success(rows)
  {
    var g := ToGrid(rows);
    WriteReadRoundTrip(g, []);
    assert Write2DArray(g) + [] == Write2DArray(g);
    assert Read2DArray(Write2DArray(g)).value == g;
    var r := ReadTable(Write2DArray(g)).value;
    forall i | 0 <= i < |rows| ensures r[i] == rows[i] {
      assert Cells(rows[i])[..3] == Cells(rows[i]);
      assert Cells(r[i]) == Cells(rows[i]);
      assert Cells(r[i])[0] == rows[i].tag && Cells(r[i])[1] == rows[i].key && Cells(r[i])[2] == rows[i].text;
    }
    assert r == rows;
  }

  /** The store `Load` leaves behind, and the exception it ends with, if any. */
  datatype LoadResult = LoadResult(store: Store, error: Option<LoadError>)

  /** `Load`: the dictionary is replaced by a fresh one before the file is
      read, so the store is always loaded afterwards, empty when there is
      no file or the file cannot be read, and holding the decoded rows
      otherwise. Nothing of the previous store survives. */
  function Load(file: Option<seq<Field>>, num: FloatText): (r: LoadResult)
    ensures r.store.Loaded?
    ensures r.error.Some? ==> r.store.entries == map[]
    ensures file.None? ==> r == LoadResult(Loaded(map[]), None)
    ensures file.Some? ==> (r.error.Some? <==> ReadTable(file.value).Failure?)
    ensures file.Some? && ReadTable(file.value).Failure? ==> r.error == Some(ReadTable(file.value).error)
    ensures file.Some? && ReadTable(file.value).Success? ==>
      r.store.entries == Overlay(ReadTable(file.value).value, Decoder(num))
  {
    match file
    case None => LoadResult(Loaded(map[]), None)
    case Some(fs) =>
      match ReadTable(fs)
      case Failure(e) => LoadResult(Loaded(map[]), Some(e))
      case Success(rows) => LoadResult(Loaded(Overlay(rows, Decoder(num))), None)
  }

  /** What `Save` does: nothing without a store, otherwise the rows and the
      field stream `Write2DArray` makes of them. */
  datatype SaveResult = NoStore | Written(rows: seq<Row>, stream: seq<Field>)

  /** The store after `Save` has stamped the date into it. */
  function Stamp(s: Store, now: int, num: FloatText): (r: Store)
    ensures s.Loaded? ==> r.Loaded? && DateKey in r.entries
    ensures Assigned(s, r, DateKey, FloatValue(num.fromSeconds(now)))
  {
    Put(s, DateKey, FloatValue(num.fromSeconds(now)))
  }

  /** The date is stamped before the entries are counted, so a loaded store
      is never empty at that point and `Save`'s branch that would delete
      the save file for an empty store is never taken. */
  lemma StampedNeverEmpty(s: Store, now: int, num: FloatText)
    requires s.Loaded?
    ensures |Stamp(s, now, num).entries| > 0
  {
    assert DateKey in Stamp(s, now, num).entries;
  }

  /** `rows` is a table of `m` under the row encoder `encode`: one row per
      entry, each built from its entry, in some order, no key twice. */
  ghost predicate TableOf(rows: seq<Row>, m: map<string, Value>, encode: (string, Value) -> Row) {
    && |rows| == |m|
    && (forall i :: 0 <= i < |rows| ==> rows[i].key in m && rows[i] == encode(rows[i].key, m[rows[i].key]))
    && (forall i, j :: 0 <= i < j < |rows| ==> rows[i].key != rows[j].key)
    && (forall k :: k in m ==> exists i :: 0 <= i < |rows| && rows[i].key == k)
  }

  /** `EncodeEntry` with the save time and float numerics fixed, as the save
      loop uses it. */
  function Encoder(now: int, num: FloatText): (string, Value) -> Row {
    (key, v) => EncodeEntry(key, v, now, num)
  }

  /** `rows` is a table the save loop can build from `m`. */
  ghost predicate Tabulates(rows: seq<Row>, m: map<string, Value>, now: int, num: FloatText) {
    TableOf(rows, m, Encoder(now, num))
  }

  /** The dictionary's enumeration order: every key once, in an order the
      runtime chooses and the model leaves open. */
  method Enumerate(keys: set<string>) returns (order: seq<string>)
    ensures |order| == |keys|
    ensures forall i :: 0 <= i < |order| ==> order[i] in keys
    ensures forall k :: k in keys ==> k in order
    ensures forall i, j :: 0 <= i < j < |order| ==> order[i] != order[j]
  {
    order := [];
    var pending := keys;
    while pending != {}
      invariant pending <= keys
      invariant |order| + |pending| == |keys|
      invariant forall i :: 0 <= i < |order| ==> order[i] in keys && order[i] !in pending
      invariant forall k :: k in keys && k !in pending ==> k in order
      invariant forall i, j :: 0 <= i < j < |order| ==> order[i] != order[j]
      decreases pending
    {
      var k :| k in pending;
      order := order + [k];
      pending := pending - {k};
    }
  }

  /** The rows built from the entries of `m` taken in the order `order`. */
  function RowsInOrder(order: seq<string>, m: map<string, Value>, now: int, num: FloatText): (rows: seq<Row>)
    requires forall i :: 0 <= i < |order| ==> order[i] in m
    ensures |rows| == |order|
    ensures forall i :: 0 <= i < |order| ==> rows[i].key == order[i]
  {
    seq(|order|, i requires 0 <= i < |order| => EncodeEntry(order[i], m[order[i]], now, num))
  }

  /** Rows built in an enumeration order of `m` form a table of `m`. */
  lemma RowsInOrderTabulate(order: seq<string>, m: map<string, Value>, now: int, num: FloatText)
    requires |order| == |m|
    requires forall i :: 0 <= i < |order| ==> order[i] in m
    requires forall k :: k in m ==> k in order
    requires forall i, j :: 0 <= i < j < |order| ==> order[i] != order[j]
    ensures Tabulates(RowsInOrder(order, m, now, num), m, now, num)
  {
    var rows := RowsInOrder(order, m, now, num);
    assert forall i :: 0 <= i < |rows| ==> rows[i] == Encoder(now, num)(rows[i].key, m[rows[i].key]);
    forall k | k in m ensures exists i :: 0 <= i < |rows| && rows[i].key == k {
      var i :| 0 <= i < |order| && order[i] == k;
      assert rows[i].key == k;
    }
  }

  /** `Save`: stamps the date (as `(float)` of the `now` seconds) into the
      store before anything else, then builds one row per entry in the
      dictionary's enumeration order. A .NET dictionary holds fewer than
      2^31 - 1 entries. */
  method Save(s: Store, now: int, num: FloatText) returns (r: SaveResult, saved: Store)
    requires s.Loaded? ==> |s.entries| < 0x7FFF_FFFF
    ensures s.NotLoaded? ==> r == NoStore && saved == NotLoaded
    ensures s.Loaded? ==> saved == Stamp(s, now, num) && r.Written? && Tabulates(r.rows, saved.entries, now, num)
    ensures r.Written? ==> |r.rows| < 0x8000_0000 && r.stream == Write2DArray(ToGrid(r.rows))
  {
    if s.NotLoaded? {
      return NoStore, NotLoaded;
    }
    saved := Stamp(s, now, num);
    var m := saved.entries;
    assert m.Keys == s.entries.Keys + {DateKey};
    if DateKey in s.entries {
      assert m.Keys == s.entries.Keys;
    }
    var order := Enumerate(m.Keys);
    var rows := RowsInOrder(order, m, now, num);
    RowsInOrderTabulate(order, m, now, num);
    r := Written(rows, Write2DArray(ToGrid(rows)));
  }

  /** The kinds whose text the model renders and parses itself, with no
      float involved. */
  predicate Exact(v: Value) {
    v.BoolValue? || v.IntValue? || v.StringValue?
  }

  lemma BoolRowRoundTrip(key: string, b: bool, num: FloatText)
    ensures ParseRow(Row("bool", key, BoolText(b)), num) == Some(BoolValue(b))
  {
    BoolTextRoundTrip(b);
  }

  lemma IntRowRoundTrip(key: string, i: int32, num: FloatText)
    ensures ParseRow(Row("int", key, IntText(i as int)), num) == Some(IntValue(i))
  {
    IntTextRoundTrip(i);
  }

  lemma FloatRowRoundTrip(key: string, f: Float, num: FloatText)
    requires Sound(num) && !IsNaN(f)
    ensures ParseRow(Row("float", key, num.format(f)), num) == Some(FloatValue(f))
  {
    assert num.parse(num.format(f)) == Some(f);
  }

  lemma ComponentRoundTrip(f: Float, num: FloatText)
    requires Sound(num) && !IsNaN(f)
    ensures ParseComponent(num.format(f), num) == Some(f)
  {
    assert Trim(num.format(f), TrimBlanks) == num.format(f);
  }

  lemma Vector2RowRoundTrip(key: string, x: Float, y: Float, num: FloatText)
    requires Sound(num) && !IsNaN(x) && !IsNaN(y)
    ensures ParseRow(Row("vector2", key, Join([num.format(x), num.format(y)], ',')), num) == Some(Vector2Value(x, y))
  {
    var parts := [num.format(x), num.format(y)];
    SplitJoin(parts, ',');
    ComponentRoundTrip(x, num);
    ComponentRoundTrip(y, num);
  }

  lemma Vector3RowRoundTrip(key: string, x: Float, y: Float, z: Float, num: FloatText)
    requires Sound(num) && !IsNaN(x) && !IsNaN(y) && !IsNaN(z)
    ensures ParseRow(Row("vector3", key, Join([num.format(x), num.format(y), num.format(z)], ',')), num) ==
      Some(Vector3Value(x, y, z))
  {
    var parts := [num.format(x), num.format(y), num.format(z)];
    SplitJoin(parts, ',');
    ComponentRoundTrip(x, num);
    ComponentRoundTrip(y, num);
    ComponentRoundTrip(z, num);
  }

  /** An entry other than the date is decoded back from its own row: bools,
      ints and strings always, floats and vectors when the float numerics
      are sound and no component is a NaN. */
  lemma EntryRoundTrip(key: string, v: Value, now: int, num: FloatText)
    requires key != DateKey
    requires Exact(v) || (Sound(num) && NoNaN(v))
    ensures ParseRow(EncodeEntry(key, v, now, num), num) == Some(v)
  {
    match v
    case BoolValue(b) => BoolRowRoundTrip(key, b, num);
    case IntValue(i) => IntRowRoundTrip(key, i, num);
    case FloatValue(f) => FloatRowRoundTrip(key, f, num);
    case StringValue(_) =>
    case Vector2Value(x, y) => Vector2RowRoundTrip(key, x, y, num);
    case Vector3Value(x, y, z) => Vector3RowRoundTrip(key, x, y, z, num);
  }

  /** The date row decodes to whatever the float parser makes of the
      timestamp text. */
  lemma DateRowDecodes(f: Float, now: int, num: FloatText)
    ensures ParseRow(EncodeEntry(DateKey, FloatValue(f), now, num), num) ==
      (if num.parse(IntText(now)).Some? then Some(FloatValue(num.parse(IntText(now)).value)) else None)
  {
    assert EncodeEntry(DateKey, FloatValue(f), now, num) == Row("float", DateKey, IntText(now));
  }

  /** A saved table has exactly one row per entry and exactly one date row. */
  lemma SavedTableShape(rows: seq<Row>, m: map<string, Value>, now: int, num: FloatText)
    requires Tabulates(rows, m, now, num)
    requires DateKey in m
    ensures |rows| == |m|
    ensures exists i :: 0 <= i < |rows| && rows[i].key == DateKey
    ensures forall i, j :: 0 <= i < |rows| && 0 <= j < |rows| && rows[i].key == DateKey && rows[j].key == DateKey ==> i == j
  {
  }

  /** The load loop inverts the save loop key by key: in a table of `m`,
      whatever the row codec, each key's loaded value is what its own row
      decodes to, and a key whose row does not decode is absent. */
  lemma DecodedTable(rows: seq<Row>, m: map<string, Value>, encode: (string, Value) -> Row,
                     decode: Row -> Option<Value>, k: string)
    requires TableOf(rows, m, encode)
    requires k in m
    ensures var d := decode(encode(k, m[k]));
      && (d.Some? ==> k in Overlay(rows, decode) && Overlay(rows, decode)[k] == d.value)
      && (d.None? ==> k !in Overlay(rows, decode))
  {
    var i :| 0 <= i < |rows| && rows[i].key == k;
    OverlayOrigin(rows, decode);
    if decode(rows[i]).Some? {
      LastValidRowWins(rows, decode, k, i);
    }
  }

  /** Loading a written three-column table decodes its rows. */
  lemma LoadWritten(rows: seq<Row>, num: FloatText)
    requires |rows| < 0x8000_0000
    ensures Load(Some(Write2DArray(ToGrid(rows))), num) == LoadResult(Loaded(Overlay(rows, Decoder(num))), None)
  {
    ReadTableOfWritten(rows);
  }

  /** Decoding a table of `m`, whatever the row codec, adds no key that is
      not in `m`. */
  lemma TableKeys(rows: seq<Row>, m: map<string, Value>, encode: (string, Value) -> Row, decode: Row -> Option<Value>)
    requires TableOf(rows, m, encode)
    ensures Overlay(rows, decode).Keys <= m.Keys
  {
    var loaded := Overlay(rows, decode);
    OverlayOrigin(rows, decode);
    forall k | k in loaded ensures k in m {
      var i :| 0 <= i < |rows| && rows[i].key == k && decode(rows[i]) == Some(loaded[k]);
    }
  }

  /** Decoding a table of `m` gives back every entry that survives its own
      row, whatever the row codec. */
  lemma TableRoundTrip(rows: seq<Row>, m: map<string, Value>, encode: (string, Value) -> Row,
                       decode: Row -> Option<Value>, k: string)
    requires TableOf(rows, m, encode)
    requires k in m && decode(encode(k, m[k])) == Some(m[k])
    ensures k in Overlay(rows, decode) && Overlay(rows, decode)[k] == m[k]
  {
    DecodedTable(rows, m, encode, decode, k);
  }

  /** Loading the stream `Save` wrote gives back every entry but the date:
      bools, ints and strings unconditionally, floats and vectors without a
      NaN component too when the float numerics are sound. The date holds the parse of the
      timestamp text, and no key appears that was not saved. */
  lemma SaveLoadRoundTrip(s: Store, now: int, num: FloatText, rows: seq<Row>)
    requires s.Loaded?
    requires |rows| < 0x8000_0000
    requires Tabulates(rows, Stamp(s, now, num).entries, now, num)
    ensures Load(Some(Write2DArray(ToGrid(rows))), num).error.None?
    ensures var loaded := Load(Some(Write2DArray(ToGrid(rows))), num).store.entries;
      && loaded.Keys <= s.entries.Keys + {DateKey}
      && (forall k :: k in s.entries && k != DateKey && Exact(s.entries[k]) ==> k in loaded && loaded[k] == s.entries[k])
      && (Sound(num) ==> forall k :: k in s.entries && k != DateKey && NoNaN(s.entries[k]) ==> k in loaded && loaded[k] == s.entries[k])
      && (DateKey in loaded <==> num.parse(IntText(now)).Some?)
      && (DateKey in loaded ==> loaded[DateKey] == FloatValue(num.parse(IntText(now)).value))
  {
    var m := Stamp(s, now, num).entries;
    var encode, decode := Encoder(now, num), Decoder(num);
    var loaded := Overlay(rows, decode);
    LoadWritten(rows, num);
    TableKeys(rows, m, encode, decode);
    forall k | k in s.entries && k != DateKey && (Exact(s.entries[k]) || (Sound(num) && NoNaN(s.entries[k])))
      ensures k in loaded && loaded[k] == s.entries[k]
    {
      assert m[k] == s.entries[k];
      EntryRoundTrip(k, m[k], now, num);
      assert decode(encode(k, m[k])) == ParseRow(EncodeEntry(k, m[k], now, num), num);
      TableRoundTrip(rows, m, encode, decode, k);
    }
    DateRowDecodes(num.fromSeconds(now), now, num);
    assert decode(encode(DateKey, m[DateKey])) == ParseRow(EncodeEntry(DateKey, m[DateKey], now, num), num);
    DecodedTable(rows, m, encode, decode, DateKey);
  }

  /** The float a row gives `GetDate`: its parsed value when it is a float
      row for the date key, nothing otherwise. */
  function DateOf(row: Row, num: FloatText): (d: Option<Float>)
    ensures d.Some? ==> row.key == DateKey && row.tag == "float"
  {
    if row.key == DateKey && row.tag == "float" then num.parse(row.text) else None
  }

  /** The scan of `GetDate`: it stops at the first row that gives a date. */
  function FirstDate(rows: seq<Row>, num: FloatText): (r: Option<Float>)
    ensures r.None? <==> forall i :: 0 <= i < |rows| ==> DateOf(rows[i], num).None?
    ensures r.Some? ==> exists i :: (0 <= i < |rows| && DateOf(rows[i], num) == r
      && forall j :: 0 <= j < i ==> DateOf(rows[j], num).None?)
    decreases |rows|
  {
    if |rows| == 0 then None
    else if DateOf(rows[0], num).Some? then DateOf(rows[0], num)
    else
      assert forall i :: 0 <= i < |rows| - 1 ==> rows[1..][i] == rows[i + 1];
      FirstDate(rows[1..], num)
  }

  /** What `GetDate(path)` answers: the current time when there is no file,
      the raw float of the first decodable date row, or `DateTime.MinValue`
      when there is none. */
  datatype Date = Now | Seconds(value: Float) | MinValue

  function GetDate(file: Option<seq<Field>>, num: FloatText): (r: Result<Date, LoadError>)
    ensures file.None? ==> r == Success(Now)
    ensures file.Some? ==> (r.Failure? <==> ReadTable(file.value).Failure?)
    ensures file.Some? && r.Success? ==> !r.value.Now?
    ensures file.Some? && r.Success? ==>
      (r.value.MinValue? <==> forall i :: 0 <= i < |ReadTable(file.value).value| ==> DateOf(ReadTable(file.value).value[i], num).None?)
    ensures r.Success? && r.value.Seconds? ==> exists i :: (0 <= i < |ReadTable(file.value).value| &&
      DateOf(ReadTable(file.value).value[i], num) == Some(r.value.value) &&
      forall j :: 0 <= j < i ==> DateOf(ReadTable(file.value).value[j], num).None?)
  {
    match file
    case None => Success(Now)
    case Some(fs) =>
      var rows :- ReadTable(fs);
      var d := FirstDate(rows, num);
      if d.Some? then Success(Seconds(d.value)) else Success(MinValue)
  }

  /** In a table of a stamped store, the first date row is the only one,
      and its date is the parse of the timestamp text. */
  lemma TableFirstDate(rows: seq<Row>, m: map<string, Value>, now: int, num: FloatText)
    requires Tabulates(rows, m, now, num)
    requires DateKey in m && m[DateKey].FloatValue?
    ensures FirstDate(rows, num) == num.parse(IntText(now))
  {
    var i :| 0 <= i < |rows| && rows[i].key == DateKey;
    assert rows[i] == Row("float", DateKey, IntText(now));
    forall j | 0 <= j < |rows| && j != i ensures DateOf(rows[j], num).None? {
      assert rows[j].key != DateKey;
    }
    assert DateOf(rows[i], num) == num.parse(IntText(now));
  }

  /** In a table of a stamped store, the date scan and the load loop agree:
      the scan finds a date exactly when the loaded store holds one, and it
      is the same float. */
  lemma TableDateAgrees(rows: seq<Row>, m: map<string, Value>, now: int, num: FloatText)
    requires Tabulates(rows, m, now, num)
    requires DateKey in m && m[DateKey].FloatValue?
    ensures var d, loaded := FirstDate(rows, num), Overlay(rows, Decoder(num));
      && (d.Some? <==> DateKey in loaded)
      && (d.Some? ==> loaded[DateKey] == FloatValue(d.value))
  {
    TableFirstDate(rows, m, now, num);
    DateRowDecodes(m[DateKey].f, now, num);
    assert Decoder(num)(Encoder(now, num)(DateKey, m[DateKey])) == ParseRow(EncodeEntry(DateKey, m[DateKey], now, num), num);
    DecodedTable(rows, m, Encoder(now, num), Decoder(num), DateKey);
  }

  /** Looking up the date of a written three-column table scans its rows. */
  lemma GetDateWritten(rows: seq<Row>, num: FloatText)
    requires |rows| < 0x8000_0000
    ensures var d := FirstDate(rows, num);
      GetDate(Some(Write2DArray(ToGrid(rows))), num) == Success(if d.Some? then Seconds(d.value) else MinValue)
  {
    ReadTableOfWritten(rows);
  }

  /** `GetDate("current")`: the stored date of the loaded store, or the
      current time when there is none. The stored value goes through
      `GetFloat("date")`, so a date stored with another setter throws. */
  function CurrentDate(s: Store): (r: Result<Date, GetError>)
    ensures !HasKey(s, DateKey) ==> r == Success(Now)
    ensures HasKey(s, DateKey) ==>
      && (r.Success? <==> s.entries[DateKey].FloatValue?)
      && (r.Success? ==> r.value == Seconds(s.entries[DateKey].f))
  {
    if HasKey(s, DateKey) then
      var v :- GetRequired(s, DateKey, FloatValue(Zero));
      Success(Seconds(v.f))
    else
      Success(Now)
  }

  /** Right after a save, the date of the current store is the stamped
      time. */
  lemma SavedStoreDate(s: Store, now: int, num: FloatText)
    requires s.Loaded?
    ensures CurrentDate(Stamp(s, now, num)) == Success(Seconds(num.fromSeconds(now)))
  {
  }

  /** On a stream `Save` wrote, `GetDate` and `Load` agree on the date: it
      is the parse of the timestamp text, and `MinValue` when that text does
      not parse. */
  lemma SavedDateAgrees(s: Store, now: int, num: FloatText, rows: seq<Row>)
    requires s.Loaded?
    requires |rows| < 0x8000_0000
    requires Tabulates(rows, Stamp(s, now, num).entries, now, num)
    ensures var date := GetDate(Some(Write2DArray(ToGrid(rows))), num);
      var loaded := Load(Some(Write2DArray(ToGrid(rows))), num).store.entries;
      && date.Success?
      && (date.value.Seconds? <==> DateKey in loaded)
      && (date.value.Seconds? ==> loaded[DateKey] == FloatValue(date.value.value))
      && (date.value.MinValue? <==> num.parse(IntText(now)).None?)
  {
    var m := Stamp(s, now, num).entries;
    LoadWritten(rows, num);
    GetDateWritten(rows, num);
    TableFirstDate(rows, m, now, num);
    TableDateAgrees(rows, m, now, num);
  }
}
