# BetterPrefs in Dafny

BetterPrefs is a replacement for Unity's `PlayerPrefs`. It keeps one
process-wide dictionary from string keys to values of six kinds: `bool`,
`int`, `float`, `string`, `Vector2` and `Vector3`. It saves that dictionary
to a binary file as a table of `[type tag, key, formatted value]` rows and
loads it back.

This project models the core of `BetterPrefs.cs`:

- **`BinaryTable`** (`table.dfy`): the `Write2DArray`/`Read2DArray` framing.
  A table is stored as its row count, its column count, then every cell in
  row-major order. Reading stops with an error when the stream ends early
  or a dimension is negative.
- **`TypedStore`** (`store.dfy`): the dictionary and its operations.
  - The store is either unloaded (`data == null`) or a map.
  - The six setters; only `SetFloat` refuses the reserved key `"date"`.
  - The twelve getters, with and without a fallback. An unloaded store
    answers a per-kind default. A value of another kind makes the getter's
    cast throw.
  - `HasKey`, `DeleteKey`, `DeleteAll` and `GetCount`.
- **`PrefsCodec`** (`codec.dfy`):
  - `Save`: it stamps the date, then builds one row per entry, and the
    model proves it fills every row of the table.
  - `Load`: it replaces the dictionary before reading. It decodes each row
    by its tag, skips rows it cannot parse, and lets the last valid row for
    a key win.
  - `GetDate`: it scans the rows of a save for the first float row for
    `"date"` that parses. `GetDate("current")` reads the loaded store.
- **`Text`** (`text.dfy`): the runtime text primitives the codec relies on,
  as .NET defines them.
  - `String.Trim`, `String.Split(',')` and the comma join.
  - `int.ToString` and `int.TryParse`, with the 32-bit range check and the
    trailing NULs it allows.
  - `bool.ToString().ToLower()` and `bool.TryParse`, which ignores ASCII
    case and strips white space and NUL.
- **`PrefValues`** (`values.dfy`): the value kinds. Floats are IEEE
  single-precision bit patterns.
- **`Ints`** (`ints.dfy`): the C# `int`.
- **`LoadScenarios`** (`scenarios.dfy`): concrete load behaviours.

The main results:
- Reading back a written table gives the same table. Every truncation of it
  is an error.
- Loading what `Save` wrote gives back every entry other than the date.
  - Bools, ints and strings come back always. A string here is a non-null
    sequence of Unicode scalar values (see "Left out").
  - Floats and vectors with no NaN component come back when the float text
    functions are `Sound`: every float but a NaN is parsed back from its own
    text, and no float's text has a comma or surrounding white space. This
    needs a float format that round-trips, such as that of .NET Core 3.0
    and later in a culture whose decimal separator is `.`. No runtime brings
    back every NaN: all of them print as `NaN`, which parses to the single
    pattern of `float.NaN`.
- The loaded date is the parse of the save time's text. `GetDate` on the
  same file agrees with `Load` about it.

File access, the clock and the float numerics are parameters:
- a save returns the field stream to write;
- a load or date lookup receives `Some(stream)`, or `None` when the file
  does not exist;
- the save time is an integer `now` of seconds;
- `FloatText` supplies `float.ToString()`, `float.TryParse` and the
  `(float)` conversion of the seconds.

Behaviours of `BetterPrefs.cs` a reader might not expect:
- A `bool` row is read with `bool.TryParse`, which accepts any ASCII letter
  case and surrounding white space, so `" TRUE "` loads as `true`
  (`Text.ParseBoolLenient`). An `int` row may end in NULs
  (`LoadScenarios.IntRowTrailingNuls`).
- Only `SetFloat` refuses `"date"`. `SetInt("date", …)` and the other
  setters store it, and it is then overwritten by the next save. If the
  stored value is not a float, `GetDate("current")` throws
  (`PrefsCodec.CurrentDate`).
- Refusing the reserved key is only a log message; no error value is
  returned.
- `Save`'s branch that deletes the file when the store is empty cannot be
  taken, because the date is stamped before the entries are counted
  (`PrefsCodec.StampedNeverEmpty`). An empty store saves a one-row table.

## Model

| member | source | states |
|---|---|---|
| `BinaryTable.Write2DArray` | BetterPrefs.cs:28-42 | the stream is the row count, the column count, then exactly rows × columns cells |
| `BinaryTable.WrittenRowMajor` | BetterPrefs.cs:32-38 | cell (i, j) is written at position 2 + i·columns + j, row by row |
| `BinaryTable.Read2DArray` | BetterPrefs.cs:44-59 | a successful read is a rectangular array within `int` bounds; a stream shorter than the two dimensions ends the stream; a negative dimension throws |
| `BinaryTable.WriteReadRoundTrip` | BetterPrefs.cs:28-59 | reading what was written gives back the same array, cell for cell, whatever follows it in the stream |
| `BinaryTable.TruncatedStreamFails` | BetterPrefs.cs:46-53 | every proper prefix of a written array is an end-of-stream error, never a smaller array |
| `TypedStore.Put` | BetterPrefs.cs:68 | an assignment sets the key to the value and changes no other key; an unloaded store stays unloaded |
| `TypedStore.Set` | BetterPrefs.cs:61-128 | every setter assigns its key, except `SetFloat` on `"date"`, which changes nothing |
| `TypedStore.UnloadedDefault` | BetterPrefs.cs:130-236 | the value a getter answers without a store has the kind the getter returns |
| `TypedStore.Get` | BetterPrefs.cs:130-236 | with a fallback: unloaded gives the kind's default, absent gives the fallback, present gives the stored value exactly when its kind matches and throws otherwise |
| `TypedStore.GetRequired` | BetterPrefs.cs:238-352 | without a fallback: absent or unloaded gives the kind's default, present gives the stored value exactly when its kind matches |
| `TypedStore.RequiredIsDefaultFallback` | BetterPrefs.cs:240-257 | a getter without a fallback behaves as the getter whose fallback is the unloaded default |
| `TypedStore.HasKey` | BetterPrefs.cs:823-834 | true exactly when a store is loaded and holds the key |
| `TypedStore.DeleteKey` | BetterPrefs.cs:810-821 | the key is gone, nothing else changes, and deleting an absent key or from an unloaded store is a no-op |
| `TypedStore.GetCount` | BetterPrefs.cs:909-918 | -1 exactly when no store is loaded, otherwise the number of keys |
| `TypedStore.DeleteAll` | BetterPrefs.cs:796-808 | afterwards a store exists, is empty and holds no key |
| `TypedStore.SetThenGet` | BetterPrefs.cs:61-146 | a getter of the setter's kind finds what the setter stored, whatever its fallback |
| `TypedStore.SetLeavesOtherKeys` | BetterPrefs.cs:110-118 | a setter is invisible to the getters of every other key |
| `TypedStore.FallbackUsedIffAbsent` | BetterPrefs.cs:138-145 | in a loaded store, a getter's answer depends on the fallback exactly when the key is absent |
| `TypedStore.DeleteThenGet` | BetterPrefs.cs:820 | after a delete, the getters of that key answer their fallback |
| `TypedStore.CountAfterChange` | BetterPrefs.cs:917 | the count grows by one exactly when a setter adds a new key and shrinks by one exactly when a delete removes one |
| `Text.TrimSpec` | BetterPrefs.cs:658 | `Trim` removes a blank prefix and a blank suffix and nothing else; the result starts and ends with a non-blank; unpadded text is unchanged |
| `Text.TrimStartSpec` | BetterPrefs.cs:658 | the leading part removed is all blank and what is left starts with a non-blank |
| `Text.TrimEndSpec` | BetterPrefs.cs:658 | the trailing part removed is all blank and what is left ends with a non-blank |
| `Text.TrimPadding` | BetterPrefs.cs:658 | blanks added on either side of a text make no difference once it is trimmed |
| `Text.Split` | BetterPrefs.cs:646 | there is one piece more than there are commas and no piece contains a comma |
| `Text.SplitJoin` | BetterPrefs.cs:447 | splitting comma-joined comma-free pieces gives back the pieces |
| `Text.JoinSplit` | BetterPrefs.cs:646 | joining the pieces of a split gives back the text |
| `Text.NatText` | BetterPrefs.cs:421 | the rendering of a number is a non-empty string of digits without a leading zero |
| `Text.NatTextRoundTrip` | BetterPrefs.cs:421 | the digits denote the number rendered |
| `Text.IntText` | BetterPrefs.cs:421 | an integer renders as a minus sign exactly when it is negative, followed by one or more digits |
| `Text.ParseIntPadded` | BetterPrefs.cs:579 | `int.TryParse` ignores number white space on both sides and a run of NULs at the end |
| `Text.IntTextRoundTrip` | BetterPrefs.cs:579 | `int.TryParse` reads every 32-bit integer back from its `ToString` |
| `Text.OutOfRangeRejected` | BetterPrefs.cs:579 | a decimal just outside the 32-bit range, above or below, is rejected rather than wrapped |
| `Text.BoolTextRoundTrip` | BetterPrefs.cs:530 | `bool.TryParse` reads every boolean back from its lower-case rendering |
| `Text.ParseBoolLenient` | BetterPrefs.cs:530 | `bool.TryParse` yields a boolean exactly for its rendering in any ASCII letter case with any white space and NULs around it |
| `Text.ParseBoolRejects` | BetterPrefs.cs:530-540 | `bool.TryParse` fails exactly for the texts that are not such a padded case variant of "true" or "false" |
| `PrefsCodec.FormatValue` | BetterPrefs.cs:410-456 | a bool's cell is its lower-case name, which `bool.TryParse` reads back; an int's cell is read back by `int.TryParse`; a string's cell is the string; a float's cell is its formatted text, except the date's, which is the save time's text |
| `PrefsCodec.VectorCellParts` | BetterPrefs.cs:441-456 | a vector's cell splits at its commas into its formatted components, when those contain no comma |
| `PrefsCodec.EncodeEntry` | BetterPrefs.cs:406-467 | the save loop's row for an entry carries the entry's kind as its tag and the entry's key |
| `PrefsCodec.ComponentPadding` | BetterPrefs.cs:658 | white space around a vector component does not change how it parses |
| `PrefsCodec.ParseBoolRow` | BetterPrefs.cs:524-541 | a `bool` row decodes to a bool, is skipped exactly when `bool.TryParse` fails, and holds its result |
| `PrefsCodec.ParseIntRow` | BetterPrefs.cs:577-590 | an `int` row decodes to an int, is skipped exactly when `int.TryParse` fails, and holds its result |
| `PrefsCodec.ParseFloatRow` | BetterPrefs.cs:608-621 | a `float` row decodes to a float, is skipped exactly when `float.TryParse` fails, and holds its result |
| `PrefsCodec.ParseVector2Row` | BetterPrefs.cs:635-697 | a `vector2` row decodes to a Vector2; without exactly one comma it is skipped; with two parts it is skipped exactly when a trimmed part fails to parse; the components are the parsed parts |
| `PrefsCodec.ParseVector3Row` | BetterPrefs.cs:699-780 | a `vector3` row decodes to a Vector3; without exactly two commas it is skipped; with three parts it is skipped exactly when a trimmed part fails to parse; the components are the parsed parts |
| `PrefsCodec.ParseRow` | BetterPrefs.cs:518-788 | a row decodes only to a value of the kind its tag names; unknown tags are skipped; string rows are taken verbatim |
| `PrefsCodec.RowSkipped` | BetterPrefs.cs:524-788 | for each tag, the exact condition under which the load loop skips a row: its parser fails, a vector has the wrong number of parts or a part that fails, or the tag is unknown; string rows are never skipped |
| `PrefsCodec.Overlay` | BetterPrefs.cs:518-553 | the load loop stores at most one key per row |
| `PrefsCodec.OverlayOrigin` | BetterPrefs.cs:545-553 | every key the load loop stores comes from a row for that key that decodes to the stored value |
| `PrefsCodec.LastValidRowWins` | BetterPrefs.cs:549-553 | of several rows for one key, the last one that decodes is the value kept |
| `PrefsCodec.SkippedRowChangesNothing` | BetterPrefs.cs:534-540 | a row that does not decode is skipped, leaving the result as if it were absent |
| `PrefsCodec.ReadTable` | BetterPrefs.cs:512-522 | framing errors propagate; a table with rows but fewer than three columns throws; otherwise each row's first three cells are read |
| `PrefsCodec.ToGrid` | BetterPrefs.cs:383 | the save array has three columns, one row per entry, within `int` bounds |
| `PrefsCodec.ReadTableOfWritten` | BetterPrefs.cs:463-465 | reading a written three-column table gives back its rows |
| `PrefsCodec.Load` | BetterPrefs.cs:495-794 | afterwards a store always exists; no file gives an empty store; a file that fails to read throws and leaves an empty store; otherwise the store is the decoded rows |
| `PrefsCodec.Stamp` | BetterPrefs.cs:379-381 | stamping sets the date key to the `(float)` of the save time and changes no other key; an unloaded store stays unloaded |
| `PrefsCodec.StampedNeverEmpty` | BetterPrefs.cs:381-402 | the stamped store is never empty, so the delete-on-empty branch is dead |
| `PrefsCodec.Enumerate` | BetterPrefs.cs:406 | the enumeration visits every key exactly once |
| `PrefsCodec.RowsInOrder` | BetterPrefs.cs:463-465 | row i is keyed by the i-th enumerated key |
| `PrefsCodec.RowsInOrderTabulate` | BetterPrefs.cs:404-468 | rows built in an enumeration order form a table of the store: one row per entry, no key twice |
| `PrefsCodec.Save` | BetterPrefs.cs:354-493 | without a store nothing happens; otherwise the date is stamped, the rows tabulate the stamped store, and the stream is their framing |
| `PrefsCodec.BoolRowRoundTrip` | BetterPrefs.cs:413-417 | a saved bool row loads back as the same bool |
| `PrefsCodec.IntRowRoundTrip` | BetterPrefs.cs:418-422 | a saved int row loads back as the same int |
| `PrefsCodec.FloatRowRoundTrip` | BetterPrefs.cs:423-429 | with sound numerics a saved float row that is not a NaN loads back as the same float |
| `PrefsCodec.ComponentRoundTrip` | BetterPrefs.cs:658 | with sound numerics a vector component that is not a NaN is parsed back after trimming |
| `PrefsCodec.Vector2RowRoundTrip` | BetterPrefs.cs:441-448 | with sound numerics a saved Vector2 row without a NaN component loads back as the same vector |
| `PrefsCodec.Vector3RowRoundTrip` | BetterPrefs.cs:449-456 | with sound numerics a saved Vector3 row without a NaN component loads back as the same vector |
| `PrefsCodec.EntryRoundTrip` | BetterPrefs.cs:406-468 | every entry other than the date decodes back from its own row: bools, ints and strings always, floats and vectors without a NaN component with sound numerics |
| `PrefsCodec.DateRowDecodes` | BetterPrefs.cs:425-434 | the date row carries the save time's text, whatever float the store held |
| `PrefsCodec.SavedTableShape` | BetterPrefs.cs:381-383 | a saved table has one row per entry and exactly one date row |
| `PrefsCodec.DecodedTable` | BetterPrefs.cs:518-553 | for any row encoder and decoder, in a table with one row per entry each key loads as what its own row decodes to, and is absent when that row does not decode |
| `PrefsCodec.LoadWritten` | BetterPrefs.cs:502-514 | loading a written table succeeds with the decoded rows |
| `PrefsCodec.TableKeys` | BetterPrefs.cs:518-790 | for any row codec, loading a table of a store adds no key that was not in the store |
| `PrefsCodec.TableRoundTrip` | BetterPrefs.cs:404-790 | for any row codec, an entry whose own row decodes back to it is restored by the load loop |
| `PrefsCodec.SaveLoadRoundTrip` | BetterPrefs.cs:354-794 | loading what `Save` wrote restores the entries other than the date, bools, ints and strings always and floats and vectors without a NaN component when the float numerics are `Sound`; it adds no key, and holds the parse of the save time as the date |
| `PrefsCodec.DateOf` | BetterPrefs.cs:875-883 | only a float row for the key `"date"` yields a date |
| `PrefsCodec.FirstDate` | BetterPrefs.cs:869-901 | the scan answers nothing exactly when no row yields a date, and otherwise the date of the first row that does |
| `PrefsCodec.GetDate` | BetterPrefs.cs:851-906 | no file gives the current time; a file that fails to read throws; otherwise `MinValue` exactly when no row yields a date, else the date of the first row that yields one |
| `PrefsCodec.TableFirstDate` | BetterPrefs.cs:869-898 | in a saved table the first date found is the parse of the save time's text |
| `PrefsCodec.TableDateAgrees` | BetterPrefs.cs:869-898 | in a saved table the date scan finds a date exactly when the load loop stores one, and it is the same float |
| `PrefsCodec.GetDateWritten` | BetterPrefs.cs:861-905 | the date of a written table comes from scanning its rows |
| `PrefsCodec.SavedDateAgrees` | BetterPrefs.cs:836-907 | on a saved file `GetDate` and `Load` agree on the date, and `MinValue` means the save time's text did not parse |
| `PrefsCodec.CurrentDate` | BetterPrefs.cs:838-849 | without a stored date the answer is the current time; a stored float is the date; a stored value of another kind throws |
| `PrefsCodec.SavedStoreDate` | BetterPrefs.cs:379-381 | right after a save, the current store's date is the stamped time |
| `LoadScenarios.VectorArityChecked` | BetterPrefs.cs:646-655 | a vector row without exactly one comma (Vector2) or two commas (Vector3) is skipped |
| `LoadScenarios.IntRowOutOfRange` | BetterPrefs.cs:579-590 | an int row whose decimal is at or above 2^31 or at or below -2^31 - 1 is skipped |
| `LoadScenarios.IntRowTrailingNuls` | BetterPrefs.cs:579 | an int row whose digits are followed by NULs loads as that int |
| `LoadScenarios.DuplicateKeyLastWins` | BetterPrefs.cs:545-553 | after any rows, of two valid rows for one key the later one is kept and the earlier one leaves no trace |
| `LoadScenarios.InvalidLaterRowIgnored` | BetterPrefs.cs:524-621 | a bool, int or float row that its parser rejects, or a row with an unknown tag, changes nothing wherever it stands, so a later invalid row leaves the earlier value |
| `LoadScenarios.EmptyFileLoad` | BetterPrefs.cs:46 | an empty file throws at the row count and leaves an empty store |
| `LoadScenarios.NegativeCountLoad` | BetterPrefs.cs:46-48 | every stream that starts with a negative row or column count throws and leaves an empty store |
| `LoadScenarios.NarrowTableLoad` | BetterPrefs.cs:518-522 | every written table with a row but fewer than three columns throws and leaves an empty store |
| `LoadScenarios.NoRowsLoad` | BetterPrefs.cs:518 | a table with no rows loads as an empty store, whatever its non-negative column count |

## Left out

- File access is not modelled. Paths, `saveLocation`, `saveExtension`, `defaultSaveName`, `currentSave` and `File`/`Directory` calls are outside the model. A load or date lookup receives the stream or `None`, and a save returns the stream and not the path.
- `Debug.Log`, `LogWarning` and `LogError` messages are left out; they have no effect on the data.
- The byte encoding of `BinaryWriter` is left out. Its length-prefixed UTF-8 strings and little-endian ints are replaced by a sequence of typed fields. `WrongFieldKind` stands for the reader misinterpreting bytes, which the source cannot report.
- The float numerics are not interpreted. `float.ToString()`, `float.TryParse` and the `(float)` conversion of the seconds are the fields of `FloatText`; they are culture-dependent in the source.
- `PrefsCodec.EntryRoundTrip`: the float and vector halves need `Sound`. Formats that do not round-trip fail it. On .NET Framework-compatible runtimes such as Mono, `float.ToString()` prints at most 7 significant digits, so many floats come back changed, and `-0f` prints as `"0"`. A culture whose decimal separator is a comma breaks vector rows. `Sound` holds for a round-tripping format such as that of .NET Core 3.0 and later in a culture whose decimal separator is `.`.
- `PrefsCodec.EntryRoundTrip`, `PrefsCodec.SaveLoadRoundTrip`, `PrefsCodec.FloatRowRoundTrip`, `PrefsCodec.ComponentRoundTrip`, `PrefsCodec.Vector2RowRoundTrip`, `PrefsCodec.Vector3RowRoundTrip`: promise nothing for a float or vector with a NaN component. Every NaN prints as `NaN` and parses to the one pattern of `float.NaN`, so any other NaN pattern comes back changed, on every runtime.
- `PrefsCodec.GetDate`: answers the raw float of the date row rather than a `DateTime`. `DateTimeOffset.FromUnixTimeSeconds((int)value).LocalDateTime` and its `(int)` cast are not modelled. The same holds for `PrefsCodec.CurrentDate`.
- `PrefsCodec.FormatValue`: the date text is the decimal digits of the seconds, as `double.ToString()` prints integers below 10^15. The exponent form it uses beyond that is not modelled.
- `Text.ParseBool`: does not model non-ASCII letters whose invariant upper case is an ASCII letter (such as U+017F), which .NET's case-insensitive comparison also folds.
- `Text.ParseInt` and `Text.IntText`: assume the invariant culture's `+` and `-` signs, for `int.TryParse`, `int.ToString()` and the date's `double.ToString()`; a culture with another negative sign is not modelled.
- Strings and keys are non-null sequences of Unicode scalar values. In the source, `SetString(key, null)` stores null. `Save` then fails every `is` test, reaches its unsupported-type branch after stamping the date, and throws a `NullReferenceException` at `pair.Value.GetType()`. A null key makes a setter throw `ArgumentNullException`. A string with an unpaired surrogate cannot be encoded faithfully by `BinaryWriter`, which writes U+FFFD or throws, so such a string would not come back.
- `GetData` is left out. It returns the dictionary itself, and the model has no aliasing.
- `Save`'s unsupported-type branch (BetterPrefs.cs:457-461) is left out. The typed setters store only the six kinds. A null string, or any other object put into the dictionary `GetData` returns (a `double`, a `long`, a `Color`), reaches it. A null string throws there at `pair.Value.GetType()` (see above). For any other object the source logs, skips the entry without advancing the row index, and so leaves the last row of the array null. `File.Create` (BetterPrefs.cs:478) then truncates the file, and writing the null cell throws `ArgumentNullException`. The file is left with a header that promises more cells than it holds. The next `Load` empties the store first and then throws at the end of the stream, leaving an empty store. The model stores only the six kinds, so this path does not arise in it.
- `Save`'s delete-on-empty branch is unreachable (see `PrefsCodec.StampedNeverEmpty`) and is not part of `PrefsCodec.Save`.
- The dictionary's enumeration order is left open. `PrefsCodec.Enumerate` may visit keys in any order, and every property holds for all of them.
- The clock is a parameter: `now` stands for `DateTimeOffset.UtcNow.ToUnixTimeSeconds()`, and "the current time" is the constructor `Now`.
