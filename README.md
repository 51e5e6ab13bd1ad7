# PyDB command-line front end: a Dafny model

PyDB is a small embedded database. It stores every table of a database in
one encrypted `.pydb` file. Its command-line front end, `cli.py`, turns
command-line text into calls on the storage engine, and turns query results
back into text. This project models the string processing of that front end
and proves properties of it:

- **`--where` clauses** (module `Where`). A `column=value` clause is split at
  its first `=` and both sides are stripped. The value is classified as a
  literal:
  - `true` or `false` in any case becomes a boolean;
  - all digits becomes an int;
  - digits and dots becomes a float, or an error when Python's `float()`
    rejects it;
  - `null` in any case becomes None;
  - anything else stays text.

  The resulting row predicate compares the row's value for the column with
  that literal. A missing column reads as None. A clause without `=` matches
  every row.
- **Result layout** (module `Layout`). For the table format, each column is
  as wide as its widest cell or its header, whichever is wider. The output is
  a header joined by ` | `, a dash separator joined by `-+-`, and one padded
  line per row; or a single message when there are no rows. For the `csv`
  format, the output is the column names and each row's cells, joined by
  commas without quoting. Both are methods with loops, proved against a
  specification function of their output lines.
- **Column definitions** (module `ColumnSpec`). This is the decoded
  `--columns` JSON of `create table`. A member whose value is a type name
  gives a basic column. A member whose value is an object gives an advanced
  column with the documented defaults. Any other member is dropped. A
  non-text `type` aborts the whole definition. This too is a method with a
  loop, proved against a specification function.
- **Commands** (module `Commands`):
  - the file path and database name `create database` derives with
    `os.path.join`, `basename` and `splitext`;
  - the dispatch table of `run`;
  - the backup-password fallback;
  - how `select` reads its `--columns` and `--where` arguments.
- **Python string operations** (module `Text`), shared by the modules above:
  - `strip`, `lower`, `isdigit`, `replace(c, '')`, `count`, `split`,
    `join`, left-aligned padding and `int()` of a digit string;
  - each with the lemmas the other modules need: split and join are
    inverse, strip is the unique trimmed core, and similar.

Printing is replaced by returning the printed lines or values. Python's
`sys.exit` after an error is modelled as an `Err` result.

## Model

| member | source | states |
|---|---|---|
| `Text.Strip` | cli.py:173-174 | The result sits at some index of the input with only whitespace before and after it, has no whitespace at either end, and is empty exactly when the input is all whitespace |
| `Text.StripUnique` | cli.py:173-174 | Surrounding a text that has non-space ends with whitespace on both sides and stripping gives that text back |
| `Text.StripIdempotent` | cli.py:173-174 | Stripping an already stripped text changes nothing |
| `Text.RemoveAll` | cli.py:183 | `replace('.', '')` leaves no dot, and the length drops by the number of dots |
| `Text.RemoveAllAppend` | cli.py:183 | Removing from a concatenation gives the concatenation of the two removals |
| `Text.RemoveAllChar` | cli.py:183 | A single character disappears if it is the removed one and stays otherwise, so with `Text.RemoveAllAppend` every other character survives in its order |
| `Text.DecimalValueOfShowNat` | cli.py:181-182 | `int()` of the decimal text of a natural number is that number |
| `Text.SplitFirst` | cli.py:172 | `split('=', 1)`: the two parts rejoined with the separator are the input, and the first part holds no separator |
| `Text.SplitLength` | cli.py:285 | `split(',')` gives one more piece than there are commas |
| `Text.JoinSplit` | cli.py:285 | Joining the pieces of a split with the separator gives back the text |
| `Text.SplitJoin` | cli.py:301-303 | Pieces free of the separator, once joined with it, split back into the same pieces |
| `Text.SplitJoinExactly` | cli.py:301-303 | Splitting a joined list gives back the list exactly when no element contains the separator |
| `Text.PadRight` | cli.py:215 | `f"{s:<w}"`: the text followed by spaces up to width `w`, never shorter than the text |
| `Where.ParseLiteral` | cli.py:177-186 | Each literal kind holds exactly when its test holds in the order `cli.py` tests them: booleans by lower-cased text, int iff all digits (with the decimal value), float iff digits and dots with one dot (kept as text), an error iff two or more dots, None by lower-cased text, and otherwise the text itself |
| `Where.LiteralTestsDisjoint` | cli.py:177-185 | The word tests exclude the numeric tests, and all-digits is the digits-and-dots case with no dot |
| `Where.CreateCondition` | cli.py:167-192 | Without `=` the condition matches everything; a compared column never contains `=` |
| `Where.SplitsAtFirstEquals` | cli.py:171-174 | A clause splits at its first `=`: the column is the stripped text before it, and the literal comes from the stripped remainder, later `=` included; a rejected literal rejects the clause |
| `Where.ClauseWithLiteral` | cli.py:171-188 | A clause whose value classifies as a literal compares the stripped column with it |
| `Where.NoEqualsMatchesEveryRow` | cli.py:190-192 | A clause without `=` yields a predicate true of every row |
| `Where.MatchesEquals` | cli.py:188 | `row.get(col) == value`: true iff the column holds the value, or the column is missing and the value is None |
| `Where.NullMatchesMissing` | cli.py:185-188 | `col=null` compares with None, so it matches every row lacking the column |
| `Where.IntLiteralRoundTrip` | cli.py:181-182 | `col=<decimal of n>` compares the column with the int `n` |
| `Where.NegativeNumberStaysText` | cli.py:181-186 | `-5` is not all digits and stays the text `-5` |
| `Where.WordStaysText` | cli.py:177-186 | A plain word stays text |
| `Where.TwoDotsRejected` | cli.py:183-184 | `1.2.3` passes the digits-and-dots test but `float()` rejects it, so the clause fails |
| `Layout.TableLines` | cli.py:198-224 | No rows give exactly the no-data message; otherwise the header line and the dash separator for the shown columns and their widths, followed by one line per row |
| `Layout.DisplayTable` | cli.py:198-224 | The loop that computes the width dict and the row lines produces exactly the specified table |
| `Layout.ColumnWidths` | cli.py:209-212 | The `col_widths` loop gives every shown column an entry, and each entry is that column's width |
| `Layout.WidestCell` | cli.py:211-212 | The inner `max` over the rows computes the widest cell of the column, zero for no rows |
| `Layout.ColumnWidthBounds` | cli.py:209-212 | A column's width is at least its header's length and every cell's length, and equals the header's length or some cell's length |
| `Layout.MaxCellBounds` | cli.py:211-212 | The inner `max` is at least every cell's length and is attained by some row |
| `Layout.TableLinesEqualLength` | cli.py:214-224 | Header, separator and every row line have the same length: the widths' sum plus three per column gap |
| `Layout.TableColumnsAligned` | cli.py:214-224 | Column `j` occupies the same character range in the header, the separator and every row line, holding the padded header, dashes, and the padded cell |
| `Layout.HeaderAligned` | cli.py:215-216 | The header and separator hold column `j`'s padded name and dashes at its offset |
| `Layout.RowAligned` | cli.py:222-223 | Each row line holds column `j`'s padded cell at its offset, a missing cell reading as empty |
| `Layout.CsvSpec` | cli.py:299-303 | No lines without rows, otherwise the header line plus one line per row |
| `Layout.CsvLines` | cli.py:299-303 | The printing loop produces exactly the specified CSV lines |
| `Layout.CsvRowRecoverable` | cli.py:302-303 | Splitting a CSV row line at commas gives back its cells iff no cell contains a comma |
| `Layout.CsvHeaderRecoverable` | cli.py:300-301 | Splitting the CSV header at commas gives back the column names iff no name contains a comma |
| `ColumnSpec.Get` | cli.py:151-158 | `dict.get` finds a value exactly when the key is present, and the value found belongs to the first member with that key |
| `ColumnSpec.TypeFor` | cli.py:134-147 | Each type name, in any case, maps to its type, and every other name maps to the string type |
| `ColumnSpec.DecodeSpec` | cli.py:145-159 | A member fails iff its spec is an object whose `type` is not text; text gives a basic column of that type; an object gives an advanced column with defaults `string`, 0, 0, true, None for absent keys; anything else is skipped |
| `ColumnSpec.ErrorPersists` | cli.py:131-165 | An error on a prefix of the members is the result for the whole definition |
| `ColumnSpec.ParseColumnsDefinition` | cli.py:129-165 | The loop over the members produces exactly the specified decoding |
| `ColumnSpec.DecodeMembersFails` | cli.py:145-151 | Decoding the members fails iff some member's spec has a non-text `type` |
| `ColumnSpec.DecodeColumnsFails` | cli.py:131-165 | A definition fails iff it is not an object or some member has a non-text `type` |
| `ColumnSpec.DecodedKeys` | cli.py:145-161 | The columns are the members whose spec is text or an object, in input order, each named by its key |
| `ColumnSpec.DecodedEntry` | cli.py:145-161 | Each member's column in the result is what its own spec decodes to, and a skipped member has none |
| `Commands.JoinPath` | cli.py:229 | `os.path.join` always ends with its second part. An absolute second part is the whole result. Otherwise the result starts with the first part, followed by one `/` unless the first part is empty or already ends in `/`, and then the second part |
| `Commands.BaseName` | cli.py:233 | The base name holds no `/`, ends the path, and follows a `/` when shorter than the path |
| `Commands.SplitExtRoot` | cli.py:233 | `splitext(...)[0]` is a prefix of the name |
| `Commands.PlanCreateDatabase` | cli.py:229-234 | The file path always ends with `.pydb` and gets that suffix only when the file name lacks it; the storage path is the given directory |
| `Commands.DatabaseName` | cli.py:229-234 | The database name is the file's base name without `.pydb`, except that when only dots precede the extension the whole base name is the name |
| `Commands.DatabaseNameHasNoSlash` | cli.py:233 | The database name never contains `/` |
| `Commands.EmptyFileName` | cli.py:229-234 | An empty file name in `.` gives the file `./.pydb` and the database name `.pydb` |
| `Commands.RouteCommand` | cli.py:408-437 | No command shows the help, and only then; an unknown command or `create` subcommand is reported naming the main command |
| `Commands.EveryHandlerReachable` | cli.py:413-431 | Every handler is reached by its own command and, for `create`, subcommand |
| `Commands.RouteDeterminesCommand` | cli.py:413-431 | A dispatched handler's command line is that handler's own, so no two command lines share a handler |
| `Commands.BackupPassword` | cli.py:395 | `backup_password or password`: a non-empty backup password is used, otherwise the database password; the result is empty only when both are |
| `Commands.SelectColumns` | cli.py:283-285 | An absent or empty `--columns` gives no list; otherwise one stripped name per comma-separated piece |
| `Commands.SelectColumnsCount` | cli.py:284-285 | `n` commas give `n + 1` names, none with surrounding whitespace |
| `Commands.SelectCondition` | cli.py:288-290 | An absent or empty `--where` gives no condition; otherwise the parsed clause |

## Left out

- The storage engine: databases, tables, columns, validation, encryption and the file format. It is not part of this model. `_load_database`, `_parse_json_data` and the bodies of the handlers that call the engine are left out for the same reason.
- Argument parsing by `argparse`: the model starts from the parsed argument values, with absent options as `None`.
- Printing, the warning for a clause without `=`, and `sys.exit`: lines and results are returned instead, and an exit after an error is an `Err` result.
- `json.loads` and `json.dumps`: the column definition is taken already decoded as a `Json` value, and the `json` output format is not modelled.
- `Where.ParseLiteral`: a float literal is kept as its text rather than as a floating-point number. So `1.5` and `1.50` count as different literals, and comparison with stored floats is not modelled.
- `Where.Matches`: the comparison is equality of the tagged values. Python's cross-type equality (for example `1 == 1.0 == True`) is not modelled.
- `Text.IsSpace`, `Text.Lower` and `Text.IsDigit` cover ASCII only. Python's `isspace`, `lower` and `isdigit` also accept non-ASCII characters such as other Unicode digits.
- `Text.DecimalValue`: Python's limit of 4300 digits on `int()` of a string is not modelled.
- `Commands.JoinPath` and `Commands.BaseName` follow POSIX paths only; Windows path rules are not modelled.
- `Commands.RouteCommand`: a `KeyError` raised inside a handler is also reported as an invalid command by `cli.py`. The model routes only and does not run handlers.
- Every other error raised and caught by a handler (the generic `except Exception` branches) belongs to the engine calls, which are outside the model.
- `Layout.Cell` takes the `str()` text of each cell as given; Python's `str()` of the stored values is not modelled.
