/** How the select command lays out its result rows: the padded table of
    `_display_table_data` and the comma-separated lines of the `csv` format.
    Lines are returned instead of printed. */
module Layout {
  import opened Text

  /** One result row as an insertion-ordered dict of cells already turned
      into text by Python's `str()`. Keys are distinct in every row the front
      end sees; nothing below depends on that. */
  type Record = seq<(string, string)>

  /** `str(row.get(col, ''))`: the cell text, or the empty text when the
      row lacks the column. */
  function Cell(row: Record, column: string): string {
    if row == [] then ""
    else if row[0].0 == column then row[0].1
    else Cell(row[1..], column)
  }

  /** The message printed instead of a table when there are no rows. */
  const NoDataMessage: string := "\U{1F4ED} Tidak ada data"

  /** The columns shown: the requested ones, or the first row's keys when none
      (or an empty list) were requested. */
  function DisplayColumns(data: seq<Record>, columns: seq<string>): seq<string>
    requires data != []
  {
    if columns == [] then Keys(data[0]) else columns
  }

  function Max(a: nat, b: nat): nat {
    if a < b then b else a
  }

  /** The widest cell of a column over the rows. */
  function MaxCell(data: seq<Record>, column: string): nat {
    if data == [] then 0 else Max(MaxCell(data[..|data| - 1], column), |Cell(data[|data| - 1], column)|)
  }

  /** `max(len(col), max(len(cell) for row in data))` */
  function ColumnWidth(data: seq<Record>, column: string): nat {
    Max(|column|, MaxCell(data, column))
  }

  function Widths(data: seq<Record>, cols: seq<string>): (ws: seq<nat>)
    ensures |ws| == |cols|
  {
    seq(|cols|, i requires 0 <= i < |cols| => ColumnWidth(data, cols[i]))
  }

  function RowCells(row: Record, cols: seq<string>): (cells: seq<string>)
    ensures |cells| == |cols|
  {
    seq(|cols|, i requires 0 <= i < |cols| => Cell(row, cols[i]))
  }

  function Padded(texts: seq<string>, ws: seq<nat>): (r: seq<string>)
    requires |texts| == |ws|
    ensures |r| == |ws|
  {
    seq(|texts|, i requires 0 <= i < |texts| => PadRight(texts[i], ws[i]))
  }

  function Dashes(ws: seq<nat>): (r: seq<string>)
    ensures |r| == |ws|
  {
    seq(|ws|, i requires 0 <= i < |ws| => Repeat('-', ws[i]))
  }

  function HeaderLine(cols: seq<string>, ws: seq<nat>): string
    requires |cols| == |ws|
  {
    Join(" | ", Padded(cols, ws))
  }

  function SeparatorLine(ws: seq<nat>): string {
    Join("-+-", Dashes(ws))
  }

  function RowLine(row: Record, cols: seq<string>, ws: seq<nat>): string
    requires |cols| == |ws|
  {
    Join(" | ", Padded(RowCells(row, cols), ws))
  }

  /** The lines `_display_table_data` prints: the no-data message alone, or a
      header, a separator and one line per row. */
  function TableLines(data: seq<Record>, columns: seq<string>): (lines: seq<string>)
    ensures |lines| == if data == [] then 1 else |data| + 2
    ensures data == [] ==> lines == [NoDataMessage]
    ensures data != [] ==>
      var cols := DisplayColumns(data, columns);
      var ws := Widths(data, cols);
      lines[0] == HeaderLine(cols, ws) && lines[1] == SeparatorLine(ws)
  {
    if data == [] then [NoDataMessage]
    else
      var cols := DisplayColumns(data, columns);
      var ws := Widths(data, cols);
      [HeaderLine(cols, ws), SeparatorLine(ws)]
        + seq(|data|, k requires 0 <= k < |data| => RowLine(data[k], cols, ws))
  }

  /** `_display_table_data(data, columns)`, with the printed lines returned.
      An empty `columns` stands for both None and the empty list. */
  method DisplayTable(data: seq<Record>, columns: seq<string>) returns (lines: seq<string>)
    ensures lines == TableLines(data, columns)
  {
    if data == [] {
      return [NoDataMessage];
    }
    var cols := if columns == [] then Keys(data[0]) else columns;
    var colWidths := ColumnWidths(data, cols);
    var ws := seq(|cols|, i requires 0 <= i < |cols| => colWidths[cols[i]]);
    assert ws == Widths(data, cols);
    var header := HeaderLine(cols, ws);
    var separator := SeparatorLine(ws);
    lines := [header, separator];
    for r := 0 to |data|
      invariant |lines| == r + 2 && lines[0] == header && lines[1] == separator
      invariant forall k :: 0 <= k < r ==> lines[k + 2] == RowLine(data[k], cols, ws)
    {
      lines := lines + [RowLine(data[r], cols, ws)];
    }
    TableLinesPointwise(data, columns, lines);
  }

  /** The `col_widths` dict: one entry per shown column, holding its width. */
  method ColumnWidths(data: seq<Record>, cols: seq<string>) returns (colWidths: map<string, nat>)
    ensures forall j :: 0 <= j < |cols| ==> cols[j] in colWidths
    ensures forall c :: c in colWidths ==> colWidths[c] == ColumnWidth(data, c)
  {
    colWidths := map[];
    for k := 0 to |cols|
      invariant forall c :: c in colWidths ==> colWidths[c] == ColumnWidth(data, c)
      invariant forall j :: 0 <= j < k ==> cols[j] in colWidths
    {
      var widest := WidestCell(data, cols[k]);
      colWidths := colWidths[cols[k] := Max(|cols[k]|, widest)];
    }
  }

  /** `max(len(str(row.get(col, ''))) for row in data)`, zero for no rows. */
  method WidestCell(data: seq<Record>, col: string) returns (widest: nat)
    ensures widest == MaxCell(data, col)
  {
    widest := 0;
    for r := 0 to |data|
      invariant widest == MaxCell(data[..r], col)
    {
      assert data[..r + 1][..r] == data[..r] && data[..r + 1][r] == data[r];
      widest := Max(widest, |Cell(data[r], col)|);
    }
    assert data[..|data|] == data;
  }

  lemma TableLinesPointwise(data: seq<Record>, columns: seq<string>, lines: seq<string>)
    requires data != []
    requires var cols := DisplayColumns(data, columns);
             var ws := Widths(data, cols);
             && |lines| == |data| + 2
             && lines[0] == HeaderLine(cols, ws) && lines[1] == SeparatorLine(ws)
             && forall k :: 0 <= k < |data| ==> lines[k + 2] == RowLine(data[k], cols, ws)
    ensures lines == TableLines(data, columns)
  {
    var t := TableLines(data, columns);
    forall k | 0 <= k < |lines| ensures lines[k] == t[k] {
      if k >= 2 {
        TableRowLine(data, columns, k - 2);
        assert lines[(k - 2) + 2] == t[k];
      }
    }
  }

  /** Each column is as wide as its header and as every cell under it, and
      no wider than the widest of these. */
  lemma {:induction false} ColumnWidthBounds(data: seq<Record>, column: string)
    ensures ColumnWidth(data, column) >= |column|
    ensures forall k :: 0 <= k < |data| ==> ColumnWidth(data, column) >= |Cell(data[k], column)|
    ensures ColumnWidth(data, column) == |column|
            || exists k :: 0 <= k < |data| && ColumnWidth(data, column) == |Cell(data[k], column)|
  {
    MaxCellBounds(data, column);
  }

  lemma {:induction false} MaxCellBounds(data: seq<Record>, column: string)
    ensures forall k :: 0 <= k < |data| ==> MaxCell(data, column) >= |Cell(data[k], column)|
    ensures data != [] ==> exists k :: 0 <= k < |data| && MaxCell(data, column) == |Cell(data[k], column)|
    ensures data == [] ==> MaxCell(data, column) == 0
  {
    if data != [] {
      var init := data[..|data| - 1];
      MaxCellBounds(init, column);
      assert forall k :: 0 <= k < |init| ==> init[k] == data[k];
      if init == [] {
        assert MaxCell(data, column) == |Cell(data[0], column)|;
      }
    }
  }

  function Sum(ws: seq<nat>): nat {
    if ws == [] then 0 else ws[0] + Sum(ws[1..])
  }

  lemma {:induction false} SumLengthsExact(parts: seq<string>, ws: seq<nat>)
    requires |parts| == |ws|
    requires forall i :: 0 <= i < |parts| ==> |parts[i]| == ws[i]
    ensures SumLengths(parts) == Sum(ws)
  {
    if parts != [] {
      SumLengthsExact(parts[1..], ws[1..]);
    }
  }

  /** Padding to a width at least the text's length gives exactly that width. */
  lemma PaddedExact(texts: seq<string>, ws: seq<nat>)
    requires |texts| == |ws|
    requires forall i :: 0 <= i < |texts| ==> |texts[i]| <= ws[i]
    ensures forall i :: 0 <= i < |ws| ==> |Padded(texts, ws)[i]| == ws[i]
  {
  }

  /** The padded cells of a table line are exactly their columns' widths. */
  lemma RowCellsFit(data: seq<Record>, cols: seq<string>, k: int)
    requires 0 <= k < |data|
    ensures forall i :: 0 <= i < |cols| ==> |RowCells(data[k], cols)[i]| <= Widths(data, cols)[i]
    ensures forall i :: 0 <= i < |cols| ==> |cols[i]| <= Widths(data, cols)[i]
  {
    forall i | 0 <= i < |cols|
      ensures |RowCells(data[k], cols)[i]| <= Widths(data, cols)[i]
      ensures |cols[i]| <= Widths(data, cols)[i]
    {
      ColumnWidthBounds(data, cols[i]);
    }
  }

  /** The length every line of a table with these widths has. */
  function LineWidth(ws: seq<nat>): nat
    requires |ws| >= 1
  {
    Sum(ws) + 3 * (|ws| - 1)
  }

  lemma JoinedWidth(sep: string, parts: seq<string>, ws: seq<nat>)
    requires |sep| == 3 && |parts| == |ws| >= 1
    requires forall i :: 0 <= i < |parts| ==> |parts[i]| == ws[i]
    ensures |Join(sep, parts)| == LineWidth(ws)
  {
    JoinLength(sep, parts);
    SumLengthsExact(parts, ws);
  }

  /** Header, separator and every row line of a table are equally long: the
      sum of the column widths plus three characters between columns. */
  lemma TableLinesEqualLength(data: seq<Record>, columns: seq<string>)
    requires data != [] && DisplayColumns(data, columns) != []
    ensures var ws := Widths(data, DisplayColumns(data, columns));
            forall k :: 0 <= k < |TableLines(data, columns)| ==> |TableLines(data, columns)[k]| == LineWidth(ws)
  {
    var cols := DisplayColumns(data, columns);
    var ws := Widths(data, cols);
    var lines := TableLines(data, columns);
    RowCellsFit(data, cols, 0);
    PaddedExact(cols, ws);
    JoinedWidth(" | ", Padded(cols, ws), ws);
    JoinedWidth("-+-", Dashes(ws), ws);
    forall k | 2 <= k < |lines| ensures |lines[k]| == LineWidth(ws) {
      var row := data[k - 2];
      assert lines[k] == RowLine(row, cols, ws);
      RowCellsFit(data, cols, k - 2);
      PaddedExact(RowCells(row, cols), ws);
      JoinedWidth(" | ", Padded(RowCells(row, cols), ws), ws);
    }
  }

  /** Where the field of column `j` starts in a line whose fields have widths
      `ws` and are separated by `gap` characters. */
  function Offset(ws: seq<nat>, gap: nat, j: nat): nat
    requires j < |ws|
  {
    if j == 0 then 0 else ws[0] + gap + Offset(ws[1..], gap, j - 1)
  }

  lemma {:induction false} JoinField(sep: string, parts: seq<string>, ws: seq<nat>, j: nat)
    requires |parts| == |ws| && j < |ws|
    requires forall i :: 0 <= i < |parts| ==> |parts[i]| == ws[i]
    ensures Offset(ws, |sep|, j) + ws[j] <= |Join(sep, parts)|
    ensures Join(sep, parts)[Offset(ws, |sep|, j)..Offset(ws, |sep|, j) + ws[j]] == parts[j]
  {
    if |parts| == 1 {
    } else if j == 0 {
      assert Join(sep, parts) == parts[0] + (sep + Join(sep, parts[1..]));
    } else {
      var rest := Join(sep, parts[1..]);
      JoinField(sep, parts[1..], ws[1..], j - 1);
      var head := parts[0] + sep;
      assert Join(sep, parts) == head + rest;
      var o := Offset(ws[1..], |sep|, j - 1);
      assert (head + rest)[|head| + o..|head| + o + ws[j]] == rest[o..o + ws[j]];
    }
  }

  /** In a line made of fields of widths `ws` joined by a three-character
      separator, field `j` sits at `Offset(ws, 3, j)`. */
  lemma FieldAt(sep: string, texts: seq<string>, ws: seq<nat>, j: nat)
    requires |sep| == 3 && |texts| == |ws| && j < |ws|
    requires forall i :: 0 <= i < |texts| ==> |texts[i]| <= ws[i]
    ensures Offset(ws, 3, j) + ws[j] <= |Join(sep, Padded(texts, ws))|
    ensures Join(sep, Padded(texts, ws))[Offset(ws, 3, j)..Offset(ws, 3, j) + ws[j]] == PadRight(texts[j], ws[j])
  {
    PaddedExact(texts, ws);
    JoinField(sep, Padded(texts, ws), ws, j);
  }

  lemma TableRowLine(data: seq<Record>, columns: seq<string>, k: nat)
    requires k < |data|
    ensures var cols := DisplayColumns(data, columns);
            TableLines(data, columns)[k + 2] == RowLine(data[k], cols, Widths(data, cols))
  {
  }

  lemma RowFieldAt(data: seq<Record>, cols: seq<string>, k: nat, j: nat)
    requires k < |data| && j < |cols|
    ensures var ws := Widths(data, cols);
            && Offset(ws, 3, j) + ws[j] <= |RowLine(data[k], cols, ws)|
            && RowLine(data[k], cols, ws)[Offset(ws, 3, j)..Offset(ws, 3, j) + ws[j]] == PadRight(Cell(data[k], cols[j]), ws[j])
  {
    RowCellsFit(data, cols, k);
    FieldAt(" | ", RowCells(data[k], cols), Widths(data, cols), j);
  }

  /** The columns line up: in the header, the separator and every row line
      `k`, column `j` occupies the same characters, holding the padded header,
      a run of dashes, and the padded cell respectively. */
  lemma TableColumnsAligned(data: seq<Record>, columns: seq<string>, j: nat, k: nat)
    requires k < |data| && j < |DisplayColumns(data, columns)|
    ensures var cols := DisplayColumns(data, columns);
            var ws := Widths(data, cols);
            var lines := TableLines(data, columns);
            var from := Offset(ws, 3, j);
            var to := from + ws[j];
            && to <= |lines[0]| && to <= |lines[1]| && to <= |lines[k + 2]|
            && lines[0][from..to] == PadRight(cols[j], ws[j])
            && lines[1][from..to] == Repeat('-', ws[j])
            && lines[k + 2][from..to] == PadRight(Cell(data[k], cols[j]), ws[j])
  {
    HeaderAligned(data, columns, j);
    RowAligned(data, columns, j, k);
  }

  lemma HeaderAligned(data: seq<Record>, columns: seq<string>, j: nat)
    requires data != [] && j < |DisplayColumns(data, columns)|
    ensures var cols := DisplayColumns(data, columns);
            var ws := Widths(data, cols);
            var lines := TableLines(data, columns);
            var from := Offset(ws, 3, j);
            var to := from + ws[j];
            && to <= |lines[0]| && to <= |lines[1]|
            && lines[0][from..to] == PadRight(cols[j], ws[j])
            && lines[1][from..to] == Repeat('-', ws[j])
  {
    var cols := DisplayColumns(data, columns);
    var ws := Widths(data, cols);
    var lines := TableLines(data, columns);
    assert lines[0] == HeaderLine(cols, ws) && lines[1] == SeparatorLine(ws);
    HeaderFieldAt(data, cols, j);
    SeparatorFieldAt(ws, j);
  }

  lemma HeaderFieldAt(data: seq<Record>, cols: seq<string>, j: nat)
    requires j < |cols|
    ensures var ws := Widths(data, cols);
            && Offset(ws, 3, j) + ws[j] <= |HeaderLine(cols, ws)|
            && HeaderLine(cols, ws)[Offset(ws, 3, j)..Offset(ws, 3, j) + ws[j]] == PadRight(cols[j], ws[j])
  {
    var ws := Widths(data, cols);
    forall i | 0 <= i < |cols| ensures |cols[i]| <= ws[i] {
      ColumnWidthBounds(data, cols[i]);
    }
    FieldAt(" | ", cols, ws, j);
  }

  lemma SeparatorFieldAt(ws: seq<nat>, j: nat)
    requires j < |ws|
    ensures Offset(ws, 3, j) + ws[j] <= |SeparatorLine(ws)|
    ensures SeparatorLine(ws)[Offset(ws, 3, j)..Offset(ws, 3, j) + ws[j]] == Repeat('-', ws[j])
  {
    JoinField("-+-", Dashes(ws), ws, j);
  }

  lemma RowAligned(data: seq<Record>, columns: seq<string>, j: nat, k: nat)
    requires k < |data| && j < |DisplayColumns(data, columns)|
    ensures var cols := DisplayColumns(data, columns);
            var ws := Widths(data, cols);
            var lines := TableLines(data, columns);
            var from := Offset(ws, 3, j);
            var to := from + ws[j];
            to <= |lines[k + 2]| && lines[k + 2][from..to] == PadRight(Cell(data[k], cols[j]), ws[j])
  {
    TableRowLine(data, columns, k);
    RowLineField(TableLines(data, columns), data, DisplayColumns(data, columns), k, j);
  }

  /** `RowFieldAt` for any list of lines whose line `k + 2` is row `k`'s line. */
  lemma RowLineField(lines: seq<string>, data: seq<Record>, cols: seq<string>, k: nat, j: nat)
    requires k < |data| && j < |cols| && k + 2 < |lines|
    requires lines[k + 2] == RowLine(data[k], cols, Widths(data, cols))
    ensures var ws := Widths(data, cols);
            var from := Offset(ws, 3, j);
            var to := from + ws[j];
            to <= |lines[k + 2]| && lines[k + 2][from..to] == PadRight(Cell(data[k], cols[j]), ws[j])
  {
    RowFieldAt(data, cols, k, j);
  }

  /** The lines the `csv` format prints: nothing without rows, else the
      column names and each row's cells, joined by commas without quoting. */
  function CsvSpec(data: seq<Record>, columns: seq<string>): (lines: seq<string>)
    ensures |lines| == if data == [] then 0 else |data| + 1
  {
    if data == [] then []
    else
      var cols := DisplayColumns(data, columns);
      [Join(",", cols)] + seq(|data|, k requires 0 <= k < |data| => Join(",", RowCells(data[k], cols)))
  }

  /** The `csv` branch of `handle_select`, with the printed lines returned. */
  method CsvLines(data: seq<Record>, columns: seq<string>) returns (lines: seq<string>)
    ensures lines == CsvSpec(data, columns)
  {
    lines := [];
    if data != [] {
      var cols := if columns == [] then Keys(data[0]) else columns;
      lines := [Join(",", cols)];
      for r := 0 to |data|
        invariant |lines| == r + 1 && lines[0] == Join(",", cols)
        invariant forall k :: 0 <= k < r ==> lines[k + 1] == Join(",", RowCells(data[k], cols))
      {
        lines := lines + [Join(",", RowCells(data[r], cols))];
      }
    }
  }

  /** Splitting a CSV row line at its commas gives back the row's cells
      exactly when no cell contains a comma; a comma inside a cell shifts
      every later field. */
  lemma CsvRowRecoverable(data: seq<Record>, columns: seq<string>, k: int)
    requires 0 <= k < |data| && DisplayColumns(data, columns) != []
    ensures var cells := RowCells(data[k], DisplayColumns(data, columns));
            Split(CsvSpec(data, columns)[k + 1], ',') == cells
            <==> forall i :: 0 <= i < |cells| ==> ',' !in cells[i]
  {
    SplitJoinExactly(RowCells(data[k], DisplayColumns(data, columns)), ',');
  }

  /** The same for the header line and the column names. */
  lemma CsvHeaderRecoverable(data: seq<Record>, columns: seq<string>)
    requires data != [] && DisplayColumns(data, columns) != []
    ensures var cols := DisplayColumns(data, columns);
            Split(CsvSpec(data, columns)[0], ',') == cols
            <==> forall i :: 0 <= i < |cols| ==> ',' !in cols[i]
  {
    SplitJoinExactly(DisplayColumns(data, columns), ',');
  }
}
