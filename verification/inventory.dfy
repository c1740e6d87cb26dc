/** The dataset-inventory table: the rows of the repeatable `data_inventory`
    answer rendered as an eight-column markdown table. The prompt preview, the
    backend renderer and the document preview each build it; they differ in the
    text of an empty cell and in how they treat a list element that is not a record. */
module Inventory {
  import opened Json
  import opened Text

  const Headers: seq<string> :=
    ["Dataset", "Source type", "Source link", "Resolution", "Format", "Privacy", "Size", "Test extract"]

  /** The record field shown in each column, in header order. */
  const FieldNames: seq<string> :=
    ["dataset_name", "source_type", "source_link", "resolution", "data_format", "privacy", "size", "extract_plan"]

  const SourceTypeColumn: nat := 1
  const PrivacyColumn: nat := 5

  /** Display labels for `source_type` codes; fixed, not taken from the template. */
  const SourceTypeLabels: map<string, string> := map[
    "survey_micro" := "Household/firm survey data",
    "admin_data" := "Administrative data",
    "satellite" := "Satellite / Remote sensing data",
    "time_series" := "Time series (macro indicators)",
    "cross_section" := "Cross-sectional data",
    "panel" := "Panel data",
    "experimental" := "Experimental / RCT data",
    "synthetic" := "Synthetic / Simulated data",
    "literature" := "Parameters from literature",
    "api" := "External API (World Bank, IEA, etc.)"]

  /** Display labels for `privacy` codes; fixed, not taken from the template. */
  const PrivacyLabels: map<string, string> := map[
    "public" := "Public",
    "restricted_shareable" := "Restricted (shareable with agreement)",
    "confidential" := "Confidential"]

  /** The label dictionary a column translates through (empty for plain columns). */
  function ColumnLabels(col: nat): map<string, string>
  {
    if col == SourceTypeColumn then SourceTypeLabels
    else if col == PrivacyColumn then PrivacyLabels
    else map[]
  }

  lemma ColumnLabelsNonEmpty(col: nat, code: string)
    requires code in ColumnLabels(col)
    ensures code != "" && ColumnLabels(col)[code] != ""
  {
  }

  /** A JavaScript property read on a list element: a record exposes its fields,
      a string exposes none of the inventory field names. */
  function JsField(it: Item, name: string): Option<string>
  {
    match it
    case Rec(fields) => if name in fields then Some(fields[name]) else None
    case Atom(_) => None
  }

  /** One cell, `dict[raw] || raw || empty`: the label of a known code, else the raw
      text when it is non-empty, else the `empty` marker. */
  function Cell(it: Item, col: nat, empty: string): (r: string)
    requires col < 8
    ensures var raw := JsField(it, FieldNames[col]);
      && (raw.Some? && raw.value in ColumnLabels(col) ==> r == ColumnLabels(col)[raw.value])
      && (raw.Some? && raw.value !in ColumnLabels(col) && raw.value != "" ==> r == raw.value)
      && (raw.None? || raw.value == "" ==> r == empty)
  {
    var raw := JsField(it, FieldNames[col]);
    var dict := ColumnLabels(col);
    if raw.Some? && raw.value in dict then dict[raw.value]
    else if raw.Some? && raw.value != "" then raw.value
    else empty
  }

  /** A cell with one empty marker is the cell with another marker, swapped in
      exactly where the cell would otherwise be empty. */
  lemma CellEmptyMarker(it: Item, col: nat, empty: string)
    requires col < 8
    ensures Cell(it, col, empty) == (if Cell(it, col, "") == "" then empty else Cell(it, col, ""))
  {
    var raw := JsField(it, FieldNames[col]);
    if raw.Some? && raw.value in ColumnLabels(col) {
      ColumnLabelsNonEmpty(col, raw.value);
    }
  }

  /** The eight cells of an entry, in header order. */
  function RowCells(it: Item, empty: string): (r: seq<string>)
    ensures |r| == |Headers|
    ensures forall col | 0 <= col < 8 :: r[col] == Cell(it, col, empty)
  {
    seq(8, col requires 0 <= col < 8 => Cell(it, col, empty))
  }

  /** `| c1 | c2 | ... |` */
  function RowLine(cells: seq<string>): string
  {
    "| " + Join(cells, " | ") + " |"
  }

  function HeaderLine(): string
  {
    RowLine(Headers)
  }

  function SeparatorLine(): string
  {
    RowLine(seq(|Headers|, _ => "---"))
  }

  function TableLines(rows: seq<seq<string>>): (lines: seq<string>)
    ensures |lines| == 2 + |rows|
    ensures lines[0] == HeaderLine() && lines[1] == SeparatorLine()
    ensures forall i | 0 <= i < |rows| :: lines[i + 2] == RowLine(rows[i])
  {
    LinesUnder(HeaderLine(), SeparatorLine(), rows)
  }

  /** Two heading lines, then one line per row. */
  function LinesUnder(h0: string, h1: string, rows: seq<seq<string>>): (lines: seq<string>)
    ensures |lines| == 2 + |rows| && lines[0] == h0 && lines[1] == h1
    ensures forall i | 0 <= i < |rows| :: lines[i + 2] == RowLine(rows[i])
  {
    [h0, h1] + seq(|rows|, i requires 0 <= i < |rows| => RowLine(rows[i]))
  }

  /** The table text: header line, separator line and one line per row, joined by newlines. */
  function TableText(rows: seq<seq<string>>): (t: string)
    ensures t != ""
  {
    Join(TableLines(rows), "\n")
  }

  /** The prompt preview's table (empty cells are ''): empty text for no entries;
      a list element that is not a record reads as a record with no fields. */
  function JsTable(entries: seq<Item>): (r: string)
    ensures r == "" <==> |entries| == 0
  {
    if |entries| == 0 then ""
    else TableText(JsRows(entries))
  }

  /** The cells of each entry, with '' for an empty cell. */
  function JsRows(entries: seq<Item>): (rows: seq<seq<string>>)
    ensures |rows| == |entries| && forall i | 0 <= i < |entries| :: rows[i] == RowCells(entries[i], "")
  {
    seq(|entries|, i requires 0 <= i < |entries| => RowCells(entries[i], ""))
  }

  /** Python's `entry.get(name, "")`. */
  function PyGet(fields: map<string, string>, name: string): string
  {
    if name in fields then fields[name] else ""
  }

  /** One cell of the backend's table, following its `dict.get` defaults and `or ""`. */
  function PyCell(fields: map<string, string>, col: nat): string
    requires col < 8
  {
    var name := FieldNames[col];
    if col == SourceTypeColumn || col == PrivacyColumn then
      var dict := ColumnLabels(col);
      if name in fields && fields[name] in dict then dict[fields[name]] else PyGet(fields, name)
    else PyGet(fields, name)
  }

  predicate AllRecords(entries: seq<Item>)
  {
    forall i | 0 <= i < |entries| :: entries[i].Rec?
  }

  /** The backend's `format_data_inventory`: empty text for no entries; `None` stands
      for the error Python raises when an element is not a record (`str.get`). */
  function PyTable(entries: seq<Item>): (r: Option<string>)
    ensures |entries| == 0 ==> r == Some("")
    ensures r.None? <==> |entries| > 0 && !AllRecords(entries)
    ensures r.Some? ==> (r.value == "" <==> |entries| == 0)
  {
    if |entries| == 0 then Some("")
    else if !AllRecords(entries) then None
    else Some(TableText(seq(|entries|, i requires 0 <= i < |entries| && entries[i].Rec? =>
                          seq(8, col requires 0 <= col < 8 => PyCell(entries[i].fields, col)))))
  }

  lemma PyCellIsCell(fields: map<string, string>, col: nat)
    requires col < 8
    ensures PyCell(fields, col) == Cell(Rec(fields), col, "")
  {
  }

  /** The backend and the prompt preview build the same table whenever every element
      is a record; the backend fails exactly when some element is not. */
  lemma {:induction false} PyTableAgreesWithJs(entries: seq<Item>)
    ensures PyTable(entries).Some? <==> |entries| == 0 || AllRecords(entries)
    ensures PyTable(entries).Some? ==> PyTable(entries).value == JsTable(entries)
  {
    if |entries| > 0 && AllRecords(entries) {
      var py := seq(|entries|, i requires 0 <= i < |entries| && entries[i].Rec? =>
                  seq(8, col requires 0 <= col < 8 => PyCell(entries[i].fields, col)));
      var js := JsRows(entries);
      forall i | 0 <= i < |entries| ensures py[i] == js[i] {
        forall col | 0 <= col < 8 ensures py[i][col] == js[i][col] {
          PyCellIsCell(entries[i].fields, col);
        }
      }
      assert py == js;
    }
  }

  lemma RowLineNoNewline(cells: seq<string>)
    requires forall i | 0 <= i < |cells| :: '\n' !in cells[i]
    ensures '\n' !in RowLine(cells)
  {
    JoinNoChar(cells, " | ", '\n');
  }

  lemma HeaderLinesNoNewline()
    ensures '\n' !in HeaderLine() && '\n' !in SeparatorLine()
  {
    HeaderLineNoNewline();
    SeparatorLineNoNewline();
  }

  lemma HeaderLineNoNewline()
    ensures '\n' !in HeaderLine()
  {
    HeadersNoNewline();
    RowLineNoNewline(Headers);
  }

  lemma SeparatorLineNoNewline()
    ensures '\n' !in SeparatorLine()
  {
    var dashes := seq(|Headers|, _ => "---");
    assert forall i | 0 <= i < |dashes| :: dashes[i] == "---";
    RowLineNoNewline(dashes);
  }

  lemma HeadersNoNewline()
    ensures forall i | 0 <= i < |Headers| :: '\n' !in Headers[i]
  {
    var h := Headers;
    assert '\n' !in h[0] && '\n' !in h[1] && '\n' !in h[2] && '\n' !in h[3];
    assert '\n' !in h[4] && '\n' !in h[5] && '\n' !in h[6] && '\n' !in h[7];
  }

  lemma TableLinesNoNewline(rows: seq<seq<string>>)
    requires forall i, col | 0 <= i < |rows| && 0 <= col < |rows[i]| :: '\n' !in rows[i][col]
    ensures forall i | 0 <= i < |TableLines(rows)| :: '\n' !in TableLines(rows)[i]
  {
    forall i | 0 <= i < |TableLines(rows)| ensures '\n' !in TableLines(rows)[i] {
      if i < 2 {
        HeadOfTableNoNewline(rows, i);
      } else {
        RowOfTableNoNewline(rows, i - 2);
      }
    }
  }

  lemma HeadOfTableNoNewline(rows: seq<seq<string>>, i: nat)
    requires i < 2
    ensures '\n' !in TableLines(rows)[i]
  {
    HeaderLinesNoNewline();
  }

  lemma RowOfTableNoNewline(rows: seq<seq<string>>, r: nat)
    requires r < |rows| && forall col | 0 <= col < |rows[r]| :: '\n' !in rows[r][col]
    ensures '\n' !in TableLines(rows)[r + 2]
  {
    RowLineNoNewline(rows[r]);
  }

  /** When no cell holds a line break, the prompt preview's table splits into exactly
      2 + n lines: the header, the `---` separator, then one eight-cell line per entry. */
  lemma {:induction false} JsTableLines(entries: seq<Item>)
    requires |entries| > 0
    requires forall i, col | 0 <= i < |entries| && 0 <= col < 8 :: '\n' !in Cell(entries[i], col, "")
    ensures var lines := SplitOn(JsTable(entries), '\n');
      && |lines| == 2 + |entries|
      && lines[0] == HeaderLine()
      && lines[1] == SeparatorLine()
      && forall i | 0 <= i < |entries| :: lines[i + 2] == RowLine(RowCells(entries[i], ""))
  {
    var rows := JsRows(entries);
    TableLinesNoNewline(rows);
    SplitJoin(TableLines(rows), '\n');
  }

  /** A `survey_micro` source type is shown by its label, not by its code. */
  lemma SurveyMicroLabel()
    ensures Cell(Rec(map["source_type" := "survey_micro"]), SourceTypeColumn, "") == "Household/firm survey data"
  {
  }
}
