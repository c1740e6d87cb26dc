/** The technical-specification preview: each answer in its display form, the
    "TBD" shown for a summary line with nothing to show, and the dataset table
    whose empty cells show "-". */
module DocumentPreview {
  import opened Json
  import opened Text
  import opened Labels
  import opened Inventory
  import opened PromptPreview

  /** What a summary line shows when its answer has no display form. */
  const Pending: string := "TBD"

  /** What a dataset cell shows when the entry has nothing for that column. */
  const EmptyCell: string := "-"

  /** `formatAnswer`: nothing for an absent, null or '' answer; a list maps each
      element through the question's option labels when the question has options
      and joins the results with ", "; a single code shows its label when that
      label is non-empty, else itself. The display form is the prompt preview's. */
  function FormatAnswer(labels: LabelIndex, key: string, v: Option<Value>): (r: Option<string>)
    ensures r.None? <==> IsBlank(v)
    ensures r.Some? ==> r.value == FormatValue(labels, key, v)
  {
    match v
    case None => None
    case Some(Null) => None
    case Some(Str(s)) =>
      if s == "" then None
      else if key in labels && s in labels[key] && labels[key][s] != "" then Some(labels[key][s])
      else Some(s)
    case Some(List(items)) =>
      if key in labels then
        var l := labels[key];
        var parts := seq(|items|, i requires 0 <= i < |items| =>
          var c := JsString(items[i]); if c in l && l[c] != "" then l[c] else c);
        assert parts == DisplayItems(labels, key, items);
        Some(Join(parts, ", "))
      else
        var parts := seq(|items|, i requires 0 <= i < |items| => JsString(items[i]));
        assert parts == DisplayItems(labels, key, items);
        Some(Join(parts, ", "))
  }

  /** `formatAnswer(..) || 'TBD'`: the formatted answer when it is non-empty,
      otherwise the pending marker; a summary line is never blank. */
  function SummaryField(labels: LabelIndex, key: string, v: Option<Value>): (r: string)
    ensures r != ""
    ensures IsBlank(v) ==> r == Pending
    ensures !IsBlank(v) && FormatValue(labels, key, v) != "" ==> r == FormatValue(labels, key, v)
    ensures !IsBlank(v) && FormatValue(labels, key, v) == "" ==> r == Pending
  {
    match FormatAnswer(labels, key, v)
    case None => Pending
    case Some(s) => if s == "" then Pending else s
  }

  /** An answered empty list has no display form, so its line shows the marker. */
  lemma EmptyListPending(labels: LabelIndex, key: string)
    ensures SummaryField(labels, key, Some(List([]))) == Pending
  {
    assert DisplayItems(labels, key, []) == [];
  }

  /** `data_inventory` when it is a list, otherwise no entries. */
  function DatasetEntries(answers: Obj): seq<Item>
  {
    match Get(answers, DataInventoryKey)
    case Some(List(items)) => items
    case _ => []
  }

  /** The table body: one row of eight cells per inventory entry, each cell
      `dict[raw] || raw || '-'`. */
  function DatasetRows(answers: Obj): (rows: seq<seq<string>>)
    ensures |rows| == |DatasetEntries(answers)|
    ensures forall i | 0 <= i < |rows| :: |rows[i]| == |Headers|
  {
    var entries := DatasetEntries(answers);
    seq(|entries|, i requires 0 <= i < |entries| => RowCells(entries[i], EmptyCell))
  }

  /** Every cell of the table shows something, and it is what the prompt
      preview's inventory table shows for the same entry and column, with "-"
      in place of the prompt's empty cell. */
  lemma DatasetCell(answers: Obj, i: nat, col: nat)
    requires i < |DatasetEntries(answers)| && col < 8
    ensures var cell := DatasetRows(answers)[i][col];
      var shared := RowCells(DatasetEntries(answers)[i], "")[col];
      && cell != ""
      && cell == (if shared == "" then EmptyCell else shared)
  {
    var it := DatasetEntries(answers)[i];
    CellEmptyMarker(it, col, EmptyCell);
    var raw := JsField(it, FieldNames[col]);
    if raw.Some? && raw.value in ColumnLabels(col) {
      ColumnLabelsNonEmpty(col, raw.value);
    }
  }
}
