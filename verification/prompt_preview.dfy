/** The prompt preview's context: question defaults merged with the meaningful
    answers, the synthesised inventory table, and the display form of a value. */
module PromptPreview {
  import opened Json
  import opened Text
  import opened Schema
  import opened Labels
  import opened Inventory

  const DataInventoryKey: string := "data_inventory"
  const TableKey: string := "data_inventory_table"

  /** A default is recorded when it is given and is neither null nor ''. */
  predicate HasDefault(q: Question)
  {
    q.defaultValue.Some? && q.defaultValue.value != Null && q.defaultValue.value != Str("")
  }

  /** Question id -> default, in question order; a later question with the same id
      overwrites the value but keeps the first position. */
  function DefaultAnswers(qs: seq<Question>): (r: Obj)
    ensures Keys(r) == IdsWhere(qs, HasDefault)
    ensures forall i | 0 <= i < |qs| && HasDefault(qs[i]) && LastWhere(qs, i, HasDefault) ::
      Get(r, qs[i].id) == qs[i].defaultValue
    ensures forall k | k in Keys(r) :: Get(r, k).value != Null && Get(r, k).value != Str("")
  {
    if |qs| == 0 then []
    else
      var n := |qs| - 1;
      var prev := DefaultAnswers(qs[..n]);
      var q := qs[n];
      IdsWhereSnoc(qs, HasDefault);
      LastWhereSnoc(qs, HasDefault);
      if HasDefault(q) then Set(prev, q.id, q.defaultValue.value) else prev
  }

  /** A string that is not blank after trimming, a non-empty list; never null. */
  predicate IsMeaningful(v: Value)
  {
    match v
    case Null => false
    case Str(s) => Trim(s, IsJsSpace) != ""
    case List(items) => |items| > 0
  }

  /** The value a key resolves to: the answer when it is meaningful, else the default. */
  function Resolve(defaults: Obj, answers: Option<Obj>, k: string): Option<Value>
  {
    if answers.Some? && Get(answers.value, k).Some? && IsMeaningful(Get(answers.value, k).value)
    then Get(answers.value, k)
    else Get(defaults, k)
  }

  /** Copies the meaningful entries of `entries` over `merged`, in entry order. */
  function Merge(merged: Obj, entries: Obj): (r: Obj)
    ensures forall k :: Get(r, k) == Resolve(merged, Some(entries), k)
    ensures Keys(r) <= Keys(merged) + Keys(entries)
    decreases |entries|
  {
    if |entries| == 0 then merged
    else
      var k := entries[0].0;
      var v := entries[0].1;
      var rest: Obj := entries[1..];
      assert k !in Keys(rest);
      var next := if IsMeaningful(v) then Set(merged, k, v) else merged;
      Merge(next, rest)
  }

  /** The resolved context: no answers at all gives the defaults unchanged; otherwise
      every key resolves as `Resolve` says, and the inventory table is added exactly
      when the resolved inventory is a list. */
  function ResolvedAnswers(defaults: Obj, answers: Option<Obj>): (r: Obj)
    ensures answers.None? ==> r == defaults
    ensures forall k | k != TableKey :: Get(r, k) == Resolve(defaults, answers, k)
    ensures var inv := Resolve(defaults, answers, DataInventoryKey);
      Get(r, TableKey) ==
        (if answers.Some? && inv.Some? && inv.value.List? then Some(Str(JsTable(inv.value.items)))
         else Resolve(defaults, answers, TableKey))
    ensures Keys(r) <= Keys(defaults) + (if answers.Some? then Keys(answers.value) else {}) + {TableKey}
  {
    if answers.None? then defaults
    else
      var merged := Merge(defaults, answers.value);
      match Get(merged, DataInventoryKey)
      case Some(List(items)) => Set(merged, TableKey, Str(JsTable(items)))
      case _ => merged
  }

  /** The elements of a list answer as displayed: each element's label, or the element. */
  function DisplayItems(labels: LabelIndex, key: string, items: seq<Item>): (r: seq<string>)
    ensures |r| == |items|
    ensures forall i | 0 <= i < |items| :: r[i] == DisplayCode(labels, key, JsString(items[i]))
  {
    seq(|items|, i requires 0 <= i < |items| => DisplayCode(labels, key, JsString(items[i])))
  }

  /** A value absent, null or ''. */
  predicate IsBlank(v: Option<Value>)
  {
    v.None? || v == Some(Null) || v == Some(Str(""))
  }

  /** `formatValue`: blank values show as ''; a list shows its elements' labels (or
      the elements) joined by ", "; a string shows its label when it has a non-empty
      one, else itself. */
  function FormatValue(labels: LabelIndex, key: string, v: Option<Value>): (r: string)
    ensures IsBlank(v) ==> r == ""
    ensures v.Some? && v.value.Str? && v.value.s != "" ==> r != ""
    ensures v.Some? && v.value.List? ==> r == Join(DisplayItems(labels, key, v.value.items), ", ")
    ensures !(key in labels) && v.Some? && v.value.Str? ==> r == v.value.s
  {
    match v
    case None => ""
    case Some(Null) => ""
    case Some(Str(s)) => if s == "" then "" else DisplayCode(labels, key, s)
    case Some(List(items)) => Join(DisplayItems(labels, key, items), ", ")
  }
}
