/** The answer edits a question card makes: toggling an option of a
    multi-choice question, and editing, adding and removing the records of a
    repeatable question. Each edit computes the new answer value. */
module QuestionCard {
  import opened Json
  import opened Text
  import opened Schema

  /** The list a card edits: the answer when it is a list, otherwise empty. */
  function ListOrEmpty(v: Option<Value>): seq<Item>
  {
    match v
    case Some(List(items)) => items
    case _ => []
  }

  /** `toggleOption` on the selected list: a selected option is removed
      wherever it occurs, an unselected one is appended at the end. */
  function Toggle(selected: seq<Item>, option: string): (r: seq<Item>)
    ensures Atom(option) in r <==> Atom(option) !in selected
    ensures Atom(option) !in selected ==> r == selected + [Atom(option)]
    ensures Atom(option) in selected ==> |r| < |selected|
  {
    if Atom(option) in selected then Filter(selected, (x: Item) => x != Atom(option))
    else selected + [Atom(option)]
  }

  /** Toggling leaves every other selection selected or unselected as it was. */
  lemma ToggleKeepsOthers(selected: seq<Item>, option: string, x: Item)
    requires x != Atom(option)
    ensures x in Toggle(selected, option) <==> x in selected
  {
    if Atom(option) in selected {
      FilterMember(selected, (y: Item) => y != Atom(option), x);
    }
  }

  /** Toggling an unselected option twice restores the selection. */
  lemma ToggleTwice(selected: seq<Item>, option: string)
    requires Atom(option) !in selected
    ensures Toggle(Toggle(selected, option), option) == selected
  {
    var p := (x: Item) => x != Atom(option);
    FilterConcat(selected, [Atom(option)], p);
    FilterAll(selected, p);
    assert Filter([Atom(option)], p) == [];
  }

  /** The click handler: nothing is emitted when the card is disabled, otherwise
      the toggled list (a non-list answer counts as no selection). */
  function ToggleOption(value: Option<Value>, option: string, disabled: bool): (r: Option<Value>)
    ensures disabled <==> r.None?
    ensures r.Some? ==> r.value.List? && (Atom(option) in r.value.items <==> Atom(option) !in ListOrEmpty(value))
  {
    if disabled then None else Some(List(Toggle(ListOrEmpty(value), option)))
  }

  /** The fields of an entry; a string entry contributes none. */
  function EntryFields(entry: Item): map<string, string>
  {
    match entry
    case Rec(fields) => fields
    case Atom(_) => map[]
  }

  /** `updateEntry`: the entry at `index` gets `fieldId` set to `fieldValue`;
      every other entry and every other field stays as it was. */
  function UpdateEntry(entries: seq<Item>, index: int, fieldId: string, fieldValue: string): (r: seq<Item>)
    ensures |r| == |entries|
    ensures forall j | 0 <= j < |entries| && j != index :: r[j] == entries[j]
    ensures 0 <= index < |entries| ==>
      && r[index].Rec?
      && fieldId in r[index].fields && r[index].fields[fieldId] == fieldValue
      && (forall f | f != fieldId :: f in r[index].fields <==> f in EntryFields(entries[index]))
      && (forall f | f != fieldId && f in r[index].fields :: r[index].fields[f] == EntryFields(entries[index])[f])
  {
    seq(|entries|, j requires 0 <= j < |entries| =>
      if j == index then Rec(EntryFields(entries[j])[fieldId := fieldValue]) else entries[j])
  }

  /** Editing the same field twice keeps only the second value. */
  lemma UpdateTwice(entries: seq<Item>, index: int, fieldId: string, a: string, b: string)
    ensures UpdateEntry(UpdateEntry(entries, index, fieldId, a), index, fieldId, b) == UpdateEntry(entries, index, fieldId, b)
  {
    var once := UpdateEntry(entries, index, fieldId, a);
    var twice := UpdateEntry(once, index, fieldId, b);
    var direct := UpdateEntry(entries, index, fieldId, b);
    forall j | 0 <= j < |entries| ensures twice[j] == direct[j] {
      if j == index {
        assert EntryFields(once[j])[fieldId := b] == EntryFields(entries[j])[fieldId := b];
      }
    }
  }

  /** The record a new entry starts as: every field of the question, empty. */
  function EmptyEntry(fields: seq<Field>): (r: Item)
    ensures r.Rec?
    ensures forall f :: f in r.fields <==> f in FieldIds(fields)
    ensures forall f | f in r.fields :: r.fields[f] == ""
  {
    Rec(map f | f in FieldIds(fields) :: "")
  }

  /** The ids of a repeatable question's fields. */
  function FieldIds(fields: seq<Field>): (ids: set<string>)
    ensures forall i | 0 <= i < |fields| :: fields[i].id in ids
    ensures forall f | f in ids :: exists i | 0 <= i < |fields| :: fields[i].id == f
  {
    set i | 0 <= i < |fields| :: fields[i].id
  }

  /** `addEntry`: exactly one empty record appended. */
  function AddEntry(entries: seq<Item>, fields: seq<Field>): (r: seq<Item>)
    ensures |r| == |entries| + 1
    ensures r[..|entries|] == entries
    ensures r[|entries|] == EmptyEntry(fields)
  {
    entries + [EmptyEntry(fields)]
  }

  /** `removeEntry`: the entries whose position is not `index`, in order. */
  method RemoveEntry(entries: seq<Item>, index: int) returns (r: seq<Item>)
    ensures 0 <= index < |entries| ==> r == entries[..index] + entries[index + 1..]
    ensures !(0 <= index < |entries|) ==> r == entries
  {
    r := [];
    var i := 0;
    while i < |entries|
      invariant 0 <= i <= |entries|
      invariant 0 <= index < i ==> r == entries[..index] + entries[index + 1..i]
      invariant !(0 <= index < i) ==> r == entries[..i]
    {
      if i != index {
        r := r + [entries[i]];
      }
      i := i + 1;
    }
    assert entries[..|entries|] == entries;
  }

  /** Round-trip property of the two list handlers, not a handler of the card itself:
      `removeEntry` at the position `addEntry` just filled gives back the list. It is a
      method only because `RemoveEntry` is one. */
  method AddRemoveRoundTrip(entries: seq<Item>, fields: seq<Field>) returns (r: seq<Item>)
    ensures r == entries
  {
    var added := AddEntry(entries, fields);
    r := RemoveEntry(added, |entries|);
    assert added[..|entries|] == entries;
    assert added[|entries| + 1..] == [];
  }
}
