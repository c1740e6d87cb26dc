/** The flow diagram: the answered questions grouped into Data, Model, Outputs
    and Other sections, each section's list of boxes, and the integer layout
    that stacks the sections top to bottom. */
module DiagramView {
  import opened Json
  import opened Text
  import opened Schema
  import opened Labels
  import opened PromptPreview

  /** `normalizeValues`: no values for a blank answer; a list shows each element
      through the question's option labels and drops the empty results; a
      single code shows as its one display form. */
  function NormalizeValues(labels: LabelIndex, qid: string, v: Option<Value>): (r: seq<string>)
    ensures IsBlank(v) ==> r == []
    ensures forall i | 0 <= i < |r| :: r[i] != ""
    ensures v.Some? && v.value.Str? && v.value.s != "" ==> r == [FormatValue(labels, qid, v)]
    ensures v.Some? && v.value.List? ==>
      && |r| <= |v.value.items|
      && (forall i | 0 <= i < |r| :: r[i] in DisplayItems(labels, qid, v.value.items))
      && (forall i | 0 <= i < |v.value.items| && JsString(v.value.items[i]) != "" ::
            DisplayCode(labels, qid, JsString(v.value.items[i])) in r)
  {
    match v
    case None => []
    case Some(Null) => []
    case Some(Str(s)) => if s == "" then [] else [DisplayCode(labels, qid, s)]
    case Some(List(items)) =>
      var shown := DisplayItems(labels, qid, items);
      assert forall i | 0 <= i < |items| && JsString(items[i]) != "" :: shown[i] != "";
      Filter(shown, (x: string) => x != "")
  }

  /** When no element of a list answer is empty, the diagram's values joined
      with ", " are exactly the prompt preview's display of the answer. */
  lemma NormalizeAgreesWithFormat(labels: LabelIndex, qid: string, items: seq<Item>)
    requires forall i | 0 <= i < |items| :: JsString(items[i]) != ""
    ensures Join(NormalizeValues(labels, qid, Some(List(items))), ", ") == FormatValue(labels, qid, Some(List(items)))
  {
    var shown := DisplayItems(labels, qid, items);
    FilterAll(shown, (x: string) => x != "");
  }

  const TruncateLimit: nat := 60

  /** The suffix a shortened box text ends with: the three characters the
      component's source text holds at that point. */
  const Ellipsis: string := "â€¦"

  /** `truncate(value)`: a text of at most 60 characters is kept; a longer one
      keeps its first 59 characters followed by the suffix. */
  function Truncate(s: string): (r: string)
    ensures |s| <= TruncateLimit ==> r == s
    ensures |r| <= TruncateLimit - 1 + |Ellipsis|
    ensures |s| > TruncateLimit ==> StartsWith(r, s[..TruncateLimit - 1]) && r[TruncateLimit - 1..] == Ellipsis
  {
    if |s| > TruncateLimit then s[..TruncateLimit - 1] + Ellipsis else s
  }

  /** Two long texts that agree on their first 59 characters display alike. */
  lemma TruncateSeesPrefix(s: string, t: string)
    requires |s| > TruncateLimit && |t| > TruncateLimit
    requires s[..TruncateLimit - 1] == t[..TruncateLimit - 1]
    ensures Truncate(s) == Truncate(t)
  {
  }

  const DefaultSection: string := "General"

  /** One answered question as the diagram sees it. */
  datatype DiagramItem = DiagramItem(id: string, section: string, question: Question, values: seq<string>)

  /** The item a question would contribute, whether or not it has values. */
  function ItemOf(q: Question, answers: Obj, labels: LabelIndex): (it: DiagramItem)
    ensures Normalized(it, answers, labels)
    ensures forall j | 0 <= j < |it.values| :: it.values[j] != ""
  {
    DiagramItem(q.id, if q.section == "" then DefaultSection else q.section, q,
                NormalizeValues(labels, q.id, Get(answers, q.id)))
  }

  /** The item of every question, in question order. */
  function Candidates(qs: seq<Question>, answers: Obj, labels: LabelIndex): (c: seq<DiagramItem>)
    ensures |c| == |qs|
    ensures forall i | 0 <= i < |qs| :: c[i] == ItemOf(qs[i], answers, labels)
  {
    seq(|qs|, i requires 0 <= i < |qs| => ItemOf(qs[i], answers, labels))
  }

  predicate HasValues(it: DiagramItem)
  {
    |it.values| > 0
  }

  /** `allItems`: the items of the questions with at least one value, in
      question order; every item has a section. */
  function AllItems(qs: seq<Question>, answers: Obj, labels: LabelIndex): (r: seq<DiagramItem>)
    ensures |r| <= |qs|
    ensures forall i | 0 <= i < |r| :: HasValues(r[i]) && Normalized(r[i], answers, labels)
    ensures NonEmptyValues(r)
    ensures forall i | 0 <= i < |qs| && HasValues(ItemOf(qs[i], answers, labels)) :: ItemOf(qs[i], answers, labels) in r
  {
    var candidates := Candidates(qs, answers, labels);
    assert NonEmptyValues(Filter(candidates, HasValues)) by {
      var r := Filter(candidates, HasValues);
      forall i | 0 <= i < |r| ensures forall j | 0 <= j < |r[i].values| :: r[i].values[j] != "" {
        var k :| 0 <= k < |candidates| && candidates[k] == r[i];
      }
    }
    Filter(candidates, HasValues)
  }

  /** An item whose values are the normalised answer of its id. */
  predicate Normalized(it: DiagramItem, answers: Obj, labels: LabelIndex)
  {
    it.section != "" && it.values == NormalizeValues(labels, it.id, Get(answers, it.id))
  }

  /** Items that each have values, none of them empty. */
  predicate NonEmptyValues(items: seq<DiagramItem>)
  {
    forall i | 0 <= i < |items| :: HasValues(items[i]) && forall j | 0 <= j < |items[i].values| :: items[i].values[j] != ""
  }

  /** A question added at the end adds its item at the end of `allItems`, when it
      has values, and changes nothing before it. */
  lemma AllItemsSnoc(qs: seq<Question>, q: Question, answers: Obj, labels: LabelIndex)
    ensures AllItems(qs + [q], answers, labels)
         == AllItems(qs, answers, labels) + (if HasValues(ItemOf(q, answers, labels)) then [ItemOf(q, answers, labels)] else [])
  {
    assert Candidates(qs + [q], answers, labels) == Candidates(qs, answers, labels) + [ItemOf(q, answers, labels)];
    FilterSnoc(Candidates(qs, answers, labels), ItemOf(q, answers, labels), HasValues);
  }

  /** Items of `allItems` follow the order of their questions. */
  lemma AllItemsInOrder(qs: seq<Question>, answers: Obj, labels: LabelIndex, a: nat, b: nat)
    requires a < b < |qs|
    requires HasValues(ItemOf(qs[a], answers, labels)) && HasValues(ItemOf(qs[b], answers, labels))
    ensures var r := AllItems(qs, answers, labels);
      exists u, v | 0 <= u < v < |r| :: r[u] == ItemOf(qs[a], answers, labels) && r[v] == ItemOf(qs[b], answers, labels)
  {
    var c := Candidates(qs, answers, labels);
    FilterKeepsOrder(c, HasValues, a, b);
    var r := Filter(c, HasValues);
    var u, v :| 0 <= u < v < |r| && r[u] == c[a] && r[v] == c[b];
    assert AllItems(qs, answers, labels) == r;
  }

  /** Every item of `allItems` comes from one of the questions. */
  lemma AllItemsFromQuestions(qs: seq<Question>, answers: Obj, labels: LabelIndex, k: nat)
    requires k < |AllItems(qs, answers, labels)|
    ensures exists i | 0 <= i < |qs| :: AllItems(qs, answers, labels)[k] == ItemOf(qs[i], answers, labels)
  {
    var candidates := Candidates(qs, answers, labels);
    var it := AllItems(qs, answers, labels)[k];
    assert it in candidates;
    var i :| 0 <= i < |candidates| && candidates[i] == it;
  }

  datatype Group = DataGroup | ModelGroup | OutputGroup

  /** The question ids that always belong to a group. */
  function GroupIds(g: Group): set<string>
  {
    match g
    case DataGroup => {"data_sources", "data_description", "data_input", "database_type"}
    case ModelGroup => {"model_domain", "model_type", "theoretical_foundation", "key_equations", "parameter_types"}
    case OutputGroup => {"output_types", "figure_formats", "table_format"}
  }

  /** The word whose presence in a section name puts a question in a group. */
  function GroupTerm(g: Group): string
  {
    match g
    case DataGroup => "data"
    case ModelGroup => "model"
    case OutputGroup => "output"
  }

  /** `hasSectionMatch`: the lower-cased declared section contains the term. Its use in
      the group filter is stated by `GroupIdsExact`, its case rule by `SectionMatchIgnoresCase`. */
  predicate HasSectionMatch(q: Question, term: string)
  {
    Includes(AsciiLower(q.section), term)
  }

  /** The match ignores case: a section holding the term in any ASCII casing
      ("Data Sources" for "data") matches. */
  lemma SectionMatchIgnoresCase(q: Question, term: string, w: string, i: nat)
    requires HasAt(q.section, i, w) && AsciiLower(w) == term
    ensures HasSectionMatch(q, term)
  {
    var low := AsciiLower(q.section);
    assert low[i..i + |w|] == AsciiLower(q.section[i..i + |w|]);
    assert HasAt(low, i, term);
    IncludesIff(low, term);
  }

  predicate InGroup(it: DiagramItem, g: Group)
  {
    it.id in GroupIds(g) || HasSectionMatch(it.question, GroupTerm(g))
  }

  predicate InAnyGroup(it: DiagramItem)
  {
    InGroup(it, DataGroup) || InGroup(it, ModelGroup) || InGroup(it, OutputGroup)
  }

  /** Every element of `part` is an element of `items`. */
  predicate Within(part: seq<DiagramItem>, items: seq<DiagramItem>)
  {
    forall i | 0 <= i < |part| :: part[i] in items
  }

  /** `dataItems`, `modelItems`, `outputItems`: the items of one group, in order.
      An item may belong to several groups. */
  function GroupItems(items: seq<DiagramItem>, g: Group): (r: seq<DiagramItem>)
    ensures Within(r, items)
    ensures forall i | 0 <= i < |r| :: r[i] in items && InGroup(r[i], g)
    ensures forall i | 0 <= i < |items| && InGroup(items[i], g) :: items[i] in r
  {
    Filter(items, InGroupTest(g))
  }

  /** Membership of one group, as a test on items. */
  function InGroupTest(g: Group): DiagramItem -> bool
  {
    (it: DiagramItem) => InGroup(it, g)
  }

  /** An item added at the end joins the end of every group it belongs to. */
  lemma GroupItemsSnoc(items: seq<DiagramItem>, it: DiagramItem, g: Group)
    ensures GroupItems(items + [it], g) == GroupItems(items, g) + (if InGroup(it, g) then [it] else [])
  {
    var test := InGroupTest(g);
    assert test(it) == InGroup(it, g);
    FilterSnoc(items, it, test);
  }

  /** Items of a group keep their relative order. */
  lemma GroupItemsInOrder(items: seq<DiagramItem>, g: Group, a: nat, b: nat)
    requires a < b < |items| && InGroup(items[a], g) && InGroup(items[b], g)
    ensures var r := GroupItems(items, g);
      exists u, v | 0 <= u < v < |r| :: r[u] == items[a] && r[v] == items[b]
  {
    var test := InGroupTest(g);
    assert test(items[a]) && test(items[b]);
    FilterKeepsOrder(items, test, a, b);
    var r := Filter(items, test);
    var u, v :| 0 <= u < v < |r| && r[u] == items[a] && r[v] == items[b];
    assert GroupItems(items, g) == r;
  }

  function IdsOf(items: seq<DiagramItem>): set<string>
  {
    set i | 0 <= i < |items| :: items[i].id
  }

  /** `groupIds`: the ids of every item shown in one of the three groups. */
  function GroupedIds(items: seq<DiagramItem>): set<string>
  {
    IdsOf(GroupItems(items, DataGroup)) + IdsOf(GroupItems(items, ModelGroup)) + IdsOf(GroupItems(items, OutputGroup))
  }

  /** `otherItems`: the items whose id is not shown in any group. */
  function OtherItems(items: seq<DiagramItem>): (r: seq<DiagramItem>)
    ensures |r| <= |items|
    ensures Within(r, items)
  {
    Filter(items, UngroupedTest(items))
  }

  /** Having an id that no group of `items` shows, as a test on items. */
  function UngroupedTest(items: seq<DiagramItem>): DiagramItem -> bool
  {
    (it: DiagramItem) => it.id !in GroupedIds(items)
  }

  /** Items of the Other section keep their relative order. */
  lemma OtherItemsInOrder(items: seq<DiagramItem>, a: nat, b: nat)
    requires a < b < |items| && items[a].id !in GroupedIds(items) && items[b].id !in GroupedIds(items)
    ensures var r := OtherItems(items);
      exists u, v | 0 <= u < v < |r| :: r[u] == items[a] && r[v] == items[b]
  {
    var test := UngroupedTest(items);
    assert test(items[a]) && test(items[b]);
    FilterKeepsOrder(items, test, a, b);
    var r := Filter(items, test);
    var u, v :| 0 <= u < v < |r| && r[u] == items[a] && r[v] == items[b];
    assert OtherItems(items) == r;
  }

  /** An id is listed for a group exactly when an item with that id is in it. */
  lemma GroupIdsExact(items: seq<DiagramItem>, g: Group, id: string)
    ensures id in IdsOf(GroupItems(items, g)) <==> exists j | 0 <= j < |items| :: items[j].id == id && InGroup(items[j], g)
  {
    var gi := GroupItems(items, g);
    if id in IdsOf(gi) {
      var k :| 0 <= k < |gi| && gi[k].id == id;
      var j := Position(items, gi[k]);
      assert items[j].id == id && InGroup(items[j], g);
    }
    if exists j | 0 <= j < |items| :: items[j].id == id && InGroup(items[j], g) {
      var j :| 0 <= j < |items| && items[j].id == id && InGroup(items[j], g);
      var k := Position(gi, items[j]);
      assert id in IdsOf(gi);
    }
  }

  /** An id is grouped exactly when some item with that id is in a group. */
  lemma GroupedIdsExact(items: seq<DiagramItem>, id: string)
    ensures id in GroupedIds(items) <==> exists j | 0 <= j < |items| :: items[j].id == id && InAnyGroup(items[j])
  {
    GroupIdsExact(items, DataGroup, id);
    GroupIdsExact(items, ModelGroup, id);
    GroupIdsExact(items, OutputGroup, id);
  }

  /** With distinct ids, the Other section holds exactly the items in no group,
      so every item is shown in at least one of the four sections. */
  lemma OtherItemsExact(items: seq<DiagramItem>, j: nat)
    requires j < |items|
    requires forall a, b | 0 <= a < b < |items| :: items[a].id != items[b].id
    ensures items[j] in OtherItems(items) <==> !InAnyGroup(items[j])
  {
    GroupedIdsExact(items, items[j].id);
    var r := OtherItems(items);
    if items[j] in r {
      var k := Position(r, items[j]);
      assert items[j].id !in GroupedIds(items);
    }
  }

  datatype Box = Box(caption: string, value: string)

  /** The short caption of the questions the diagram knows by id. */
  const ShortLabels: map<string, string> := map[
    "data_sources" := "Sources",
    "data_description" := "Datasets",
    "data_input" := "Inputs",
    "database_type" := "Database",
    "model_domain" := "Domain",
    "model_type" := "Model type",
    "theoretical_foundation" := "Theory",
    "key_equations" := "Equations",
    "parameter_types" := "Parameters",
    "output_types" := "Outputs",
    "figure_formats" := "Figure formats",
    "table_format" := "Table formats"]

  /** A box caption: the short caption, else the question text, else the id. */
  function BoxLabel(it: DiagramItem): (r: string)
    ensures it.id in ShortLabels ==> r == ShortLabels[it.id]
    ensures it.id !in ShortLabels ==> r == it.question.prompt || r == it.id
    ensures it.id != "" ==> r != ""
  {
    if it.id in ShortLabels then ShortLabels[it.id]
    else if it.question.prompt != "" then it.question.prompt
    else it.id
  }

  /** The number of values the items hold together. */
  function ValueCount(items: seq<DiagramItem>): nat
  {
    if |items| == 0 then 0 else |items[0].values| + ValueCount(items[1..])
  }

  /** One box per value of each item, in item order and then value order. */
  function BoxesOf(items: seq<DiagramItem>): (r: seq<Box>)
    ensures |r| == ValueCount(items)
    ensures (forall i, j | 0 <= i < |items| && 0 <= j < |items[i].values| :: items[i].values[j] != "") ==>
      forall k | 0 <= k < |r| :: r[k].value != ""
  {
    if |items| == 0 then []
    else
      var it := items[0];
      seq(|it.values|, j requires 0 <= j < |it.values| => Box(BoxLabel(it), it.values[j])) + BoxesOf(items[1..])
  }

  /** `buildBoxes`: the boxes of the items, or a single valueless box awaiting
      the section's content when there are no items. */
  function BuildBoxes(items: seq<DiagramItem>, fallback: string): (r: seq<Box>)
    ensures |items| == 0 ==> r == [Box("Awaiting " + fallback, "")]
    ensures |items| > 0 ==> |r| == ValueCount(items)
  {
    if |items| == 0 then [Box("Awaiting " + fallback, "")] else BoxesOf(items)
  }

  /** A positive count of values for a non-empty list of items with values. */
  lemma {:induction false} ValueCountPositive(items: seq<DiagramItem>)
    requires |items| > 0 && forall i | 0 <= i < |items| :: HasValues(items[i])
    ensures ValueCount(items) >= |items|
    decreases |items|
  {
    if |items| > 1 {
      ValueCountPositive(items[1..]);
    }
  }

  /** For items drawn from `allItems`, a section always shows at least one box,
      and its first box has a value exactly when the section has items: the
      awaiting box is the only valueless one. */
  lemma SectionBoxes(items: seq<DiagramItem>, fallback: string)
    requires NonEmptyValues(items)
    ensures |BuildBoxes(items, fallback)| >= 1
    ensures |items| > 0 <==> BuildBoxes(items, fallback)[0].value != ""
    ensures |items| > 0 ==> forall k | 0 <= k < |BuildBoxes(items, fallback)| :: BuildBoxes(items, fallback)[k].value != ""
  {
    if |items| > 0 {
      ValueCountPositive(items);
    }
  }

  const NodeHeight: nat := 56
  const SectionPadding: nat := 12
  const BoxHeight: nat := 22
  const BoxGap: nat := 6
  const SectionGap: nat := 26
  const MinSectionHeight: nat := NodeHeight + 20
  const TopMargin: nat := 40
  const MaxBoxes: nat := 8

  /** The height a section with the content of `n` boxes needs: the node, its
      padding and one box pitch per box, never less than the minimum. */
  function BoxHeightFor(n: nat): (h: nat)
    ensures h >= MinSectionHeight
    ensures h >= NodeHeight + SectionPadding + n * (BoxHeight + BoxGap)
    ensures h == MinSectionHeight || h == NodeHeight + SectionPadding + n * (BoxHeight + BoxGap)
  {
    var content := NodeHeight + SectionPadding + n * (BoxHeight + BoxGap);
    if content > MinSectionHeight then content else MinSectionHeight
  }

  /** More boxes never make a section shorter. */
  lemma BoxHeightMonotone(m: nat, n: nat)
    requires m <= n
    ensures BoxHeightFor(m) <= BoxHeightFor(n)
  {
    assert m * (BoxHeight + BoxGap) <= n * (BoxHeight + BoxGap);
  }

  /** The top of the `index`-th box of a section starting at `startY`. */
  function BoxY(startY: int, index: nat): int
  {
    startY + NodeHeight + SectionPadding + index * (BoxHeight + BoxGap)
  }

  /** Every box a section draws lies below its node and inside the section's
      height, so it ends before the next section begins. */
  lemma BoxInsideSection(startY: int, n: nat, index: nat)
    requires index < n
    ensures BoxY(startY, index) >= startY + NodeHeight
    ensures BoxY(startY, index) + BoxHeight <= startY + BoxHeightFor(n)
    ensures BoxY(startY, index) + BoxHeight + SectionGap < startY + BoxHeightFor(n) + SectionGap + NodeHeight
  {
    assert index * (BoxHeight + BoxGap) <= (n - 1) * (BoxHeight + BoxGap);
  }

  /** The vertical positions of the four sections and the drawing's height. */
  datatype Layout = Layout(dataY: int, modelY: int, outputY: int, otherY: int, height: int)

  /** Sections stacked from the top margin, each followed by the section gap,
      with a bottom margin after the last. */
  function LayoutFor(dataN: nat, modelN: nat, outputN: nat, otherN: nat): (l: Layout)
    ensures l.dataY == TopMargin
    ensures l.modelY == l.dataY + BoxHeightFor(dataN) + SectionGap
    ensures l.outputY == l.modelY + BoxHeightFor(modelN) + SectionGap
    ensures l.otherY == l.outputY + BoxHeightFor(outputN) + SectionGap
    ensures l.height == l.otherY + BoxHeightFor(otherN) + TopMargin
    ensures l.dataY < l.modelY < l.outputY < l.otherY < l.height
  {
    var dataY := TopMargin;
    var modelY := dataY + BoxHeightFor(dataN) + SectionGap;
    var outputY := modelY + BoxHeightFor(modelN) + SectionGap;
    var otherY := outputY + BoxHeightFor(outputN) + SectionGap;
    Layout(dataY, modelY, outputY, otherY, TopMargin + BoxHeightFor(dataN) + SectionGap + BoxHeightFor(modelN)
           + SectionGap + BoxHeightFor(outputN) + SectionGap + BoxHeightFor(otherN) + TopMargin)
  }

  /** The text of a box: caption and value, or the caption alone. */
  function BoxText(b: Box): string
  {
    if b.value != "" then b.caption + ": " + b.value else b.caption
  }

  /** `renderBoxes`: the texts of at most the first eight boxes, shortened. */
  function RenderedBoxes(boxes: seq<Box>): (r: seq<string>)
    ensures |r| <= MaxBoxes
    ensures |r| == if |boxes| < MaxBoxes then |boxes| else MaxBoxes
    ensures forall i | 0 <= i < |r| :: r[i] == Truncate(BoxText(boxes[i]))
  {
    var shown := if |boxes| < MaxBoxes then boxes else boxes[..MaxBoxes];
    seq(|shown|, i requires 0 <= i < |shown| => Truncate(BoxText(shown[i])))
  }

  /** One drawn section: its boxes, whether it is drawn as answered, and its
      position and height. */
  datatype Section = Section(boxes: seq<Box>, filled: bool, y: int, height: nat)

  /** A drawn section shows at least one box, is as tall as its box count
      needs, and is drawn as answered exactly when its first box has a value. */
  predicate Drawn(s: Section)
  {
    && |s.boxes| >= 1
    && s.height == BoxHeightFor(|s.boxes|)
    && (s.filled <==> s.boxes[0].value != "")
  }

  /** A section of items drawn from `allItems`: its boxes, drawn as answered
      when it has items, at height `y`. */
  function SectionOf(items: seq<DiagramItem>, fallback: string, y: int): (s: Section)
    requires NonEmptyValues(items)
    ensures s.boxes == BuildBoxes(items, fallback) && s.y == y
    ensures Drawn(s)
  {
    SectionBoxes(items, fallback);
    var boxes := BuildBoxes(items, fallback);
    Section(boxes, |items| > 0, y, BoxHeightFor(|boxes|))
  }

  /** The items of the Data, Model, Outputs and Other sections, in drawing order. */
  function SectionItems(qs: seq<Question>, answers: Obj): (parts: seq<seq<DiagramItem>>)
    ensures |parts| == 4
    ensures NonEmptyValues(parts[0]) && NonEmptyValues(parts[1])
    ensures NonEmptyValues(parts[2]) && NonEmptyValues(parts[3])
  {
    var items := AllItems(qs, answers, OptionLabels(qs));
    GroupNormalized(items, DataGroup);
    GroupNormalized(items, ModelGroup);
    GroupNormalized(items, OutputGroup);
    ItemsAreNormalized(items, OtherItems(items));
    [GroupItems(items, DataGroup), GroupItems(items, ModelGroup), GroupItems(items, OutputGroup), OtherItems(items)]
  }

  lemma GroupNormalized(items: seq<DiagramItem>, g: Group)
    requires NonEmptyValues(items)
    ensures NonEmptyValues(GroupItems(items, g))
  {
    ItemsAreNormalized(items, GroupItems(items, g));
  }

  /** What each section's awaiting box waits for. */
  const Fallbacks: seq<string> := ["data", "model", "outputs", "details"]

  /** Four drawn sections, the first at the top margin and each next one
      starting the section gap below the end of the one before. */
  predicate WellStacked(ss: seq<Section>)
  {
    && |ss| == 4
    && Drawn(ss[0]) && Drawn(ss[1]) && Drawn(ss[2]) && Drawn(ss[3])
    && ss[0].y == TopMargin
    && ss[0].y + ss[0].height + SectionGap == ss[1].y
    && ss[1].y + ss[1].height + SectionGap == ss[2].y
    && ss[2].y + ss[2].height + SectionGap == ss[3].y
  }

  /** The sections laid out from the top margin. */
  function Stacked(parts: seq<seq<DiagramItem>>): (ss: seq<Section>)
    requires |parts| == 4
    requires NonEmptyValues(parts[0]) && NonEmptyValues(parts[1])
    requires NonEmptyValues(parts[2]) && NonEmptyValues(parts[3])
    ensures WellStacked(ss)
  {
    var l := LayoutFor(|BuildBoxes(parts[0], Fallbacks[0])|, |BuildBoxes(parts[1], Fallbacks[1])|,
                       |BuildBoxes(parts[2], Fallbacks[2])|, |BuildBoxes(parts[3], Fallbacks[3])|);
    [SectionOf(parts[0], Fallbacks[0], l.dataY), SectionOf(parts[1], Fallbacks[1], l.modelY),
     SectionOf(parts[2], Fallbacks[2], l.outputY), SectionOf(parts[3], Fallbacks[3], l.otherY)]
  }

  /** The four sections in drawing order, or nothing for a template without
      questions (the component shows a hint instead). */
  function Diagram(qs: seq<Question>, answers: Obj): (r: Option<seq<Section>>)
    ensures r.None? <==> |qs| == 0
    ensures r.Some? ==> WellStacked(r.value)
  {
    if |qs| == 0 then None else Some(Stacked(SectionItems(qs, answers)))
  }

  /** A selection of `allItems` keeps the property that every item has only
      non-empty values. */
  lemma ItemsAreNormalized(items: seq<DiagramItem>, part: seq<DiagramItem>)
    requires NonEmptyValues(items)
    requires Within(part, items)
    ensures NonEmptyValues(part)
  {
    forall i | 0 <= i < |part|
      ensures HasValues(part[i]) && forall j | 0 <= j < |part[i].values| :: part[i].values[j] != ""
    {
      var k :| 0 <= k < |items| && items[k] == part[i];
    }
  }
}
