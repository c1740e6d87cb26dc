/** The questionnaire template: question definitions and output definitions.
    A template is loaded once per session and never changes. */
module Schema {
  import opened Json

  datatype Kind = TextInput | TextArea | SingleChoice | MultiChoice | Repeatable

  /** One selectable option of a choice question. */
  datatype Choice = Choice(id: string, labelText: string)

  /** One field of a repeatable question's records. */
  datatype Field = Field(id: string)

  /** A visibility condition: `{field, operator, value}`. */
  datatype Condition = Condition(field: string, operator: string, value: Value)

  /** A question definition. `options` is `None` when the question declares no
      options; `defaultValue` is `None` when no default is given; an empty
      `section` or `prompt` stands for a missing one. */
  datatype Question = Question(
    id: string,
    kind: Kind,
    prompt: string,
    options: Option<seq<Choice>>,
    fields: seq<Field>,
    defaultValue: Option<Value>,
    section: string,
    required: bool,
    conditions: seq<Condition>)

  datatype OutputKind = DocumentOutput | PromptOutput

  /** An output definition; `name` is `None` when the definition gives none. */
  datatype OutputDef = OutputDef(kind: OutputKind, name: Option<string>, text: string)

  datatype Template = Template(questions: seq<Question>, outputs: seq<OutputDef>)

  /** The ids of the questions that satisfy `p`. */
  function IdsWhere(qs: seq<Question>, p: Question -> bool): set<string>
  {
    set i | 0 <= i < |qs| && p(qs[i]) :: qs[i].id
  }

  /** No later question satisfying `p` repeats the id of question `i`. */
  predicate LastWhere(qs: seq<Question>, i: nat, p: Question -> bool)
    requires i < |qs|
  {
    forall j | i < j < |qs| :: p(qs[j]) ==> qs[j].id != qs[i].id
  }

  lemma IdsWhereSnoc(qs: seq<Question>, p: Question -> bool)
    requires |qs| > 0
    ensures IdsWhere(qs, p) == IdsWhere(qs[..|qs| - 1], p)
      + (if p(qs[|qs| - 1]) then {qs[|qs| - 1].id} else {})
  {
    var n := |qs| - 1;
    var init := qs[..n];
    forall k | k in IdsWhere(qs, p)
      ensures k in IdsWhere(init, p) + (if p(qs[n]) then {qs[n].id} else {})
    {
      var i :| 0 <= i < |qs| && p(qs[i]) && qs[i].id == k;
      if i < n { assert init[i] == qs[i]; }
    }
    forall k | k in IdsWhere(init, p) ensures k in IdsWhere(qs, p) {
      var i :| 0 <= i < n && p(init[i]) && init[i].id == k;
      assert qs[i] == init[i];
    }
  }

  lemma LastWhereSnoc(qs: seq<Question>, p: Question -> bool)
    requires |qs| > 0
    ensures var n := |qs| - 1;
      forall i | 0 <= i < n && p(qs[i]) && LastWhere(qs, i, p) ::
        qs[..n][i] == qs[i] && LastWhere(qs[..n], i, p) && (p(qs[n]) ==> qs[i].id != qs[n].id)
  {
  }
}

/** The option-label index: question id -> (option id -> label). The three preview
    components build it the same way. */
module Labels {
  import opened Json
  import opened Schema

  type LabelIndex = map<string, map<string, string>>

  /** No later option repeats the id of option `i`. */
  predicate LastChoice(options: seq<Choice>, i: nat)
    requires i < |options|
  {
    forall j | i < j < |options| :: options[j].id != options[i].id
  }

  /** The option ids of a choice list. */
  function ChoiceIds(options: seq<Choice>): set<string>
  {
    set i | 0 <= i < |options| :: options[i].id
  }

  lemma ChoiceIdsSnoc(options: seq<Choice>)
    requires |options| > 0
    ensures ChoiceIds(options) == ChoiceIds(options[..|options| - 1]) + {options[|options| - 1].id}
  {
    var n := |options| - 1;
    var init := options[..n];
    forall k | k in ChoiceIds(options) ensures k in ChoiceIds(init) + {options[n].id} {
      var i :| 0 <= i < |options| && options[i].id == k;
      if i < n { assert init[i] == options[i]; }
    }
    forall k | k in ChoiceIds(init) ensures k in ChoiceIds(options) {
      var i :| 0 <= i < n && init[i].id == k;
      assert options[i] == init[i];
    }
  }

  lemma LastChoiceSnoc(options: seq<Choice>)
    requires |options| > 0
    ensures var n := |options| - 1;
      forall i | 0 <= i < n && LastChoice(options, i) ::
        options[..n][i] == options[i] && LastChoice(options[..n], i) && options[i].id != options[n].id
  {
  }

  /** Option id -> label; when an id repeats, the later option wins. */
  function ChoiceLabels(options: seq<Choice>): (m: map<string, string>)
    ensures m.Keys == ChoiceIds(options)
    ensures forall i | 0 <= i < |options| && LastChoice(options, i) :: m[options[i].id] == options[i].labelText
  {
    if |options| == 0 then map[]
    else
      var n := |options| - 1;
      ChoiceIdsSnoc(options);
      LastChoiceSnoc(options);
      ChoiceLabels(options[..n])[options[n].id := options[n].labelText]
  }

  predicate HasOptions(q: Question)
  {
    q.options.Some?
  }

  /** The index holds an entry exactly for the questions that declare options; a
      later question with the same id replaces an earlier one. */
  function OptionLabels(qs: seq<Question>): (r: LabelIndex)
    ensures r.Keys == IdsWhere(qs, HasOptions)
    ensures forall i | 0 <= i < |qs| && HasOptions(qs[i]) && LastWhere(qs, i, HasOptions) ::
      r[qs[i].id] == ChoiceLabels(qs[i].options.value)
  {
    if |qs| == 0 then map[]
    else
      var n := |qs| - 1;
      var prev := OptionLabels(qs[..n]);
      var q := qs[n];
      IdsWhereSnoc(qs, HasOptions);
      LastWhereSnoc(qs, HasOptions);
      if q.options.Some? then prev[q.id := ChoiceLabels(q.options.value)] else prev
  }

  /** With distinct question ids and an option id not repeated later, the index maps
      the option id to its label. */
  lemma OptionLabelsDistinct(qs: seq<Question>, i: nat, k: nat)
    requires i < |qs| && qs[i].options.Some? && k < |qs[i].options.value|
    requires forall a, b | 0 <= a < b < |qs| :: qs[a].id != qs[b].id
    requires LastChoice(qs[i].options.value, k)
    ensures qs[i].id in OptionLabels(qs)
    ensures OptionLabels(qs)[qs[i].id][qs[i].options.value[k].id] == qs[i].options.value[k].labelText
  {
    assert LastWhere(qs, i, HasOptions);
  }

  /** `labels[code] || code` for the labels of question `qid`, falling back to the raw
      code when the question has no labels, the code is unknown, or its label is empty. */
  function DisplayCode(labels: LabelIndex, qid: string, code: string): (r: string)
    ensures qid in labels && code in labels[qid] && labels[qid][code] != "" ==> r == labels[qid][code]
    ensures !(qid in labels && code in labels[qid]) ==> r == code
    ensures r == "" ==> code == ""
  {
    if qid in labels && code in labels[qid] && labels[qid][code] != "" then labels[qid][code] else code
  }
}
