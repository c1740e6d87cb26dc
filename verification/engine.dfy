/** The backend's question flow: which questions are visible for the answers
    given so far, which one comes next, and how far the questionnaire has got. */
module Engine {
  import opened Json
  import opened Schema

  /** The operator names a condition may carry. */
  const EqualsOp: string := "equals"
  const NotEqualsOp: string := "not_equals"
  const ContainsOp: string := "contains"
  const NotContainsOp: string := "not_contains"

  /** Python's `value in answer` for a list answer: only a string can equal an
      element (the elements are strings or records). */
  predicate InAnswerList(items: seq<Item>, v: Value)
  {
    v.Str? && Atom(v.s) in items
  }

  /** One visibility condition. An absent or null answer fails every condition;
      an unknown operator fails too. */
  function EvaluateCondition(c: Condition, answers: Obj): (r: bool)
    ensures Get(answers, c.field).None? || Get(answers, c.field) == Some(Null) ==> !r
    ensures c.operator !in {EqualsOp, NotEqualsOp, ContainsOp, NotContainsOp} ==> !r
  {
    match Get(answers, c.field)
    case None => false
    case Some(answer) =>
      if answer == Null then false
      else if c.operator == EqualsOp then answer == c.value
      else if c.operator == NotEqualsOp then answer != c.value
      else if c.operator == ContainsOp then
        if answer.List? then InAnswerList(answer.items, c.value) else answer == c.value
      else if c.operator == NotContainsOp then
        if answer.List? then !InAnswerList(answer.items, c.value) else answer != c.value
      else false
  }

  /** For a present, non-null answer, `not_equals` is the negation of `equals` and
      `not_contains` the negation of `contains`; `contains` is list membership for a
      list answer and equality otherwise. */
  lemma OperatorsComplement(field: string, v: Value, answers: Obj)
    requires Get(answers, field).Some? && Get(answers, field) != Some(Null)
    ensures EvaluateCondition(Condition(field, NotEqualsOp, v), answers)
      == !EvaluateCondition(Condition(field, EqualsOp, v), answers)
    ensures EvaluateCondition(Condition(field, NotContainsOp, v), answers)
      == !EvaluateCondition(Condition(field, ContainsOp, v), answers)
    ensures var a := Get(answers, field).value;
      EvaluateCondition(Condition(field, ContainsOp, v), answers)
        == (if a.List? then exists i | 0 <= i < |a.items| :: v.Str? && a.items[i] == Atom(v.s) else a == v)
  {
  }

  /** A question is shown when every one of its conditions holds (in particular when
      it has none). */
  predicate ShouldShow(q: Question, answers: Obj)
  {
    forall i | 0 <= i < |q.conditions| :: EvaluateCondition(q.conditions[i], answers)
  }

  /** `should_show_question`: with no conditions the question is shown; otherwise the
      conditions are checked in order and the first one that fails hides it. */
  method ShouldShowQuestion(q: Question, answers: Obj) returns (r: bool)
    ensures r <==> ShouldShow(q, answers)
    ensures |q.conditions| == 0 ==> r
  {
    if |q.conditions| == 0 {
      return true;
    }
    var i := 0;
    while i < |q.conditions|
      invariant 0 <= i <= |q.conditions|
      invariant forall j | 0 <= j < i :: EvaluateCondition(q.conditions[j], answers)
    {
      if !EvaluateCondition(q.conditions[i], answers) {
        return false;
      }
      i := i + 1;
    }
    return true;
  }

  /** Still to be asked: visible and not answered (an answer of null counts as given). */
  predicate Pending(q: Question, answers: Obj)
  {
    q.id !in Keys(answers) && ShouldShow(q, answers)
  }

  /** The position of the first pending question, in template order. */
  function FirstPending(qs: seq<Question>, answers: Obj): (r: Option<nat>)
    ensures r.Some? ==> r.value < |qs| && Pending(qs[r.value], answers)
    ensures r.Some? ==> forall j | 0 <= j < r.value :: !Pending(qs[j], answers)
    ensures r.None? <==> forall j | 0 <= j < |qs| :: !Pending(qs[j], answers)
  {
    if |qs| == 0 then None
    else if Pending(qs[0], answers) then Some(0)
    else
      match FirstPending(qs[1..], answers)
      case Some(i) => Some(i + 1)
      case None => None
  }

  /** `get_next_question`: the first question, in template order, that is visible
      and unanswered; `None` when the questionnaire is complete. The result is
      the question's position in the template. */
  method GetNextQuestion(qs: seq<Question>, answers: Obj) returns (r: Option<nat>)
    ensures r.Some? ==> r.value < |qs| && Pending(qs[r.value], answers)
    ensures r.Some? ==> forall j | 0 <= j < r.value :: !Pending(qs[j], answers)
    ensures r.None? <==> forall j | 0 <= j < |qs| :: !Pending(qs[j], answers)
    ensures r == FirstPending(qs, answers)
  {
    var i := 0;
    while i < |qs|
      invariant 0 <= i <= |qs|
      invariant forall j | 0 <= j < i :: !Pending(qs[j], answers)
    {
      if qs[i].id in Keys(answers) {
        i := i + 1;
        continue;
      }
      if ShouldShow(qs[i], answers) {
        FirstPendingUnique(qs, answers, i);
        return Some(i);
      }
      i := i + 1;
    }
    return None;
  }

  /** The first pending position is determined by the characterisation. */
  lemma FirstPendingUnique(qs: seq<Question>, answers: Obj, i: nat)
    requires i < |qs| && Pending(qs[i], answers)
    requires forall j | 0 <= j < i :: !Pending(qs[j], answers)
    ensures FirstPending(qs, answers) == Some(i)
  {
    var r := FirstPending(qs, answers);
    assert r.Some?;
    assert Pending(qs[r.value], answers);
  }

  /** A visible question with its answer state: `answered` says whether its id is a
      key of the answers; `answer` is the stored value, null when absent. */
  datatype VisibleQuestion = VisibleQuestion(question: Question, answered: bool, answer: Value)

  function AnswerOf(answers: Obj, id: string): (r: Value)
    ensures Get(answers, id).Some? ==> r == Get(answers, id).value
    ensures Get(answers, id).None? ==> r == Null
  {
    match Get(answers, id)
    case Some(v) => v
    case None => Null
  }

  /** The positions of the visible questions, in template order. */
  function VisibleIndices(qs: seq<Question>, answers: Obj): (ix: seq<nat>)
    ensures forall k | 0 <= k < |ix| :: ix[k] < |qs| && ShouldShow(qs[ix[k]], answers)
    ensures forall k, l | 0 <= k < l < |ix| :: ix[k] < ix[l]
    ensures forall i | 0 <= i < |qs| && ShouldShow(qs[i], answers) :: i in ix
  {
    if |qs| == 0 then []
    else
      var n := |qs| - 1;
      var prev := VisibleIndices(qs[..n], answers);
      assert forall k | 0 <= k < |prev| :: qs[..n][prev[k]] == qs[prev[k]];
      if ShouldShow(qs[n], answers) then prev + [n] else prev
  }

  /** `get_all_visible_questions`: the visible questions in template order, each with
      whether it is answered and its answer. */
  function VisibleQuestions(qs: seq<Question>, answers: Obj): (r: seq<VisibleQuestion>)
    ensures var ix := VisibleIndices(qs, answers);
      && |r| == |ix|
      && forall k | 0 <= k < |r| ::
           && r[k].question == qs[ix[k]]
           && r[k].answered == (qs[ix[k]].id in Keys(answers))
           && r[k].answer == AnswerOf(answers, qs[ix[k]].id)
  {
    var ix := VisibleIndices(qs, answers);
    seq(|ix|, k requires 0 <= k < |ix| =>
      VisibleQuestion(qs[ix[k]], qs[ix[k]].id in Keys(answers), AnswerOf(answers, qs[ix[k]].id)))
  }

  /** Every question of the visible list is shown, and every shown question is in it. */
  lemma VisibleQuestionsExact(qs: seq<Question>, answers: Obj)
    ensures forall k | 0 <= k < |VisibleQuestions(qs, answers)| ::
      ShouldShow(VisibleQuestions(qs, answers)[k].question, answers)
    ensures forall i | 0 <= i < |qs| && ShouldShow(qs[i], answers) ::
      exists k | 0 <= k < |VisibleQuestions(qs, answers)| :: VisibleQuestions(qs, answers)[k].question == qs[i]
  {
    var r := VisibleQuestions(qs, answers);
    var ix := VisibleIndices(qs, answers);
    forall i | 0 <= i < |qs| && ShouldShow(qs[i], answers)
      ensures exists k | 0 <= k < |r| :: r[k].question == qs[i]
    {
      var k :| 0 <= k < |ix| && ix[k] == i;
      assert r[k].question == qs[i];
    }
  }

  /** The positions of the entries marked answered. */
  function AnsweredAt(vs: seq<VisibleQuestion>): set<nat>
  {
    set k: nat | k < |vs| && vs[k].answered
  }

  /** The number of entries marked answered, counted from the end. */
  function CountAnswered(vs: seq<VisibleQuestion>): (n: nat)
    ensures n == |AnsweredAt(vs)|
    ensures n <= |vs|
    ensures n == |vs| <==> forall k | 0 <= k < |vs| :: vs[k].answered
  {
    if |vs| == 0 then
      assert AnsweredAt(vs) == {};
      0
    else
      var init := vs[..|vs| - 1];
      AnsweredAtSnoc(vs);
      assert forall k | 0 <= k < |init| :: init[k] == vs[k];
      CountAnswered(init) + (if vs[|vs| - 1].answered then 1 else 0)
  }

  /** The answered positions of a list: those of all but its last entry, and the
      last position when that entry is answered. */
  lemma AnsweredAtSnoc(vs: seq<VisibleQuestion>)
    requires |vs| > 0
    ensures |vs| - 1 !in AnsweredAt(vs[..|vs| - 1])
    ensures AnsweredAt(vs) == AnsweredAt(vs[..|vs| - 1]) + (if vs[|vs| - 1].answered then {|vs| - 1} else {})
  {
    var init := vs[..|vs| - 1];
    assert forall k | 0 <= k < |init| :: init[k] == vs[k];
  }

  /** Euclidean division is determined by quotient and remainder. */
  lemma DivModUnique(x: int, t: int, q: int, r: int)
    requires t > 0 && 0 <= r < t && x == q * t + r
    ensures x / t == q && x % t == r
  {
    var q' := x / t;
    var r' := x % t;
    assert x == q' * t + r';
    var d := q' - q;
    assert d * t == r - r';
    assert d >= 1 ==> d * t >= t;
    assert d <= -1 ==> d * t <= -t;
  }

  /** The quotient of the percentage never exceeds 100, and reaches it only exactly. */
  lemma QuotientBounds(answered: nat, total: nat)
    requires 0 < total && answered <= total
    ensures (100 * answered) / total <= 100
    ensures (100 * answered) / total == 100 ==> (100 * answered) % total == 0
  {
    var q := (100 * answered) / total;
    var rem := (100 * answered) % total;
    assert 100 * answered == q * total + rem;
    assert q * total <= 100 * total;
    assert (100 - q) * total >= 0;
    assert q == 100 ==> rem == 100 * answered - 100 * total;
  }

  /** Python's `round(answered / total * 100)` taken on the exact quotient: the
      nearest integer, and the even one on a tie. */
  function RoundedPercentage(answered: nat, total: nat): (p: nat)
    requires answered <= total
    ensures total == 0 ==> p == 0
    ensures p <= 100
  {
    if total == 0 then 0
    else
      var q := (100 * answered) / total;
      var rem := (100 * answered) % total;
      QuotientBounds(answered, total);
      if 2 * rem < total then q
      else if 2 * rem > total || q % 2 == 1 then q + 1
      else q
  }

  /** The rounded percentage is within one half of the exact one, is even on a tie,
      and is 0 and 100 at the ends. */
  lemma RoundedPercentageNearest(answered: nat, total: nat)
    requires 0 < total && answered <= total
    ensures var p := RoundedPercentage(answered, total);
      && 2 * (p * total - 100 * answered) <= total
      && 2 * (100 * answered - p * total) <= total
      && (2 * (p * total - 100 * answered) == total || 2 * (100 * answered - p * total) == total ==> p % 2 == 0)
  {
    var q := (100 * answered) / total;
    var rem := (100 * answered) % total;
    assert 100 * answered == q * total + rem;
    assert (q + 1) * total == q * total + total;
  }

  /** No answers give 0 percent; all answers give 100. */
  lemma PercentageEnds(answered: nat, total: nat)
    requires answered <= total
    ensures answered == 0 ==> RoundedPercentage(answered, total) == 0
    ensures 0 < total && answered == total ==> RoundedPercentage(answered, total) == 100
  {
    if 0 < total {
      DivModUnique(0, total, 0, 0);
      DivModUnique(100 * total, total, 100, 0);
    }
  }

  /** The progress record: answered visible questions, visible questions, and the
      rounded percentage. */
  datatype Progress = Progress(answered: nat, total: nat, percentage: nat)

  /** `calculate_progress`. */
  function CalculateProgress(qs: seq<Question>, answers: Obj): (r: Progress)
    ensures r.answered <= r.total && r.percentage <= 100
    ensures r.total == |VisibleIndices(qs, answers)|
    ensures r.answered == |AnsweredAt(VisibleQuestions(qs, answers))|
    ensures r.total == 0 ==> r.percentage == 0
    ensures r.total > 0 && r.answered == r.total ==> r.percentage == 100
    ensures r.answered == 0 ==> r.percentage == 0
  {
    var vs := VisibleQuestions(qs, answers);
    var a := CountAnswered(vs);
    PercentageEnds(a, |vs|);
    Progress(a, |vs|, RoundedPercentage(a, |vs|))
  }

  /** There is no next question exactly when every visible question is answered. */
  lemma NextNoneIffComplete(qs: seq<Question>, answers: Obj)
    ensures FirstPending(qs, answers).None? <==>
      CalculateProgress(qs, answers).answered == CalculateProgress(qs, answers).total
  {
    var vs := VisibleQuestions(qs, answers);
    var ix := VisibleIndices(qs, answers);
    if FirstPending(qs, answers).None? {
      forall k | 0 <= k < |vs| ensures vs[k].answered {
        assert !Pending(qs[ix[k]], answers);
      }
    } else {
      var i := FirstPending(qs, answers).value;
      var k :| 0 <= k < |ix| && ix[k] == i;
      assert !vs[k].answered;
    }
  }
}
