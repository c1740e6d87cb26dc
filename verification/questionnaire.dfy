/** The questionnaire screen's local state: recording a changed answer and
    deciding whether the user may finish. */
module Questionnaire {
  import opened Json
  import opened Schema
  import opened PromptPreview

  /** `handleAnswerChange`: the local answers with only this question's key
      overwritten (a new key goes last). */
  function AnswerChanged(local: Obj, qid: string, answer: Value): (r: Obj)
    ensures Get(r, qid) == Some(answer)
    ensures forall k | k != qid :: Get(r, k) == Get(local, k)
    ensures Keys(r) == Keys(local) + {qid}
  {
    Set(local, qid, answer)
  }

  /** What a required question needs before finishing: a non-empty list for a
      multi-choice question, any value other than null or '' for the rest (a
      string of blanks counts). An optional question never blocks. */
  predicate Satisfied(q: Question, local: Obj)
  {
    !q.required ||
    (if q.kind == MultiChoice then (match Get(local, q.id) case Some(List(items)) => |items| > 0 case _ => false)
     else !IsBlank(Get(local, q.id)))
  }

  /** `canFinish`: false without a question list from the server, otherwise
      whether every listed question is satisfied. */
  method CanFinish(visible: Option<seq<Question>>, local: Obj) returns (r: bool)
    ensures visible.None? ==> !r
    ensures visible.Some? ==> (r <==> forall i | 0 <= i < |visible.value| :: Satisfied(visible.value[i], local))
  {
    if visible.None? {
      return false;
    }
    var qs := visible.value;
    var i := 0;
    while i < |qs|
      invariant 0 <= i <= |qs|
      invariant forall j | 0 <= j < i :: Satisfied(qs[j], local)
    {
      if !Satisfied(qs[i], local) {
        return false;
      }
      i := i + 1;
    }
    return true;
  }

  /** Giving every question with that id an answer that satisfies it never
      takes away the ability to finish. */
  lemma AnswerKeepsFinish(qs: seq<Question>, local: Obj, qid: string, answer: Value)
    requires forall i | 0 <= i < |qs| :: Satisfied(qs[i], local)
    requires forall i | 0 <= i < |qs| && qs[i].id == qid :: Satisfied(qs[i], Set([], qid, answer))
    ensures forall i | 0 <= i < |qs| :: Satisfied(qs[i], AnswerChanged(local, qid, answer))
  {
    var changed := AnswerChanged(local, qid, answer);
    forall i | 0 <= i < |qs| ensures Satisfied(qs[i], changed) {
      if qs[i].id == qid {
        assert Get(changed, qid) == Get(Set([], qid, answer), qid);
      } else {
        assert Get(changed, qs[i].id) == Get(local, qs[i].id);
      }
    }
  }

  /** Clearing a required question's answer blocks finishing. */
  lemma ClearingBlocks(q: Question, local: Obj)
    requires q.required
    ensures !Satisfied(q, AnswerChanged(local, q.id, Str("")))
    ensures !Satisfied(q, AnswerChanged(local, q.id, Null))
  {
  }

  /** A blank-only text answers a required text question. */
  lemma BlanksCount(q: Question, local: Obj)
    requires q.required && q.kind == TextInput
    ensures Satisfied(q, AnswerChanged(local, q.id, Str(" ")))
  {
  }
}
