/** Worked renderings of the prompt preview on concrete templates. Each example
    names its pieces as parameters pinned to the concrete strings by its requires,
    and the template is assembled from them with `Placeholder` and `Block`, so
    `Hello {{name}}` is `a + Placeholder(k) + e` with `a == "Hello "`,
    `k == "name"` and `e == ""`. The facts about the concrete strings are proved
    apart from the rendering. */
module PromptExamples {
  import opened Json
  import opened Text
  import opened Labels
  import opened PromptCondition
  import opened PromptPreview
  import opened PromptRender
  import opened PromptOutput

  lemma HelloFacts(a: string, k: string, e: string)
    requires a == "Hello " && k == "name" && e == ""
    ensures !Includes(a, "{%") && !Includes(a, "{{") && !Includes(e, "{%") && !Includes(e, "{{")
    ensures |a| > 0 && !IsJsSpace(a[0]) && |k| > 0 && AllWordChars(k)
    ensures a + "[" + k + "]" + e == "Hello [name]"
  {
    MissingFirstChar(a, "{%");
    MissingFirstChar(a, "{{");
    MissingFirstChar(e, "{%");
    MissingFirstChar(e, "{{");
  }

  /** `Hello {{name}}` with nothing answered shows the placeholder in brackets. */
  lemma UnknownShownInBrackets(a: string, k: string, e: string, ctx: Obj, labels: LabelIndex)
    requires a == "Hello " && k == "name" && e == "" && ctx == []
    ensures RenderText(a + Placeholder(k) + e, ctx, labels) == "Hello [name]"
  {
    HelloFacts(a, k, e);
    RendersUnknownUntrimmed(a, k, e, ctx, labels);
  }

  lemma FlagFacts(c: string, body: string, post: string, ctx: Obj)
    requires c == "flag" && body == "X" && post == "Y" && ctx == []
    ensures CanonicalCond(c) && AllWordChars(c) && !JsTruthy(Get(ctx, c))
    ensures !Includes(body, "{%") && !Includes(post, "{%") && !Includes(post, "{{")
    ensures |post| > 0 && !IsJsSpace(post[0]) && !IsJsSpace(post[|post| - 1])
  {
    MissingFirstChar(body, "{%");
    MissingFirstChar(post, "{%");
    MissingFirstChar(post, "{{");
  }

  /** `{% if flag %}X{% endif %}Y` with `flag` unanswered drops the block's body. */
  lemma AbsentFlagDropsBlock(c: string, body: string, post: string, ctx: Obj, labels: LabelIndex)
    requires c == "flag" && body == "X" && post == "Y" && ctx == []
    ensures RenderText(Block(c, body) + post, ctx, labels) == "Y"
  {
    FlagFacts(c, body, post, ctx);
    FalsyBlockDropped(c, body, post, ctx);
    RendersExpansion(Block(c, body) + post, ctx, labels);
  }

  lemma ProjectPieceFacts(a: string, nl: string, body: string)
    requires a == "Project: " && nl == "\n" && body == "Uses Python."
    ensures !Includes(a, "{%") && !Includes(a, "{{") && !Includes(nl, "{%") && !Includes(body, "{%")
    ensures nl[|nl| - 1] != '{'
  {
    MissingFirstChar(a, "{%");
    MissingFirstChar(a, "{{");
    MissingFirstChar(nl, "{%");
    MissingFirstChar(body, "{%");
  }

  lemma ProjectTailFacts(nl: string, body: string)
    requires nl == "\n" && body == "Uses Python."
    ensures !Includes(nl + body, "{%") && !Includes(nl + body, "{{")
  {
    MissingFirstChar(nl + body, "{%");
    MissingFirstChar(nl + body, "{{");
  }

  lemma ProjectResultFacts(a: string, v: string, nl: string, body: string)
    requires a == "Project: " && v == "Demo" && nl == "\n" && body == "Uses Python."
    ensures !Includes(a + v + (nl + body), "{{") && Unpadded(a + v + (nl + body))
    ensures a + v + (nl + body) == "Project: Demo\nUses Python."
  {
    MissingFirstChar(a + v + (nl + body), "{{");
  }

  lemma ProjectKeyFacts(k: string, ctx: Obj, labels: LabelIndex)
    requires k == "project_name" && labels == map[]
    requires ctx == [("project_name", Str("Demo")), ("languages", List([Atom("python"), Atom("go")]))]
    ensures |k| > 0 && AllWordChars(k) && IdentKeys(ctx) && k in Keys(ctx)
    ensures FormatValue(labels, k, Get(ctx, k)) == "Demo"
  {
    WordKey(k);
    ProjectKeys(ctx);
    ProjectName(k, ctx, labels);
  }

  lemma ProjectName(k: string, ctx: Obj, labels: LabelIndex)
    requires k == "project_name" && labels == map[]
    requires ctx == [("project_name", Str("Demo")), ("languages", List([Atom("python"), Atom("go")]))]
    ensures FormatValue(labels, k, Get(ctx, k)) == "Demo"
  {
    assert Get(ctx, k) == Some(Str("Demo"));
  }

  lemma ProjectKeys(ctx: Obj)
    requires ctx == [("project_name", Str("Demo")), ("languages", List([Atom("python"), Atom("go")]))]
    ensures Keys(ctx) == {"project_name", "languages"} && IdentKeys(ctx)
  {
    var k0, k1 := ctx[0].0, ctx[1].0;
    assert Keys(ctx) == {k0, k1} by {
      assert Keys(ctx[1..][1..]) == {};
    }
    WordKey(k0);
    WordKey(k1);
  }

  lemma WordKey(k: string)
    requires k == "project_name" || k == "languages"
    ensures |k| > 0 && AllWordChars(k)
  {
  }

  lemma LanguagesName(n: string)
    requires n == "languages"
    ensures |n| > 0 && AllWordChars(n)
  {
  }

  lemma PythonNeedle(lit: string)
    requires lit == "python"
    ensures |lit| > 0 && '\'' !in lit && '%' !in lit
    ensures forall i | 0 <= i < |lit| :: !IsLineTerminator(lit[i])
  {
  }

  lemma ProjectConditionFacts(p: Pred)
    requires p == Contains("languages", "python")
    ensures WellFormed(p) && CanonicalCond(Show(p))
  {
    LanguagesName(p.name);
    PythonNeedle(p.needle);
    ShowContainsCanonical(p.name, p.needle);
  }

  lemma ProjectConditionText(p: Pred)
    requires p == Contains("languages", "python")
    ensures Show(p) == "languages contains 'python'"
  {
  }

  lemma ProjectConditionHolds(p: Pred, ctx: Obj)
    requires p == Contains("languages", "python")
    requires ctx == [("project_name", Str("Demo")), ("languages", List([Atom("python"), Atom("go")]))]
    ensures Eval(p, ctx)
  {
    var rest := Rest(ctx);
    assert Get(rest, "languages") == Some(List([Atom("python"), Atom("go")]));
  }

  /** A placeholder, a line break and a block whose condition holds expand to the
      placeholder, the line break and the block's body. */
  lemma PlaceholderThenShownBlock(a: string, k: string, nl: string, p: Pred, body: string, ctx: Obj)
    requires |k| > 0 && AllWordChars(k)
    requires !Includes(a, "{%") && !Includes(a, "{{") && !Includes(nl, "{%") && !Includes(body, "{%")
    requires |nl| > 0 && nl[|nl| - 1] != '{'
    requires WellFormed(p) && CanonicalCond(Show(p)) && Eval(p, ctx)
    ensures Expand(a + Placeholder(k) + nl + Block(Show(p), body), ctx) == a + Placeholder(k) + (nl + body)
  {
    var pre := a + Placeholder(k) + nl;
    NoTagAround(a, k, nl);
    assert pre[|pre| - 1] == nl[|nl| - 1];
    PrefixedBlock(pre, p, body, ctx);
    ConcatAssoc(a + Placeholder(k), nl, body);
  }

  /** A text that expands to a known placeholder between tag-free pieces renders as
      the value between those pieces. */
  lemma ExpandsToKnown(text: string, a: string, k: string, b: string, ctx: Obj, labels: LabelIndex)
    requires Expand(text, ctx) == a + Placeholder(k) + b
    requires |k| > 0 && AllWordChars(k) && IdentKeys(ctx) && k in Keys(ctx)
    requires !Includes(a, "{%") && !Includes(b, "{%") && !Includes(a, "{{") && !Includes(b, "{{")
    requires !Includes(a + FormatValue(labels, k, Get(ctx, k)) + b, "{{")
    requires Unpadded(a + FormatValue(labels, k, Get(ctx, k)) + b)
    ensures RenderText(text, ctx, labels) == a + FormatValue(labels, k, Get(ctx, k)) + b
  {
    NoTagAround(a, k, b);
    RendersLikeExpansion(text, a + Placeholder(k) + b, ctx, labels);
    RendersKnownUntrimmed(a, k, b, ctx, labels);
  }

  /** `Project: {{project_name}}` on one line and a block on `languages contains
      'python'` on the next, rendered against a project named Demo that uses Python. */
  lemma ProjectSummary(a: string, k: string, nl: string, p: Pred, body: string, ctx: Obj, labels: LabelIndex)
    requires a == "Project: " && k == "project_name" && nl == "\n"
    requires p == Contains("languages", "python") && body == "Uses Python."
    requires ctx == [("project_name", Str("Demo")), ("languages", List([Atom("python"), Atom("go")]))]
    requires labels == map[]
    ensures Show(p) == "languages contains 'python'"
    ensures RenderText(a + Placeholder(k) + nl + Block(Show(p), body), ctx, labels) == "Project: Demo\nUses Python."
  {
    ProjectPieceFacts(a, nl, body);
    ProjectTailFacts(nl, body);
    ProjectKeyFacts(k, ctx, labels);
    ProjectResultFacts(a, FormatValue(labels, k, Get(ctx, k)), nl, body);
    ProjectConditionFacts(p);
    ProjectConditionText(p);
    ProjectConditionHolds(p, ctx);
    PlaceholderThenShownBlock(a, k, nl, p, body, ctx);
    ExpandsToKnown(a + Placeholder(k) + nl + Block(Show(p), body), a, k, nl + body, ctx, labels);
  }
}
