/** The backend renderer behind `generate_outputs`: conditional blocks on a bare
    identifier, `{{key}}` replacement from the raw answers (plus the inventory
    table), then `strip()`. Unlike the prompt preview it takes no defaults, tests
    Python truthiness, and leaves an unknown placeholder as it stands. */
module EngineRender {
  import opened Json
  import opened Text
  import opened Schema
  import opened Labels
  import opened Inventory
  import opened PromptPreview
  import opened PromptCondition
  import opened PromptRender
  import opened PromptOutput

  lemma PyTagBlanks()
    ensures TagBlanks(IsPySpace)
  {
  }

  /** `\{%\s*if\s+(\w+)\s*%\}(.*?)\{%\s*endif\s*%\}` (dot matching newlines) anchored at
      the start of `t`. Every repetition before the body is followed by a character
      it cannot match, so the only choice is where the lazy body stops: at the first
      closing tag. */
  function PyMatchIf(t: string): (r: Option<IfMatch>)
    ensures r.Some? ==> 0 < r.value.len <= |t| && |r.value.body| < r.value.len
    ensures r.Some? ==> |r.value.cond| > 0 && AllWordChars(r.value.cond)
    ensures !StartsWith(t, "{%") ==> r.None?
  {
    match PyOpenTag(t)
    case None => None
    case Some((k, w, b)) =>
      match FindEndif(t, b, IsPySpace)
      case None => None
      case Some((j, end)) => Some(IfMatch(t[k..w], t[b..j], end))
  }

  /** The opening tag `\{%\s*if\s+(\w+)\s*%\}` at the start of `t`: where the
      identifier starts and ends, and where the body starts. */
  function PyOpenTag(t: string): (r: Option<(nat, nat, nat)>)
    ensures r.Some? ==> 0 < r.value.0 < r.value.1 < r.value.2 <= |t|
    ensures r.Some? ==> AllWordChars(t[r.value.0..r.value.1])
    ensures !StartsWith(t, "{%") ==> r.None?
  {
    if !StartsWith(t, "{%") then None
    else
      var a := SkipWhile(t, 2, IsPySpace);
      if !HasAt(t, a, "if") then None
      else
        var k := SkipWhile(t, a + 2, IsPySpace);
        var w := SkipWhile(t, k, IsWordChar);
        if k == a + 2 || w == k then None
        else
          var c := SkipWhile(t, w, IsPySpace);
          if !HasAt(t, c, "%}") then None
          else
            WordRun(t, k);
            Some((k, w, c + 2))
  }

  lemma WordRun(t: string, k: nat)
    requires k <= |t|
    ensures AllWordChars(t[k..SkipWhile(t, k, IsWordChar)])
  {
    var w := SkipWhile(t, k, IsWordChar);
    forall i | 0 <= i < w - k ensures IsWordChar(t[k..w][i]) {
      assert t[k..w][i] == t[k + i];
    }
  }

  /** `re.sub` of the conditional pattern: a block becomes its body when the named
      value is truthy (in Python's sense) and '' otherwise. Expansion never
      lengthens the text, and text without `{%` passes unchanged. */
  function PyExpand(t: string, ctx: Obj): (r: string)
    ensures |r| <= |t|
    ensures !Includes(t, "{%") ==> r == t
    decreases |t|
  {
    if |t| == 0 then ""
    else
      match PyMatchIf(t)
      case Some(m) => (if PyTruthy(Get(ctx, m.cond)) then m.body else "") + PyExpand(t[m.len..], ctx)
      case None =>
        assert !Includes(t, "{%") ==> t == [t[0]] + t[1..];
        [t[0]] + PyExpand(t[1..], ctx)
  }

  /** How the opening tag of a block around a non-empty identifier is scanned. */
  lemma PyOpenScan(t: string, name: string, e: nat)
    requires e == 6 + |name| && |name| > 0 && AllWordChars(name)
    requires HasAt(t, 0, "{%") && HasAt(t, 2, " ") && HasAt(t, 3, "if") && HasAt(t, 5, " ")
    requires HasAt(t, 6, name) && HasAt(t, e, " ") && HasAt(t, e + 1, "%}")
    ensures StartsWith(t, "{%") && SkipWhile(t, 2, IsPySpace) == 3 && SkipWhile(t, 5, IsPySpace) == 6
    ensures SkipWhile(t, 6, IsWordChar) == e && SkipWhile(t, e, IsPySpace) == e + 1
    ensures t[6..e] == name
  {
    HasAtChar(t, 2, " ", 0);
    HasAtChar(t, 3, "if", 0);
    HasAtChar(t, 5, " ", 0);
    HasAtChar(t, 6, name, 0);
    HasAtChar(t, e, " ", 0);
    HasAtChar(t, e + 1, "%}", 0);
    assert t[..2] == t[0..2];
    SkipWhileOne(t, 2, IsPySpace);
    SkipWhileOne(t, 5, IsPySpace);
    HasAtChars(t, 6, name);
    SkipWhileExact(t, 6, e, IsWordChar);
    SkipWhileOne(t, e, IsPySpace);
  }

  /** A text laid out as a block around an identifier is matched with its name and body. */
  lemma PyMatchBlockAt(t: string, name: string, body: string, e: nat, b: nat, j: nat, len: nat)
    requires e == 6 + |name| && b == e + 3 && j == b + |body| && len == j + |EndTag|
    requires |name| > 0 && AllWordChars(name) && !Includes(body, "{%")
    requires HasAt(t, 0, "{%") && HasAt(t, 2, " ") && HasAt(t, 3, "if") && HasAt(t, 5, " ")
    requires HasAt(t, 6, name) && HasAt(t, e, " ") && HasAt(t, e + 1, "%}")
    requires HasAt(t, b, body) && HasAt(t, j, EndTag)
    ensures PyMatchIf(t) == Some(IfMatch(name, body, len))
  {
    assert t[b..j] == body;
    PyOpenScan(t, name, e);
    PyTagBlanks();
    BodyThenEnd(t, b, body, j, len, IsPySpace);
    PyOpenTagAt(t, 3, 6, e, e + 1);
  }

  /** Where the scan of an opening tag stops when its pieces are known. */
  lemma PyOpenTagAt(t: string, a: nat, k: nat, w: nat, c: nat)
    requires StartsWith(t, "{%") && SkipWhile(t, 2, IsPySpace) == a && HasAt(t, a, "if")
    requires SkipWhile(t, a + 2, IsPySpace) == k && k != a + 2
    requires SkipWhile(t, k, IsWordChar) == w && w != k
    requires SkipWhile(t, w, IsPySpace) == c && HasAt(t, c, "%}")
    ensures PyOpenTag(t) == Some((k, w, c + 2))
  {
  }

  /** A block around an identifier expands to its body when the named value is
      truthy and to nothing otherwise; expansion then continues after the block. */
  lemma PyExpandBlock(name: string, body: string, post: string, ctx: Obj)
    requires |name| > 0 && AllWordChars(name) && !Includes(body, "{%")
    ensures PyExpand(Block(name, body) + post, ctx) ==
      (if PyTruthy(Get(ctx, name)) then body else "") + PyExpand(post, ctx)
  {
    var t := Block(name, body) + post;
    BlockLayout(name, body, post);
    PyMatchBlockAt(t, name, body, 6 + |name|, 6 + |name| + 3, 6 + |name| + 3 + |body|, |Block(name, body)|);
    assert t[|Block(name, body)|..] == post;
  }

  /** The prompt preview expands a block around an identifier by JavaScript
      truthiness of the named value. */
  lemma JsExpandWordBlock(name: string, body: string, ctx: Obj)
    requires |name| > 0 && AllWordChars(name) && !Includes(body, "{%")
    ensures Expand(Block(name, body), ctx) == (if JsTruthy(Get(ctx, name)) then body else "")
  {
    WordCanonical(name);
    ExpandLoneBlock(name, body, ctx);
    ParseShowTruthy(name);
  }

  /** An identifier is a canonical condition. */
  lemma WordCanonical(name: string)
    requires |name| > 0 && AllWordChars(name)
    ensures CanonicalCond(name)
  {
    assert IsWordChar(name[0]) && IsWordChar(name[|name| - 1]);
    forall k | 0 <= k < |name| ensures !IsLineTerminator(name[k]) && name[k] != '%' {
      assert IsWordChar(name[k]);
    }
  }

  /** A block with nothing after it expands to its body or to nothing. */
  lemma ExpandLoneBlock(c: string, body: string, ctx: Obj)
    requires CanonicalCond(c) && !Includes(body, "{%")
    ensures Expand(Block(c, body), ctx) == if EvaluateCondition(c, ctx) then body else ""
  {
    assert Block(c, body) + "" == Block(c, body);
    ExpandBlock(c, body, "", ctx);
    assert body + "" == body;
  }

  /** The two renderers treat a block around an identifier alike except on an empty
      list: the prompt preview keeps the body (an array is truthy in JavaScript),
      the backend drops it. */
  lemma BlockRenderersDiffer(name: string, body: string, ctx: Obj)
    requires |name| > 0 && AllWordChars(name) && !Includes(body, "{%")
    ensures var t := Block(name, body);
      Expand(t, ctx) != PyExpand(t, ctx) <==> body != "" && Get(ctx, name) == Some(List([]))
  {
    var t := Block(name, body);
    assert t + "" == t;
    PyExpandBlock(name, body, "", ctx);
    assert PyExpand("", ctx) == "";
    assert body + "" == body;
    JsExpandWordBlock(name, body, ctx);
    PyTruthyImpliesJsTruthy(Get(ctx, name));
  }

  // ---- Placeholders ----

  /** The text `str()` gives a value: a list of strings is joined by ", ", another
      list is shown by `repr` (Python's representation of a list, not modelled), a
      falsy value is ''. */
  function PyDisplay(v: Value, repr: seq<Item> -> string): (r: string)
    ensures v == Null ==> r == ""
    ensures v.Str? ==> r == v.s
    ensures v.List? && AllAtoms(v.items) ==> r == Join(AtomTexts(v.items), ", ")
  {
    match v
    case Null => ""
    case Str(s) => s
    case List(items) => if AllAtoms(items) then Join(AtomTexts(items), ", ") else repr(items)
  }

  predicate AllAtoms(items: seq<Item>)
  {
    forall i | 0 <= i < |items| :: items[i].Atom?
  }

  function AtomTexts(items: seq<Item>): (r: seq<string>)
    requires AllAtoms(items)
    ensures |r| == |items| && forall i | 0 <= i < |items| :: r[i] == items[i].s
  {
    seq(|items|, i requires 0 <= i < |items| && items[i].Atom? => items[i].s)
  }

  /** Each answer in turn replaces every occurrence of its placeholder; text
      without `{{` comes out unchanged. */
  function PySubstitute(text: string, entries: Obj, repr: seq<Item> -> string): (r: string)
    ensures !Includes(text, "{{") ==> r == text
    decreases |entries|
  {
    if |entries| == 0 then text
    else
      var rest := Rest(entries);
      var key := entries[0].0;
      PlaceholderNeedsBraces(text, key);
      PySubstitute(ReplaceAll(text, Placeholder(key), PyDisplay(entries[0].1, repr)), rest, repr)
  }

  /** `{{k}}` for an answered key, between pieces free of `{{`, becomes the answer's
      text, provided the result holds no `{{` for a later key to find. */
  lemma {:induction false} PySubstituteKnown(a: string, k: string, b: string, ctx: Obj, repr: seq<Item> -> string)
    requires |k| > 0 && AllWordChars(k) && IdentKeys(ctx) && k in Keys(ctx)
    requires !Includes(a, "{{") && !Includes(b, "{{")
    requires !Includes(a + PyDisplay(Get(ctx, k).value, repr) + b, "{{")
    ensures PySubstitute(a + Placeholder(k) + b, ctx, repr) == a + PyDisplay(Get(ctx, k).value, repr) + b
    decreases |ctx|
  {
    var rest := Rest(ctx);
    var k0 := ctx[0].0;
    KeysCons(ctx);
    if k0 == k {
      OwnPlaceholderReplaced(a, k, b, PyDisplay(ctx[0].1, repr));
    } else {
      OtherPlaceholderKept(a, k, b, k0, PyDisplay(ctx[0].1, repr));
      PySubstituteKnown(a, k, b, rest, repr);
    }
  }

  /** `{{k}}` for a key nobody answered stays as it is. */
  lemma {:induction false} PySubstituteUnknown(a: string, k: string, b: string, ctx: Obj, repr: seq<Item> -> string)
    requires |k| > 0 && AllWordChars(k) && IdentKeys(ctx) && k !in Keys(ctx)
    requires !Includes(a, "{{") && !Includes(b, "{{")
    ensures PySubstitute(a + Placeholder(k) + b, ctx, repr) == a + Placeholder(k) + b
    decreases |ctx|
  {
    if |ctx| > 0 {
      var rest := Rest(ctx);
      var k0 := ctx[0].0;
      KeysCons(ctx);
      OtherPlaceholderKept(a, k, b, k0, PyDisplay(ctx[0].1, repr));
      PySubstituteUnknown(a, k, b, rest, repr);
    }
  }

  // ---- The whole renderer ----

  /** The answers the backend renders from: the answers themselves, with the inventory
      table set when `data_inventory` is a list; `None` when building the table raises
      (a list element that is not a record). */
  function ExpandedAnswers(answers: Obj): (r: Option<Obj>)
    ensures r.None? <==> exists items :: Get(answers, DataInventoryKey) == Some(List(items)) && PyTable(items).None?
    ensures r.Some? ==> forall k | k != TableKey :: Get(r.value, k) == Get(answers, k)
    ensures r.Some? && Get(answers, DataInventoryKey).Some? && Get(answers, DataInventoryKey).value.List? ==>
      && PyTable(Get(answers, DataInventoryKey).value.items).Some?
      && Get(r.value, TableKey) == Some(Str(PyTable(Get(answers, DataInventoryKey).value.items).value))
    ensures r.Some? && !(Get(answers, DataInventoryKey).Some? && Get(answers, DataInventoryKey).value.List?)
      ==> r.value == answers
  {
    match Get(answers, DataInventoryKey)
    case Some(List(items)) =>
      (match PyTable(items)
       case None => None
       case Some(table) => Some(Set(answers, TableKey, Str(table))))
    case _ => Some(answers)
  }

  /** The backend's text for a template text and its answers: blocks, then
      placeholders, then `strip()`. */
  function PyRenderText(text: string, ctx: Obj, repr: seq<Item> -> string): (r: string)
    ensures |r| > 0 ==> !IsPySpace(r[0]) && !IsPySpace(r[|r| - 1])
    ensures !Includes(text, "{%") && !Includes(text, "{{") ==> r == Trim(text, IsPySpace)
  {
    Trim(PySubstitute(PyExpand(text, ctx), ctx, repr), IsPySpace)
  }

  /** `render_output`: `None` stands for the error raised while building the table;
      otherwise the template text rendered against the answers with the table. */
  function RenderOutput(text: string, answers: Obj, repr: seq<Item> -> string): (r: Option<string>)
    ensures r.None? <==> ExpandedAnswers(answers).None?
    ensures r.Some? ==> r.value == PyRenderText(text, ExpandedAnswers(answers).value, repr)
    ensures r.Some? ==> |r.value| > 0 ==> !IsPySpace(r.value[0]) && !IsPySpace(r.value[|r.value| - 1])
  {
    match ExpandedAnswers(answers)
    case None => None
    case Some(ctx) => Some(PyRenderText(text, ctx, repr))
  }

  /** The answers with the table keep identifier keys. */
  lemma ExpandedIdentKeys(answers: Obj)
    requires IdentKeys(answers) && ExpandedAnswers(answers).Some?
    ensures IdentKeys(ExpandedAnswers(answers).value)
  {
    var ctx := ExpandedAnswers(answers).value;
    forall key | key in Keys(ctx) ensures |key| > 0 && AllWordChars(key) {
      if key == TableKey {
        TableKeyIdent();
      } else {
        assert Get(ctx, key) == Get(answers, key);
      }
    }
  }

  lemma TableKeyIdent()
    ensures |TableKey| > 0 && AllWordChars(TableKey)
  {
    forall i | 0 <= i < |TableKey| ensures IsWordChar(TableKey[i]) {
    }
  }

  /** A text with no tag and no placeholder renders as itself, stripped. */
  lemma PyRendersPlain(text: string, answers: Obj, repr: seq<Item> -> string)
    requires ExpandedAnswers(answers).Some?
    requires !Includes(text, "{%") && !Includes(text, "{{")
    ensures RenderOutput(text, answers, repr) == Some(Trim(text, IsPySpace))
  {
  }

  /** The backend renders `{{k}}` for an answered key, between pieces with no tag
      and no `{{`, as the answer's text, and strips the result. */
  lemma PyRendersKnown(a: string, k: string, b: string, answers: Obj, repr: seq<Item> -> string)
    requires |k| > 0 && AllWordChars(k) && IdentKeys(answers) && k in Keys(answers) && k != TableKey
    requires ExpandedAnswers(answers).Some?
    requires !Includes(a, "{%") && !Includes(b, "{%") && !Includes(a, "{{") && !Includes(b, "{{")
    requires !Includes(a + PyDisplay(Get(answers, k).value, repr) + b, "{{")
    ensures RenderOutput(a + Placeholder(k) + b, answers, repr) == Some(Trim(a + PyDisplay(Get(answers, k).value, repr) + b, IsPySpace))
  {
    var ctx := ExpandedAnswers(answers).value;
    assert Get(ctx, k) == Get(answers, k);
    ExpandedIdentKeys(answers);
    NoTagAround(a, k, b);
    PySubstituteKnown(a, k, b, ctx, repr);
  }

  /** The backend leaves `{{k}}` for a key nobody answered as it stands. */
  lemma PyRendersUnknown(a: string, k: string, b: string, answers: Obj, repr: seq<Item> -> string)
    requires |k| > 0 && AllWordChars(k) && IdentKeys(answers) && k !in Keys(answers) && k != TableKey
    requires ExpandedAnswers(answers).Some?
    requires !Includes(a, "{%") && !Includes(b, "{%") && !Includes(a, "{{") && !Includes(b, "{{")
    ensures RenderOutput(a + Placeholder(k) + b, answers, repr) == Some(Trim(a + Placeholder(k) + b, IsPySpace))
  {
    var ctx := ExpandedAnswers(answers).value;
    assert Get(ctx, k) == Get(answers, k);
    ExpandedIdentKeys(answers);
    NoTagAround(a, k, b);
    PySubstituteUnknown(a, k, b, ctx, repr);
  }

  /** One generated output: its type, its name and its rendered text. */
  datatype Generated = Generated(kind: OutputKind, name: string, content: string)

  /** The type name an output definition carries. */
  function KindName(kind: OutputKind): string
  {
    match kind
    case DocumentOutput => "document"
    case PromptOutput => "prompt"
  }

  /** The name of an output definition, or its type name when it has none. */
  function OutputName(o: OutputDef): string
  {
    if o.name.Some? then o.name.value else KindName(o.kind)
  }

  /** `generate_outputs`: every output definition rendered in order; an output
      without a name is named after its type; an error in rendering is an error of
      the whole call. */
  function GenerateOutputs(outputs: seq<OutputDef>, answers: Obj, repr: seq<Item> -> string): (r: Option<seq<Generated>>)
    ensures r.None? <==> |outputs| > 0 && ExpandedAnswers(answers).None?
    ensures r.Some? ==> |r.value| == |outputs|
    ensures r.Some? ==> forall i | 0 <= i < |outputs| ::
      && r.value[i].kind == outputs[i].kind
      && r.value[i].name == (if outputs[i].name.Some? then outputs[i].name.value else KindName(outputs[i].kind))
      && Some(r.value[i].content) == RenderOutput(outputs[i].text, answers, repr)
  {
    if |outputs| == 0 then Some([])
    else
      match ExpandedAnswers(answers)
      case None => None
      case Some(_) =>
        Some(seq(|outputs|, i requires 0 <= i < |outputs| =>
          Generated(outputs[i].kind, OutputName(outputs[i]), RenderOutput(outputs[i].text, answers, repr).value)))
  }
}
