/** The prompt preview's renderer: `{% if c %}...{% endif %}` blocks are expanded,
    every context entry replaces its `{{key}}`, every `{{word}}` left over becomes
    `[word]`, and the result is trimmed. */
module PromptRender {
  import opened Json
  import opened Text
  import opened Schema
  import opened Labels
  import opened PromptCondition
  import opened PromptPreview

  /** One match of the conditional pattern at the start of a text: the captured
      condition, the captured body, and the length of the whole match. */
  datatype IfMatch = IfMatch(cond: string, body: string, len: nat)

  /** A whitespace class for `\s`: it holds the blank and neither `e` nor `%`. JavaScript
      and Python differ in which characters `\s` matches, so the scanners take it. */
  predicate TagBlanks(sp: char -> bool)
  {
    sp(' ') && !sp('e') && !sp('%')
  }

  lemma JsTagBlanks()
    ensures TagBlanks(IsJsSpace)
  {
  }

  /** `\{%\s*endif\s*%\}` at position `j`, with `sp` for `\s`: the end of the tag. */
  function EndifAt(t: string, j: nat, sp: char -> bool): (r: Option<nat>)
    ensures r.Some? ==> j < r.value <= |t| && HasAt(t, j, "{%")
  {
    if !HasAt(t, j, "{%") then None
    else
      var a := SkipWhile(t, j + 2, sp);
      if !HasAt(t, a, "endif") then None
      else
        var b := SkipWhile(t, a + 5, sp);
        if HasAt(t, b, "%}") then Some(b + 2) else None
  }

  /** The lazy body `([\s\S]*?)`: the first closing tag at or after `j`, as its start
      and its end. */
  function FindEndif(t: string, j: nat, sp: char -> bool): (r: Option<(nat, nat)>)
    requires j <= |t|
    ensures r.Some? ==> j <= r.value.0 < r.value.1 <= |t| && EndifAt(t, r.value.0, sp) == Some(r.value.1)
    ensures r.Some? ==> NoEndifBetween(t, j, r.value.0, sp)
    ensures r.None? ==> NoEndifBetween(t, j, |t| + 1, sp)
    decreases |t| - j
  {
    match EndifAt(t, j, sp)
    case Some(e) => Some((j, e))
    case None =>
      if j == |t| then None
      else
        var r := FindEndif(t, j + 1, sp);
        NoEndifExtend(t, j, if r.Some? then r.value.0 else |t| + 1, sp);
        r
  }

  /** No closing tag starts at any position in `a..b`. */
  predicate NoEndifBetween(t: string, a: nat, b: nat, sp: char -> bool)
  {
    forall m | a <= m < b :: EndifAt(t, m, sp).None?
  }

  lemma NoEndifExtend(t: string, j: nat, b: nat, sp: char -> bool)
    requires EndifAt(t, j, sp).None? && NoEndifBetween(t, j + 1, b, sp)
    ensures NoEndifBetween(t, j, b, sp)
  {
  }

  /** `\s*%\}` at position `e`: the end of the tag. */
  function CloseTagAt(t: string, e: nat): (r: Option<nat>)
    requires e <= |t|
    ensures r.Some? ==> e < r.value <= |t|
  {
    var s := SkipWhile(t, e, IsJsSpace);
    if HasAt(t, s, "%}") then Some(s + 2) else None
  }

  /** The lazy condition `(.+?)` starting at `c0`, tried with the ends `e`, `e + 1`, ...:
      the shortest condition, free of line terminators, after which the opening tag
      closes and a closing tag follows. */
  function LazyCond(t: string, c0: nat, e: nat): (r: Option<IfMatch>)
    requires c0 < e
    ensures r.Some? ==> c0 < r.value.len <= |t| && |r.value.body| < r.value.len
    decreases |t| + 1 - e
  {
    if e > |t| || IsLineTerminator(t[e - 1]) then None
    else
      match CloseTagAt(t, e)
      case None => LazyCond(t, c0, e + 1)
      case Some(b) =>
        match FindEndif(t, b, IsJsSpace)
        case None => LazyCond(t, c0, e + 1)
        case Some((j, end)) => Some(IfMatch(t[c0..e], t[b..j], end))
  }

  /** `if\s+` backtracking: the condition is tried after `w` blanks, then after fewer. */
  function TryBlanks(t: string, k0: nat, w: nat): (r: Option<IfMatch>)
    requires k0 + w <= |t|
    ensures r.Some? ==> k0 < r.value.len <= |t| && |r.value.body| < r.value.len
    decreases w
  {
    if w == 0 then None
    else
      match LazyCond(t, k0 + w, k0 + w + 1)
      case Some(m) => Some(m)
      case None => TryBlanks(t, k0, w - 1)
  }

  /** `\{%\s*if\s+(.+?)\s*%\}([\s\S]*?)\{%\s*endif\s*%\}` anchored at the start of `t`. */
  function MatchIf(t: string): (r: Option<IfMatch>)
    ensures r.Some? ==> 0 < r.value.len <= |t| && |r.value.body| < r.value.len
    ensures !StartsWith(t, "{%") ==> r.None?
  {
    if !StartsWith(t, "{%") then None
    else
      var a := SkipWhile(t, 2, IsJsSpace);
      if !HasAt(t, a, "if") then None
      else
        var k0 := a + 2;
        TryBlanks(t, k0, SkipWhile(t, k0, IsJsSpace) - k0)
  }

  /** The global replace of the conditional pattern: each match becomes its body when
      its condition holds and '' otherwise, and the search resumes after the match.
      Expansion never lengthens the text, and text without `{%` passes unchanged. */
  function Expand(t: string, ctx: Obj): (r: string)
    ensures |r| <= |t|
    ensures !Includes(t, "{%") ==> r == t
    decreases |t|
  {
    if |t| == 0 then ""
    else
      match MatchIf(t)
      case Some(m) => (if EvaluateCondition(m.cond, ctx) then m.body else "") + Expand(t[m.len..], ctx)
      case None =>
        assert !Includes(t, "{%") ==> t == [t[0]] + t[1..];
        [t[0]] + Expand(t[1..], ctx)
  }

  // ---- Expansion of canonical blocks ----

  /** Where no tag opens, one character is copied. */
  lemma ExpandStep(t: string, ctx: Obj)
    requires |t| > 0 && !StartsWith(t, "{%")
    ensures Expand(t, ctx) == [t[0]] + Expand(t[1..], ctx)
  {
    assert MatchIf(t).None?;
  }

  lemma NotOpening(pre: string, rest: string)
    requires |pre| > 0 && !StartsWith(pre, "{%") && pre[|pre| - 1] != '{'
    ensures !StartsWith(pre + rest, "{%")
  {
    if |pre| >= 2 {
      assert (pre + rest)[..2] == pre[..2];
    } else {
      assert (pre + rest)[0] == pre[0];
    }
  }

  /** A prefix that opens no tag is copied, and expansion continues after it. */
  lemma {:induction false} ExpandPrefix(pre: string, rest: string, ctx: Obj)
    requires !Includes(pre, "{%") && (|pre| > 0 ==> pre[|pre| - 1] != '{')
    ensures Expand(pre + rest, ctx) == pre + Expand(rest, ctx)
    decreases |pre|
  {
    if |pre| == 0 {
      assert pre + rest == rest;
      assert pre + Expand(rest, ctx) == Expand(rest, ctx);
    } else {
      var tail := pre[1..];
      assert !StartsWith(pre, "{%") && !Includes(tail, "{%");
      assert |tail| > 0 ==> tail[|tail| - 1] == pre[|pre| - 1];
      NotOpening(pre, rest);
      ExpandStep(pre + rest, ctx);
      ConsSplit(pre, rest);
      ConsSplit(pre, Expand(rest, ctx));
      ExpandPrefix(tail, rest, ctx);
    }
  }

  /** A condition the canonical block form can carry: non-empty, on one line, not
      starting or ending with a blank, and free of `%`. */
  predicate CanonicalCond(c: string)
  {
    && |c| > 0 && !IsJsSpace(c[0]) && !IsJsSpace(c[|c| - 1]) && '%' !in c
    && forall k | 0 <= k < |c| :: !IsLineTerminator(c[k])
  }

  function OpenTag(c: string): string
  {
    "{% if " + c + " %}"
  }

  const EndTag: string := "{% endif %}"

  /** `{% if c %}body{% endif %}` */
  function Block(c: string, body: string): string
  {
    OpenTag(c) + body + EndTag
  }

  /** No end of the condition in `e..target` closes the opening tag. */
  predicate NoCloseBetween(t: string, e: nat, target: nat)
  {
    forall e' | e <= e' < target :: OpenAt(t, e')
  }

  /** A condition ending at `e` is on one line and leaves the opening tag unclosed. */
  predicate OpenAt(t: string, e: nat)
  {
    0 < e <= |t| && !IsLineTerminator(t[e - 1]) && CloseTagAt(t, e).None?
  }

  lemma LazyCondSkip(t: string, c0: nat, e: nat)
    requires c0 < e && OpenAt(t, e)
    ensures LazyCond(t, c0, e) == LazyCond(t, c0, e + 1)
  {
  }

  lemma {:induction false} LazyCondReach(t: string, c0: nat, e: nat, target: nat)
    requires c0 < e <= target <= |t| && NoCloseBetween(t, e, target)
    ensures LazyCond(t, c0, e) == LazyCond(t, c0, target)
    decreases target - e
  {
    if e < target {
      assert OpenAt(t, e);
      LazyCondSkip(t, c0, e);
      LazyCondReach(t, c0, e + 1, target);
    }
  }

  lemma {:induction false} FindEndifReach(t: string, j: nat, target: nat, sp: char -> bool)
    requires j <= target <= |t|
    requires forall m | j <= m < target :: EndifAt(t, m, sp).None?
    ensures FindEndif(t, j, sp) == FindEndif(t, target, sp)
    decreases target - j
  {
    if j < target {
      FindEndifSkip(t, j, sp);
      FindEndifReach(t, j + 1, target, sp);
    }
  }

  lemma FindEndifSkip(t: string, j: nat, sp: char -> bool)
    requires j < |t| && EndifAt(t, j, sp).None?
    ensures FindEndif(t, j, sp) == FindEndif(t, j + 1, sp)
  {
  }

  lemma EndTagScan(t: string, j: nat, sp: char -> bool)
    requires HasAt(t, j, EndTag) && TagBlanks(sp)
    ensures HasAt(t, j, "{%") && HasAt(t, j + 3, "endif") && HasAt(t, j + 9, "%}")
    ensures SkipWhile(t, j + 2, sp) == j + 3 && SkipWhile(t, j + 8, sp) == j + 9
  {
    assert EndTag == "{%" + " " + "endif" + " " + "%}";
    HasAtConcat(t, j, "{%" + " " + "endif" + " ", "%}");
    HasAtConcat(t, j, "{%" + " " + "endif", " ");
    HasAtConcat(t, j, "{%" + " ", "endif");
    HasAtConcat(t, j, "{%", " ");
    HasAtChars(t, j + 2, " ");
    HasAtChars(t, j + 3, "endif");
    HasAtChars(t, j + 8, " ");
    HasAtChars(t, j + 9, "%}");
    SkipWhileExact(t, j + 2, j + 3, sp);
    SkipWhileExact(t, j + 8, j + 9, sp);
  }

  /** The end tag is recognised where it stands. */
  lemma EndTagAt(t: string, j: nat, sp: char -> bool)
    requires HasAt(t, j, EndTag) && TagBlanks(sp)
    ensures EndifAt(t, j, sp) == Some(j + |EndTag|)
  {
    EndTagScan(t, j, sp);
  }

  lemma NoOpenInBodyAt(t: string, b: nat, body: string, m: nat)
    requires HasAt(t, b, body) && HasAt(t, b + |body|, "{")
    requires forall i | 0 <= i <= |body| :: !HasAt(body, i, "{%")
    requires b <= m < b + |body|
    ensures !HasAt(t, m, "{%")
  {
    if m + 1 < b + |body| {
      HasAtShift(t, b, body, m - b, "{%");
      assert !HasAt(body, m - b, "{%");
    } else {
      HasAtChars(t, b + |body|, "{");
      assert !HasAt(t, m, "{%") by {
        if m + 2 <= |t| {
          assert t[m..m + 2][1] == '{';
          assert "{%"[1] != '{';
        }
      }
    }
  }

  /** Inside a body free of `{%` that is followed by `{`, no end tag starts. */
  lemma NoEndifInBody(t: string, b: nat, body: string, sp: char -> bool)
    requires HasAt(t, b, body) && HasAt(t, b + |body|, "{")
    requires !Includes(body, "{%")
    ensures forall m | b <= m < b + |body| :: EndifAt(t, m, sp).None?
  {
    IncludesIff(body, "{%");
    forall m | b <= m < b + |body| ensures EndifAt(t, m, sp).None? {
      NoOpenInBodyAt(t, b, body, m);
    }
  }

  /** Where the open tag's condition `c` (from `c0` to `e`) stops: inside it no `%}`
      follows the blanks, right after it the tag closes. */
  lemma CloseTagScan(t: string, c0: nat, c1: nat, c: string, e: nat, b: nat)
    requires c1 == c0 + 1 && e == c0 + |c| && b == e + 3
    requires HasAt(t, c0, c) && HasAt(t, e, " ") && HasAt(t, e + 1, "%}")
    requires CanonicalCond(c)
    ensures c0 < e <= |t| && NoCloseBetween(t, c1, e)
    ensures !IsLineTerminator(t[e - 1])
    ensures CloseTagAt(t, e) == Some(b)
  {
    HasAtChars(t, c0, c);
    HasAtChars(t, e, " ");
    HasAtChars(t, e + 1, "%}");
    forall e' | c1 <= e' < e ensures OpenAt(t, e') {
      assert t[e' - 1] == c[e' - 1 - c0];
      var s := SkipWhile(t, e', IsJsSpace);
      assert t[e - 1] == c[|c| - 1];
      assert s < e;
      assert t[s] == c[s - c0];
    }
    assert t[e - 1] == c[|c| - 1];
    SkipWhileExact(t, e, e + 1, IsJsSpace);
  }

  /** The layout of an opening tag: where its pieces stand. */
  lemma OpenTagLayout(c: string, rest: string)
    ensures var t := OpenTag(c) + rest;
      && HasAt(t, 0, "{%") && HasAt(t, 2, " ") && HasAt(t, 3, "if") && HasAt(t, 5, " ")
      && HasAt(t, 6, c) && HasAt(t, 6 + |c|, " ") && HasAt(t, 7 + |c|, "%}")
      && |OpenTag(c)| == 9 + |c|
  {
    var t := OpenTag(c) + rest;
    var head := "{% if ";
    assert OpenTag(c) == head + c + " %}";
    HasAtHalves(OpenTag(c), rest);
    HasAtConcat(t, 0, head + c, " %}");
    HasAtConcat(t, 0, head, c);
    HasAtConcat(t, 6 + |c|, " ", "%}");
    assert HasAt(t, 0, head);
    HasAtChars(t, 0, head);
    assert t[..2] == "{%" && t[2..3] == " " && t[3..5] == "if" && t[5..6] == " ";
  }

  /** The layout of a block: where its pieces stand. */
  lemma BlockLayout(c: string, body: string, post: string)
    ensures var t := Block(c, body) + post;
      var e := 6 + |c|;
      var b := e + 3;
      var j := b + |body|;
      && HasAt(t, 0, "{%") && HasAt(t, 2, " ") && HasAt(t, 3, "if") && HasAt(t, 5, " ")
      && HasAt(t, 6, c) && HasAt(t, e, " ") && HasAt(t, e + 1, "%}")
      && HasAt(t, b, body) && HasAt(t, j, EndTag)
      && |Block(c, body)| == j + |EndTag|
  {
    var a := OpenTag(c);
    var t := Block(c, body) + post;
    assert t == a + (body + EndTag + post);
    OpenTagLayout(c, body + EndTag + post);
    HasAtHalves(Block(c, body), post);
    HasAtConcat(t, 0, a + body, EndTag);
    HasAtConcat(t, 0, a, body);
  }

  /** An opening `{% if ` followed by a non-blank: the only way to split the blanks
      leaves the condition starting at 6. */
  lemma MatchIfHead(t: string)
    requires HasAt(t, 0, "{%") && HasAt(t, 2, " ") && HasAt(t, 3, "if") && HasAt(t, 5, " ")
    requires |t| > 6 && !IsJsSpace(t[6])
    ensures MatchIf(t) == LazyCond(t, 6, 7)
  {
    OpenIfScan(t);
    assert TryBlanks(t, 5, 0).None?;
  }

  lemma OpenIfScan(t: string)
    requires HasAt(t, 0, "{%") && HasAt(t, 2, " ") && HasAt(t, 3, "if") && HasAt(t, 5, " ")
    requires |t| > 6 && !IsJsSpace(t[6])
    ensures StartsWith(t, "{%") && SkipWhile(t, 2, IsJsSpace) == 3 && SkipWhile(t, 5, IsJsSpace) == 6
  {
    HasAtChar(t, 2, " ", 0);
    HasAtChar(t, 3, "if", 0);
    HasAtChar(t, 5, " ", 0);
    SkipWhileOne(t, 2, IsJsSpace);
    SkipWhileOne(t, 5, IsJsSpace);
    assert t[..2] == t[0..2];
  }

  lemma LazyCondHit(t: string, c0: nat, e: nat, b: nat, j: nat, end: nat)
    requires c0 < e <= |t| && !IsLineTerminator(t[e - 1])
    requires CloseTagAt(t, e) == Some(b) && FindEndif(t, b, IsJsSpace) == Some((j, end))
    ensures c0 <= e && b <= j <= |t|
    ensures LazyCond(t, c0, e) == Some(IfMatch(t[c0..e], t[b..j], end))
  {
  }

  /** The lazy body after a body free of `{%` ends at the end tag that follows it. */
  lemma BodyThenEnd(t: string, b: nat, body: string, j: nat, end: nat, sp: char -> bool)
    requires j == b + |body| && end == j + |EndTag| && TagBlanks(sp)
    requires HasAt(t, b, body) && HasAt(t, j, EndTag) && !Includes(body, "{%")
    ensures FindEndif(t, b, sp) == Some((j, end))
  {
    HasAtConcat(t, j, "{", "% endif %}");
    NoEndifInBody(t, b, body, sp);
    FindEndifReach(t, b, j, sp);
    EndTagAt(t, j, sp);
  }

  /** The lazy condition reaches its first end `e` that closes the tag and is
      followed by an end tag. */
  lemma LazyFrom(t: string, c0: nat, c1: nat, e: nat, b: nat, j: nat, end: nat, c: string, body: string)
    requires c1 == c0 + 1 && e == c0 + |c| && j == b + |body|
    requires HasAt(t, c0, c) && HasAt(t, b, body)
    requires c0 < e <= |t| && NoCloseBetween(t, c1, e) && !IsLineTerminator(t[e - 1])
    requires CloseTagAt(t, e) == Some(b) && FindEndif(t, b, IsJsSpace) == Some((j, end))
    ensures LazyCond(t, c0, c1) == Some(IfMatch(c, body, end))
  {
    assert t[c0..e] == c && t[b..j] == body;
    LazyCondReach(t, c0, c1, e);
    LazyCondHit(t, c0, e, b, j, end);
  }

  /** A text laid out as a canonical block is matched with its condition and body. */
  lemma MatchBlockAt(t: string, c: string, body: string, e: nat, b: nat, j: nat, len: nat)
    requires e == 6 + |c| && b == e + 3 && j == b + |body| && len == j + |EndTag|
    requires CanonicalCond(c) && !Includes(body, "{%")
    requires HasAt(t, 0, "{%") && HasAt(t, 2, " ") && HasAt(t, 3, "if") && HasAt(t, 5, " ")
    requires HasAt(t, 6, c) && HasAt(t, e, " ") && HasAt(t, e + 1, "%}")
    requires HasAt(t, b, body) && HasAt(t, j, EndTag)
    ensures MatchIf(t) == Some(IfMatch(c, body, len))
  {
    HasAtChars(t, 6, c);
    CloseTagScan(t, 6, 7, c, e, b);
    JsTagBlanks();
    BodyThenEnd(t, b, body, j, len, IsJsSpace);
    LazyFrom(t, 6, 7, e, b, j, len, c, body);
    MatchIfHead(t);
  }

  /** A canonical block at the start of a text is matched with its condition and body. */
  lemma MatchBlock(c: string, body: string, post: string)
    requires CanonicalCond(c) && !Includes(body, "{%")
    ensures MatchIf(Block(c, body) + post) == Some(IfMatch(c, body, |Block(c, body)|))
  {
    BlockLayout(c, body, post);
    MatchBlockAt(Block(c, body) + post, c, body, 6 + |c|, 6 + |c| + 3, 6 + |c| + 3 + |body|, |Block(c, body)|);
  }

  /** A canonical block expands to its body when its condition holds and to nothing
      otherwise; expansion then continues after the block. */
  lemma ExpandBlock(c: string, body: string, post: string, ctx: Obj)
    requires CanonicalCond(c) && !Includes(body, "{%")
    ensures Expand(Block(c, body) + post, ctx) ==
      (if EvaluateCondition(c, ctx) then body else "") + Expand(post, ctx)
  {
    MatchBlock(c, body, post);
    assert (Block(c, body) + post)[|Block(c, body)|..] == post;
  }

  /** A block whose condition is the canonical text of a predicate keeps its body
      exactly when that predicate holds of the context. */
  lemma ShownBlock(p: Pred, body: string, post: string, ctx: Obj)
    requires WellFormed(p) && CanonicalCond(Show(p)) && !Includes(body, "{%")
    ensures Expand(Block(Show(p), body) + post, ctx) == (if Eval(p, ctx) then body else "") + Expand(post, ctx)
  {
    ExpandBlock(Show(p), body, post, ctx);
    ParseShow(p);
  }

  /** A block on a bare name whose value is falsy, or absent, expands to nothing. */
  lemma FalsyBlockDropped(c: string, body: string, post: string, ctx: Obj)
    requires CanonicalCond(c) && AllWordChars(c) && !Includes(body, "{%")
    requires !JsTruthy(Get(ctx, c))
    ensures Expand(Block(c, body) + post, ctx) == Expand(post, ctx)
  {
    ShownBlock(Truthy(c), body, post, ctx);
    assert "" + Expand(post, ctx) == Expand(post, ctx);
  }

  /** Text without tags before a block passes through, and the block is settled by
      its predicate. */
  lemma PrefixedBlock(pre: string, p: Pred, body: string, ctx: Obj)
    requires !Includes(pre, "{%") && (|pre| > 0 ==> pre[|pre| - 1] != '{')
    requires WellFormed(p) && CanonicalCond(Show(p)) && !Includes(body, "{%")
    ensures Expand(pre + Block(Show(p), body), ctx) == pre + (if Eval(p, ctx) then body else "")
  {
    ExpandPrefix(pre, Block(Show(p), body) + "", ctx);
    ShownBlock(p, body, "", ctx);
    assert Block(Show(p), body) + "" == Block(Show(p), body);
    var kept := if Eval(p, ctx) then body else "";
    assert kept + "" == kept;
  }

  /** A well-formed `contains` condition whose literal has no `%` and no line
      break prints in the canonical block form. */
  lemma ShowContainsCanonical(n: string, lit: string)
    requires WellFormed(Contains(n, lit)) && '%' !in lit
    requires forall i | 0 <= i < |lit| :: !IsLineTerminator(lit[i])
    ensures CanonicalCond(Show(Contains(n, lit)))
  {
    var t := Show(Contains(n, lit));
    assert t == n + " contains " + "'" + lit + "'";
    assert t[0] == n[0];
    forall k | 0 <= k < |t| ensures t[k] != '%' && !IsLineTerminator(t[k]) {
      if k < |n| {
        assert t[k] == n[k];
      } else if k < |n| + 10 {
        assert t[k] == " contains "[k - |n|];
      } else if k == |n| + 10 {
        assert t[k] == '\'';
      } else if k < |n| + 11 + |lit| {
        assert t[k] == lit[k - |n| - 11];
      } else {
        assert t[k] == '\'';
      }
    }
  }
}

