/** The prompt preview's condition language: one predicate per `{% if %}` block,
    `x contains 'lit'`, `x not_contains 'lit'`, `x in [a, 'b']`, or a bare key
    tested for truthiness. Each form is recognised by an explicit scanner that
    accepts exactly what the corresponding anchored regular expression accepts. */
module PromptCondition {
  import opened Json
  import opened Text

  datatype Pred =
    | Contains(name: string, needle: string)
    | NotContains(name: string, needle: string)
    | InList(name: string, items: seq<string>)
    | Truthy(key: string)

  /** `^(\w+)\s+<kw>\s+` followed by the rest of the form: returns the identifier's end
      and the start of the text after the second blank run. */
  function ScanHead(t: string, kw: string): (r: Option<(nat, nat)>)
    ensures r.Some? ==> 0 < r.value.0 < r.value.1 <= |t| && AllWordChars(t[..r.value.0])
  {
    var w := SkipWhile(t, 0, IsWordChar);
    if w == 0 then None
    else
      var s1 := SkipWhile(t, w, IsJsSpace);
      if s1 == w || !HasAt(t, s1, kw) then None
      else
        var k := s1 + |kw|;
        var s2 := SkipWhile(t, k, IsJsSpace);
        if s2 == k then None
        else
          assert forall i | 0 <= i < w :: t[..w][i] == t[i];
          Some((w, s2))
  }

  /** The class `[^c0]`. */
  function Unlike(c0: char): char -> bool
  {
    c => c != c0
  }

  /** `^(\w+)\s+<kw>\s+<open>([^<close>]+)<close>$`: the identifier and the text
      between the delimiters. */
  function ScanForm(t: string, kw: string, open: char, close: char): (r: Option<(string, string)>)
    ensures r.Some? ==> |r.value.0| > 0 && AllWordChars(r.value.0)
    ensures r.Some? ==> |r.value.1| > 0 && close !in r.value.1
  {
    match ScanHead(t, kw)
    case None => None
    case Some((w, s2)) =>
      match ScanDelimited(t, s2, open, close)
      case Some(e) => Some((t[..w], t[s2 + 1..e]))
      case None => None
  }

  /** `<open>([^<close>]+)<close>$` from position `s2`: where the delimited text ends. */
  function ScanDelimited(t: string, s2: nat, open: char, close: char): (r: Option<nat>)
    requires s2 <= |t|
    ensures r.Some? ==> s2 + 1 < r.value && r.value + 1 == |t| && close !in t[s2 + 1..r.value]
  {
    if s2 < |t| && t[s2] == open then
      var e := SkipWhile(t, s2 + 1, Unlike(close));
      if e > s2 + 1 && e + 1 == |t| then
        Some(e)
      else None
    else None
  }

  /** `^(\w+)\s+<kw>\s+'([^']+)'$` */
  function ScanQuoted(t: string, kw: string): Option<(string, string)>
  {
    ScanForm(t, kw, '\'', '\'')
  }

  /** `^(\w+)\s+in\s+\[([^\]]+)\]$` */
  function ScanIn(t: string): Option<(string, string)>
  {
    ScanForm(t, "in", '[', ']')
  }

  /** `item.replace(/^'|'$/g, '')`: one leading and one trailing quote removed. */
  function StripQuotes(x: string): (r: string)
    ensures |r| <= |x| && (|x| >= 2 && x[0] == '\'' && x[|x| - 1] == '\'' ==> r == x[1..|x| - 1])
  {
    var a := if |x| > 0 && x[0] == '\'' then x[1..] else x;
    if |a| > 0 && a[|a| - 1] == '\'' then a[..|a| - 1] else a
  }

  /** The literals of an `in [...]` list: split on commas, trimmed, unquoted. */
  function ListItems(list: string): (items: seq<string>)
    ensures |items| == |SplitOn(list, ',')|
  {
    var parts := SplitOn(list, ',');
    seq(|parts|, i requires 0 <= i < |parts| => StripQuotes(Trim(parts[i], IsJsSpace)))
  }

  /** Reads a condition; the forms are tried in the source's order and anything
      else is a truthiness test of the whole trimmed text. */
  function Parse(cond: string): (r: Pred)
    ensures r.Contains? || r.NotContains? ==> WellFormed(r)
    ensures r.InList? ==> |r.name| > 0 && AllWordChars(r.name) && |r.items| > 0
    ensures r.Truthy? ==> r.key == Trim(cond, IsJsSpace)
  {
    var t := Trim(cond, IsJsSpace);
    match ScanQuoted(t, "contains")
    case Some((n, lit)) => Contains(n, lit)
    case None =>
      match ScanQuoted(t, "not_contains")
      case Some((n, lit)) => NotContains(n, lit)
      case None =>
        match ScanIn(t)
        case Some((n, list)) => InList(n, ListItems(list))
        case None => Truthy(t)
  }

  /** `contains`: list membership of the literal, or substring of a string value;
      false for an absent key, null, or any other shape. */
  predicate HoldsContains(v: Option<Value>, needle: string)
  {
    match v
    case Some(List(items)) => Atom(needle) in items
    case Some(Str(s)) => Includes(s, needle)
    case _ => false
  }

  /** A value the `contains` forms inspect: a list or a string. */
  predicate Searchable(v: Option<Value>)
  {
    v.Some? && (v.value.List? || v.value.Str?)
  }

  function Eval(p: Pred, resolved: Obj): (r: bool)
    ensures p.Contains? ==> (r <==> HoldsContains(Get(resolved, p.name), p.needle))
    ensures p.NotContains? ==>
      (r <==> !Searchable(Get(resolved, p.name)) || !HoldsContains(Get(resolved, p.name), p.needle))
    ensures p.Truthy? ==> (r <==> JsTruthy(Get(resolved, p.key)))
  {
    match p
    case Contains(n, lit) => HoldsContains(Get(resolved, n), lit)
    case NotContains(n, lit) =>
      (match Get(resolved, n)
       case Some(List(items)) => Atom(lit) !in items
       case Some(Str(s)) => !Includes(s, lit)
       case _ => true)
    case InList(n, items) =>
      (match Get(resolved, n)
       case Some(List(vs)) => exists i | 0 <= i < |vs| :: vs[i].Atom? && vs[i].s in items
       case Some(Str(s)) => s in items
       case _ => false)
    case Truthy(k) => JsTruthy(Get(resolved, k))
  }

  /** `evaluateCondition`. */
  function EvaluateCondition(cond: string, resolved: Obj): (r: bool)
    ensures Parse(cond).Truthy? ==> (r <==> JsTruthy(Get(resolved, Trim(cond, IsJsSpace))))
    ensures Parse(cond).Contains? ==> (r <==> HoldsContains(Get(resolved, Parse(cond).name), Parse(cond).needle))
    ensures Parse(cond).Contains? && !Searchable(Get(resolved, Parse(cond).name)) ==> !r
  {
    Eval(Parse(cond), resolved)
  }

  /** `not_contains` is the negation of `contains` on lists and strings, and holds
      for an absent key and every other shape. */
  lemma NotContainsNegates(resolved: Obj, name: string, needle: string)
    ensures Searchable(Get(resolved, name)) ==>
      Eval(NotContains(name, needle), resolved) == !Eval(Contains(name, needle), resolved)
    ensures !Searchable(Get(resolved, name)) ==>
      Eval(NotContains(name, needle), resolved) && !Eval(Contains(name, needle), resolved)
  {
  }

  /** `in`: a scalar must equal a listed literal; a list must share one with the literals. */
  lemma InListMeaning(resolved: Obj, name: string, items: seq<string>)
    ensures Get(resolved, name).Some? && Get(resolved, name).value.Str? ==>
      (Eval(InList(name, items), resolved) <==> Get(resolved, name).value.s in items)
    ensures Get(resolved, name).Some? && Get(resolved, name).value.List? ==>
      (Eval(InList(name, items), resolved) <==>
        exists x | x in items :: Atom(x) in Get(resolved, name).value.items)
    ensures Get(resolved, name).None? || Get(resolved, name) == Some(Null) ==>
      !Eval(InList(name, items), resolved)
  {
    var v := Get(resolved, name);
    if v.Some? && v.value.List? {
      var vs := v.value.items;
      if exists x | x in items :: Atom(x) in vs {
        var x :| x in items && Atom(x) in vs;
        var i :| 0 <= i < |vs| && vs[i] == Atom(x);
        assert vs[i].Atom? && vs[i].s in items;
      }
    }
  }

  /** The canonical text of a predicate. */
  function Show(p: Pred): string
  {
    match p
    case Contains(n, lit) => Sentence(n, "contains", Quote(lit))
    case NotContains(n, lit) => Sentence(n, "not_contains", Quote(lit))
    case InList(n, items) => Sentence(n, "in", "[" + Join(Quoted(items), ",") + "]")
    case Truthy(k) => k
  }

  /** `n kw rest` with single blanks. */
  function Sentence(n: string, kw: string, rest: string): string
  {
    n + " " + kw + " " + rest
  }

  function Quote(x: string): string
  {
    "'" + x + "'"
  }

  function Quoted(items: seq<string>): (r: seq<string>)
    ensures |r| == |items|
  {
    seq(|items|, i requires 0 <= i < |items| => Quote(items[i]))
  }

  /** The predicates the grammar can express: identifiers are word characters,
      quoted literals are non-empty and quote-free, list literals hold no `,` or `]`. */
  predicate WellFormed(p: Pred)
  {
    match p
    case Contains(n, lit) => |n| > 0 && AllWordChars(n) && |lit| > 0 && '\'' !in lit
    case NotContains(n, lit) => |n| > 0 && AllWordChars(n) && |lit| > 0 && '\'' !in lit
    case InList(n, items) =>
      && |n| > 0 && AllWordChars(n) && |items| > 0
      && forall i | 0 <= i < |items| :: ',' !in items[i] && ']' !in items[i]
    case Truthy(k) => AllWordChars(k)
  }

  // ---- Round trip: reading the canonical text gives back the predicate ----

  /** The head `n <blank> kw <blank>` of a canonical text is scanned back. */
  lemma ScanHeadCanonical(n: string, kw: string, rest: string)
    requires |n| > 0 && AllWordChars(n)
    requires |kw| > 0 && !IsJsSpace(kw[0]) && !IsJsSpace(kw[|kw| - 1])
    requires |rest| > 0 && !IsJsSpace(rest[0])
    ensures ScanHead(Sentence(n, kw, rest), kw) == Some((|n|, |n| + |kw| + 2))
  {
    var t := Sentence(n, kw, rest);
    var w := |n|;
    var k := w + 1 + |kw|;
    SentenceChars(n, kw, rest);
    SkipWhileExact(t, 0, w, IsWordChar);
    SkipWhileOne(t, w, IsJsSpace);
    SkipWhileOne(t, k, IsJsSpace);
    ScanHeadFound(t, kw, w, w + 1, k + 1);
  }

  /** The characters of `n kw rest` around its two blanks. */
  lemma SentenceChars(n: string, kw: string, rest: string)
    requires |kw| > 0 && |rest| > 0
    ensures forall k | 0 <= k < |n| :: Sentence(n, kw, rest)[k] == n[k]
    ensures Sentence(n, kw, rest)[|n|] == ' ' && Sentence(n, kw, rest)[|n| + |kw| + 1] == ' '
    ensures HasAt(Sentence(n, kw, rest), |n| + 1, kw)
    ensures Sentence(n, kw, rest)[|n| + 1] == kw[0] && Sentence(n, kw, rest)[|n| + |kw|] == kw[|kw| - 1]
    ensures Sentence(n, kw, rest)[|n| + |kw| + 2] == rest[0]
  {
    var t := Sentence(n, kw, rest);
    assert t == n + " " + kw + " " + rest;
    assert t[|n| + 1..|n| + 1 + |kw|] == kw;
  }

  /** `ScanHead` once its identifier run, blank runs and keyword are found. */
  lemma ScanHeadFound(t: string, kw: string, w: nat, s1: nat, s2: nat)
    requires 0 < w < s1 && SkipWhile(t, 0, IsWordChar) == w && SkipWhile(t, w, IsJsSpace) == s1
    requires HasAt(t, s1, kw) && SkipWhile(t, s1 + |kw|, IsJsSpace) == s2 && s2 != s1 + |kw|
    ensures ScanHead(t, kw) == Some((w, s2))
  {
  }

  /** After an identifier and one blank, a keyword with another first letter fails. */
  lemma ScanHeadOtherKeyword(n: string, kw: string, other: string, rest: string)
    requires |n| > 0 && AllWordChars(n)
    requires |kw| > 0 && |other| > 0 && other[0] != kw[0] && !IsJsSpace(other[0])
    ensures ScanHead(Sentence(n, other, rest), kw).None?
  {
    var t := Sentence(n, other, rest);
    var w := |n|;
    assert forall k | 0 <= k < w :: t[k] == n[k];
    assert t[w] == ' ';
    SkipWhileExact(t, 0, w, IsWordChar);
    assert t[w + 1] == other[0];
    SkipWhileExact(t, w, w + 1, IsJsSpace);
  }

  /** The text after the head of a canonical sentence is its last part. */
  lemma SentenceTail(n: string, kw: string, rest: string)
    ensures Sentence(n, kw, rest)[|n| + |kw| + 2..] == rest
    ensures Sentence(n, kw, rest)[..|n|] == n
  {
    var u := n + " " + kw + " ";
    assert Sentence(n, kw, rest) == u + rest;
  }

  /** A tail `<open>body<close>` whose body avoids the closing character. */
  lemma DelimitedTail(t: string, s2: nat, open: char, body: string, close: char)
    requires s2 <= |t| && t[s2..] == [open] + body + [close]
    requires |body| > 0 && close !in body
    ensures ScanDelimited(t, s2, open, close) == Some(s2 + 1 + |body|)
    ensures t[s2 + 1..s2 + 1 + |body|] == body
  {
    var rest := t[s2..];
    var e := s2 + 1 + |body|;
    assert t[s2] == rest[0];
    forall k | s2 + 1 <= k < e ensures t[k] != close {
      assert t[k] == rest[k - s2] == body[k - s2 - 1];
    }
    assert t[e] == rest[|rest| - 1];
    SkipWhileExact(t, s2 + 1, e, Unlike(close));
    assert t[s2 + 1..e] == rest[1..|rest| - 1];
  }

  /** A canonical form `n kw <open>body<close>` whose body avoids the closing
      character is scanned back to its identifier and body. */
  lemma ScanFormCanonical(n: string, kw: string, open: char, body: string, close: char)
    requires |n| > 0 && AllWordChars(n)
    requires |kw| > 0 && !IsJsSpace(kw[0]) && !IsJsSpace(kw[|kw| - 1])
    requires !IsJsSpace(open) && |body| > 0 && close !in body
    ensures ScanForm(Sentence(n, kw, [open] + body + [close]), kw, open, close) == Some((n, body))
  {
    var rest := [open] + body + [close];
    ScanHeadCanonical(n, kw, rest);
    SentenceTail(n, kw, rest);
    ScanFormAfterHead(Sentence(n, kw, rest), n, |n| + |kw| + 2, kw, open, body, close);
  }

  /** Once the head is read up to `s2`, a delimited tail gives the identifier and body. */
  lemma ScanFormAfterHead(t: string, n: string, s2: nat, kw: string, open: char, body: string, close: char)
    requires ScanHead(t, kw) == Some((|n|, s2)) && t[..|n|] == n
    requires s2 <= |t| && t[s2..] == [open] + body + [close]
    requires |body| > 0 && close !in body
    ensures ScanForm(t, kw, open, close) == Some((n, body))
  {
    DelimitedTail(t, s2, open, body, close);
    ScanFormFound(t, kw, open, close, |n|, s2, s2 + 1 + |body|);
  }

  /** `ScanForm` once its head and its delimited text are found. */
  lemma ScanFormFound(t: string, kw: string, open: char, close: char, w: nat, s2: nat, e: nat)
    requires ScanHead(t, kw) == Some((w, s2)) && ScanDelimited(t, s2, open, close) == Some(e)
    ensures ScanForm(t, kw, open, close) == Some((t[..w], t[s2 + 1..e]))
  {
  }

  lemma ScanQuotedCanonical(n: string, kw: string, lit: string)
    requires |n| > 0 && AllWordChars(n) && |lit| > 0 && '\'' !in lit
    requires |kw| > 0 && !IsJsSpace(kw[0]) && !IsJsSpace(kw[|kw| - 1])
    ensures ScanQuoted(Sentence(n, kw, Quote(lit)), kw) == Some((n, lit))
  {
    ScanFormCanonical(n, kw, '\'', lit, '\'');
  }

  lemma ListItemsCanonical(items: seq<string>)
    requires |items| > 0
    requires forall i | 0 <= i < |items| :: ',' !in items[i]
    ensures ListItems(Join(Quoted(items), ",")) == items
  {
    var q := Quoted(items);
    forall i | 0 <= i < |q| ensures ',' !in q[i] {
      assert q[i] == Quote(items[i]);
    }
    SplitJoin(q, ',');
    assert SplitOn(Join(q, ","), ',') == q;
    forall i | 0 <= i < |items|
      ensures StripQuotes(Trim(q[i], IsJsSpace)) == items[i]
    {
      TrimUnchanged(q[i], IsJsSpace);
      assert q[i][1..|q[i]| - 1] == items[i];
    }
  }

  lemma SentenceEnds(n: string, kw: string, rest: string)
    requires |n| > 0 && |rest| > 0
    ensures Sentence(n, kw, rest)[0] == n[0]
    ensures Sentence(n, kw, rest)[|Sentence(n, kw, rest)| - 1] == rest[|rest| - 1]
  {
  }

  lemma ParseShowContains(n: string, lit: string)
    requires WellFormed(Contains(n, lit))
    ensures Parse(Show(Contains(n, lit))) == Contains(n, lit)
  {
    var t := Show(Contains(n, lit));
    SentenceEnds(n, "contains", Quote(lit));
    TrimUnchanged(t, IsJsSpace);
    ScanQuotedCanonical(n, "contains", lit);
  }

  lemma ParseShowNotContains(n: string, lit: string)
    requires WellFormed(NotContains(n, lit))
    ensures Parse(Show(NotContains(n, lit))) == NotContains(n, lit)
  {
    var t := Show(NotContains(n, lit));
    NotContainsKeyword();
    SentenceEnds(n, "not_contains", Quote(lit));
    TrimUnchanged(t, IsJsSpace);
    ScanHeadOtherKeyword(n, "contains", "not_contains", Quote(lit));
    ScanQuotedCanonical(n, "not_contains", lit);
    ParseSecondForm(t, n, lit);
  }

  /** The `not_contains` keyword has no blank at either end and does not begin
      like `contains`. */
  lemma NotContainsKeyword()
    ensures |"not_contains"| > 0 && !IsJsSpace("not_contains"[0]) && !IsJsSpace("not_contains"[|"not_contains"| - 1])
    ensures |"contains"| > 0 && "not_contains"[0] != "contains"[0]
  {
  }

  /** A trimmed text with no `contains` head that scans as `not_contains`. */
  lemma ParseSecondForm(t: string, n: string, lit: string)
    requires Trim(t, IsJsSpace) == t && ScanHead(t, "contains").None?
    requires ScanQuoted(t, "not_contains") == Some((n, lit))
    ensures Parse(t) == NotContains(n, lit)
  {
  }

  lemma ScanInCanonical(n: string, items: seq<string>)
    requires WellFormed(InList(n, items))
    ensures ScanIn(Sentence(n, "in", "[" + Join(Quoted(items), ",") + "]")) == Some((n, Join(Quoted(items), ",")))
  {
    QuotedJoinShape(items);
    ScanFormCanonical(n, "in", '[', Join(Quoted(items), ","), ']');
  }

  lemma ParseShowIn(n: string, items: seq<string>)
    requires WellFormed(InList(n, items))
    ensures Parse(Show(InList(n, items))) == InList(n, items)
  {
    var list := Join(Quoted(items), ",");
    var rest := "[" + list + "]";
    var t := Show(InList(n, items));
    assert t == Sentence(n, "in", rest);
    SentenceEnds(n, "in", rest);
    TrimUnchanged(t, IsJsSpace);
    ScanHeadOtherKeyword(n, "contains", "in", rest);
    ScanHeadOtherKeyword(n, "not_contains", "in", rest);
    ScanInCanonical(n, items);
    ListItemsCanonical(items);
  }

  /** A text made only of word characters has no blank after its identifier. */
  lemma ScanHeadAllWord(t: string, kw: string)
    requires AllWordChars(t)
    ensures ScanHead(t, kw).None?
  {
    SkipWhileExact(t, 0, |t|, IsWordChar);
  }

  lemma ParseShowTruthy(k: string)
    requires WellFormed(Truthy(k))
    ensures Parse(Show(Truthy(k))) == Truthy(k)
  {
    WordTrimmed(k);
    WordMatchesNoForm(k);
  }

  /** An identifier has no blanks to trim. */
  lemma WordTrimmed(k: string)
    requires AllWordChars(k)
    ensures Trim(k, IsJsSpace) == k
  {
    if |k| > 0 {
      TrimUnchanged(k, IsJsSpace);
    } else {
      assert Trim(k, IsJsSpace) == "";
    }
  }

  /** An identifier matches none of the three forms. */
  lemma WordMatchesNoForm(k: string)
    requires AllWordChars(k)
    ensures ScanQuoted(k, "contains").None? && ScanQuoted(k, "not_contains").None? && ScanIn(k).None?
  {
    ScanHeadAllWord(k, "contains");
    ScanHeadAllWord(k, "not_contains");
    ScanHeadAllWord(k, "in");
  }

  /** Reading the canonical text of a well-formed predicate gives the predicate back. */
  lemma ParseShow(p: Pred)
    requires WellFormed(p)
    ensures Parse(Show(p)) == p
  {
    match p
    case Contains(n, lit) => ParseShowContains(n, lit);
    case NotContains(n, lit) => ParseShowNotContains(n, lit);
    case InList(n, items) => ParseShowIn(n, items);
    case Truthy(k) => ParseShowTruthy(k);
  }

  /** Blanks around a condition do not change how it reads. */
  lemma ParseIgnoresPadding(cond: string)
    ensures Parse(Trim(cond, IsJsSpace)) == Parse(cond)
  {
    TrimUnchanged(Trim(cond, IsJsSpace), IsJsSpace);
    ParseByTrim(Trim(cond, IsJsSpace), cond);
  }

  /** Conditions that trim alike parse alike. */
  lemma ParseByTrim(x: string, y: string)
    requires Trim(x, IsJsSpace) == Trim(y, IsJsSpace)
    ensures Parse(x) == Parse(y)
  {
  }

  /** The canonical text of a well-formed predicate evaluates as the predicate. */
  lemma EvaluateShown(p: Pred, resolved: Obj)
    requires WellFormed(p)
    ensures EvaluateCondition(Show(p), resolved) == Eval(p, resolved)
  {
    ParseShow(p);
  }

  lemma QuotedJoinShape(items: seq<string>)
    requires |items| > 0
    requires forall i | 0 <= i < |items| :: ']' !in items[i]
    ensures |Join(Quoted(items), ",")| > 0
    ensures ']' !in Join(Quoted(items), ",")
  {
    var q := Quoted(items);
    forall i | 0 <= i < |q| ensures ']' !in q[i] {
      assert q[i] == Quote(items[i]);
    }
    JoinNoChar(q, ",", ']');
    JoinFirst(q, ",");
  }

  lemma JoinFirst(parts: seq<string>, sep: string)
    requires |parts| > 0
    ensures |Join(parts, sep)| >= |parts[0]|
  {
  }

  // ---- The examples of the condition language ----

  /** The canonical texts of the two examples below. */
  lemma ExampleTexts()
    ensures Show(Contains("tags", "x")) == "tags contains 'x'"
    ensures Show(InList("domain", ["a", "b"])) == "domain in ['a','b']"
  {
    ExampleInText();
  }

  lemma ExampleInText()
    ensures Show(InList("domain", ["a", "b"])) == "domain in ['a','b']"
  {
    var q := Quoted(["a", "b"]);
    assert q[0] == "'a'" && q[1] == "'b'";
    assert q[1..] == ["'b'"];
    var j := Join(q, ",");
    assert j == "'a'" + "," + "'b'";
    assert "[" + j + "]" == "['a','b']";
  }

  /** The example texts read back as their predicates. */
  lemma ContainsExampleParse(cond: string)
    requires cond == Show(Contains("tags", "x"))
    ensures Parse(cond) == Contains("tags", "x")
  {
    ParseShow(Contains("tags", "x"));
  }

  lemma InExampleParse(cond: string)
    requires cond == Show(InList("domain", ["a", "b"]))
    ensures Parse(cond) == InList("domain", ["a", "b"])
  {
    ParseShow(InList("domain", ["a", "b"]));
  }

  /** `tags contains 'x'` holds for the list `[x, y]` and fails for a string without `x`;
      `domain in ['a','b']` holds for `b` and fails for `c`. */
  lemma ExamplesEval()
    ensures Eval(Contains("tags", "x"), [("tags", List([Atom("x"), Atom("y")]))])
    ensures !Eval(Contains("tags", "x"), [("tags", Str("abc"))])
    ensures Eval(InList("domain", ["a", "b"]), [("domain", Str("b"))])
    ensures !Eval(InList("domain", ["a", "b"]), [("domain", Str("c"))])
  {
    var s := "abc";
    assert s[..1][0] == 'a' && s[1..][..1][0] == 'b' && s[2..][..1][0] == 'c';
    assert !Includes(s[3..], "x");
  }
}
