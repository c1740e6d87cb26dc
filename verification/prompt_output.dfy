/** The prompt preview's output text: after the conditional blocks are expanded,
    every context entry replaces its `{{key}}`, every `{{word}}` left over is shown
    as `[word]`, and the surrounding blanks are trimmed. */
module PromptOutput {
  import opened Json
  import opened Text
  import opened Schema
  import opened Labels
  import opened PromptPreview
  import opened PromptRender

  function Placeholder(key: string): string
  {
    "{{" + key + "}}"
  }

  /** Each context entry in turn replaces every occurrence of its placeholder with
      its display form; a later entry also sees the text an earlier one put in.
      Text without `{{` comes out unchanged. */
  function Substitute(text: string, entries: Obj, labels: LabelIndex): (r: string)
    ensures !Includes(text, "{{") ==> r == text
    decreases |entries|
  {
    if |entries| == 0 then text
    else
      var rest := Rest(entries);
      var key := entries[0].0;
      PlaceholderNeedsBraces(text, key);
      Substitute(ReplaceAll(text, Placeholder(key), FormatValue(labels, key, Some(entries[0].1))), rest, labels)
  }

  lemma IncludesLonger(s: string, a: string, b: string)
    requires !Includes(s, a)
    ensures !Includes(s, a + b)
  {
    IncludesIff(s, a);
    IncludesIff(s, a + b);
    forall i | 0 <= i <= |s| ensures !HasAt(s, i, a + b) {
      HasAtConcat(s, i, a, b);
    }
  }

  /** A text without `{{` holds no placeholder of any key. */
  lemma PlaceholderNeedsBraces(text: string, key: string)
    ensures !Includes(text, "{{") ==> !Includes(text, Placeholder(key))
  {
    if !Includes(text, "{{") {
      IncludesLonger(text, "{{", key + "}}");
      assert Placeholder(key) == "{{" + (key + "}}");
    }
  }

  // ---- A placeholder inside a text ----

  /** The characters of a placeholder. */
  lemma PlaceholderShape(k: string)
    ensures |Placeholder(k)| == |k| + 4
    ensures Placeholder(k)[0] == '{' && Placeholder(k)[1] == '{'
    ensures Placeholder(k)[|k| + 2] == '}' && Placeholder(k)[|k| + 3] == '}'
    ensures forall i | 0 <= i < |k| :: Placeholder(k)[i + 2] == k[i]
  {
  }

  /** Where two different strings of the same length first differ. */
  function FirstDiff(a: string, b: string): (m: nat)
    requires |a| == |b| && a != b
    ensures m < |a| && a[m] != b[m]
  {
    if a[0] != b[0] then 0
    else
      assert a == [a[0]] + a[1..] && b == [b[0]] + b[1..];
      1 + FirstDiff(a[1..], b[1..])
  }

  /** A literal opening with `{{` cannot start in a piece free of `{{` before its
      last character. */
  lemma BracesNotInPrefix(a: string, rest: string, lit: string, i: nat)
    requires |lit| >= 2 && lit[0] == '{' && lit[1] == '{'
    requires !Includes(a, "{{") && i + 1 < |a|
    ensures !HasAt(a + rest, i, lit)
  {
    PairAbsent(a, i, "{{");
    if i + |lit| <= |a + rest| {
      if a[i] != '{' {
        Mismatch(a + rest, i, lit, 0);
      } else {
        Mismatch(a + rest, i, lit, 1);
      }
    }
  }

  /** Nor can it start in a trailing piece free of `{{`. */
  lemma BracesNotInSuffix(front: string, b: string, lit: string, i: nat)
    requires |lit| >= 2 && lit[0] == '{' && lit[1] == '{'
    requires !Includes(b, "{{") && |front| <= i
    ensures !HasAt(front + b, i, lit)
  {
    var t := front + b;
    if i + |lit| <= |t| {
      var j := i - |front|;
      assert b[j] == t[i] && b[j + 1] == t[i + 1];
      PairAbsent(b, j, "{{");
      if b[j] != '{' {
        Mismatch(t, i, lit, 0);
      } else {
        Mismatch(t, i, lit, 1);
      }
    }
  }

  /** The characters of a placeholder past its opening braces. */
  lemma PlaceholderInner(k: string, m: nat)
    requires m <= |k|
    ensures |Placeholder(k)| == |k| + 4
    ensures Placeholder(k)[m + 2] == if m < |k| then k[m] else '}'
  {
  }

  /** A position where the placeholders of two different identifiers differ. */
  function PlaceholderDiff(k: string, k2: string): (m: nat)
    requires AllWordChars(k) && AllWordChars(k2) && k != k2
    ensures m < |Placeholder(k)| && m < |Placeholder(k2)| && Placeholder(k)[m] != Placeholder(k2)[m]
  {
    var d := if |k2| < |k| then |k2| else if |k| < |k2| then |k| else FirstDiff(k, k2);
    PlaceholderInner(k, d);
    PlaceholderInner(k2, d);
    d + 2
  }

  /** Where the placeholder of `k` starts, only that placeholder starts. */
  lemma OnlyOwnPlaceholderThere(a: string, k: string, b: string, k2: string)
    requires AllWordChars(k) && AllWordChars(k2) && k2 != k
    ensures !HasAt(a + Placeholder(k) + b, |a|, Placeholder(k2))
  {
    var t := a + Placeholder(k) + b;
    if |a| + |Placeholder(k2)| <= |t| {
      var m := PlaceholderDiff(k, k2);
      assert t[|a| + m] == Placeholder(k)[m];
      Mismatch(t, |a|, Placeholder(k2), m);
    }
  }

  /** No placeholder starts on the last character of `a` or inside the placeholder
      of `k` past its start. */
  lemma NoPlaceholderAround(a: string, k: string, b: string, k2: string, i: nat)
    requires |k| > 0 && AllWordChars(k) && AllWordChars(k2)
    requires i + 1 == |a| || |a| < i < |a| + |Placeholder(k)|
    ensures !HasAt(a + Placeholder(k) + b, i, Placeholder(k2))
  {
    var p := Placeholder(k);
    var p2 := Placeholder(k2);
    var t := a + p + b;
    var n := |a|;
    PlaceholderShape(k);
    PlaceholderShape(k2);
    if i + |p2| <= |t| {
      if i + 1 == n {
        assert t[i + 2] == p[1];
        Mismatch(t, i, p2, 2);
      } else if i == n + 1 {
        assert t[i + 1] == p[2];
        Mismatch(t, i, p2, 1);
      } else {
        assert t[i] == p[i - n];
        Mismatch(t, i, p2, 0);
      }
    }
  }

  /** Between pieces free of `{{`, the placeholder of an identifier occurs only
      where the placeholder of `k` stands, and only as that placeholder. */
  lemma PlaceholderElsewhere(a: string, k: string, b: string, k2: string, i: nat)
    requires |k| > 0 && AllWordChars(k) && AllWordChars(k2)
    requires !Includes(a, "{{") && !Includes(b, "{{")
    requires i != |a| || k2 != k
    ensures !HasAt(a + Placeholder(k) + b, i, Placeholder(k2))
  {
    var p := Placeholder(k);
    PlaceholderShape(k2);
    if i + 1 < |a| {
      ConcatAssoc(a, p, b);
      BracesNotInPrefix(a, p + b, Placeholder(k2), i);
    } else if i == |a| {
      OnlyOwnPlaceholderThere(a, k, b, k2);
    } else if i < |a| + |p| {
      NoPlaceholderAround(a, k, b, k2, i);
    } else {
      BracesNotInSuffix(a + p, b, Placeholder(k2), i);
    }
  }

  /** Every key is an identifier, as question ids and the table key are. */
  predicate IdentKeys(o: seq<(string, Value)>)
  {
    forall k | k in Keys(o) :: |k| > 0 && AllWordChars(k)
  }

  /** Replacing another identifier's placeholder leaves such a text as it is. */
  lemma OtherPlaceholderKept(a: string, k: string, b: string, k2: string, rep: string)
    requires |k| > 0 && AllWordChars(k) && AllWordChars(k2) && k2 != k
    requires !Includes(a, "{{") && !Includes(b, "{{")
    ensures ReplaceAll(a + Placeholder(k) + b, Placeholder(k2), rep) == a + Placeholder(k) + b
  {
    var t := a + Placeholder(k) + b;
    IncludesIff(t, Placeholder(k2));
    forall i | 0 <= i <= |t| ensures !HasAt(t, i, Placeholder(k2)) {
      PlaceholderElsewhere(a, k, b, k2, i);
    }
  }

  /** Replacing the placeholder of `k` itself puts the replacement in its place. */
  lemma OwnPlaceholderReplaced(a: string, k: string, b: string, rep: string)
    requires |k| > 0 && AllWordChars(k)
    requires !Includes(a, "{{") && !Includes(b, "{{")
    ensures ReplaceAll(a + Placeholder(k) + b, Placeholder(k), rep) == a + rep + b
  {
    var p := Placeholder(k);
    var t := a + p + b;
    forall i | 0 <= i < |a| ensures !StartsWith(t[i..], p) {
      StartsWithAt(t, i, p);
      PlaceholderElsewhere(a, k, b, k, i);
    }
    ReplaceAllLeftmost(a, b, p, rep);
    PlaceholderNeedsBraces(b, k);
  }

  /** What the substitution lemmas assume: an identifier `k` whose placeholder stands
      between pieces free of `{{`, in a context whose keys are identifiers. */
  predicate Framed(a: string, k: string, b: string, ctx: Obj)
  {
    && |k| > 0 && AllWordChars(k) && IdentKeys(ctx)
    && !Includes(a, "{{") && !Includes(b, "{{")
  }

  /** The first entry, when it is another key's, leaves such a text to the rest of
      the context, which is framed alike and holds the same value for `k`. */
  lemma SubstituteSkipsFirst(a: string, k: string, b: string, ctx: Obj, labels: LabelIndex)
    requires Framed(a, k, b, ctx) && |ctx| > 0 && ctx[0].0 != k
    ensures Framed(a, k, b, Rest(ctx)) && Get(Rest(ctx), k) == Get(ctx, k)
    ensures Keys(ctx) == {ctx[0].0} + Keys(Rest(ctx))
    ensures Substitute(a + Placeholder(k) + b, ctx, labels) == Substitute(a + Placeholder(k) + b, Rest(ctx), labels)
  {
    KeysCons(ctx);
    OtherPlaceholderKept(a, k, b, ctx[0].0, FormatValue(labels, ctx[0].0, Some(ctx[0].1)));
  }

  /** The first entry, when it is the placeholder's key, settles the text. */
  lemma SubstituteHitsFirst(a: string, k: string, b: string, ctx: Obj, labels: LabelIndex)
    requires Framed(a, k, b, ctx) && |ctx| > 0 && ctx[0].0 == k
    requires !Includes(a + FormatValue(labels, k, Get(ctx, k)) + b, "{{")
    ensures Substitute(a + Placeholder(k) + b, ctx, labels) == a + FormatValue(labels, k, Get(ctx, k)) + b
  {
    assert Get(ctx, k) == Some(ctx[0].1);
    OwnPlaceholderReplaced(a, k, b, FormatValue(labels, k, Some(ctx[0].1)));
  }

  /** `{{k}}` for a key of the context, between pieces free of `{{`, becomes the
      key's display form, provided the result holds no `{{` for a later key to find. */
  lemma SubstituteKnown(a: string, k: string, b: string, ctx: Obj, labels: LabelIndex)
    requires |k| > 0 && AllWordChars(k) && IdentKeys(ctx) && k in Keys(ctx)
    requires !Includes(a, "{{") && !Includes(b, "{{")
    requires !Includes(a + FormatValue(labels, k, Get(ctx, k)) + b, "{{")
    ensures Substitute(a + Placeholder(k) + b, ctx, labels) == a + FormatValue(labels, k, Get(ctx, k)) + b
  {
    KnownFromFirst(a, k, b, ctx, labels);
  }

  lemma {:induction false} KnownFromFirst(a: string, k: string, b: string, ctx: Obj, labels: LabelIndex)
    requires Framed(a, k, b, ctx) && k in Keys(ctx)
    requires !Includes(a + FormatValue(labels, k, Get(ctx, k)) + b, "{{")
    ensures Substitute(a + Placeholder(k) + b, ctx, labels) == a + FormatValue(labels, k, Get(ctx, k)) + b
    decreases |ctx|
  {
    if ctx[0].0 == k {
      SubstituteHitsFirst(a, k, b, ctx, labels);
    } else {
      SubstituteSkipsFirst(a, k, b, ctx, labels);
      KnownFromFirst(a, k, b, Rest(ctx), labels);
    }
  }

  /** `{{k}}` for a key missing from the context stays as it is. */
  lemma SubstituteUnknown(a: string, k: string, b: string, ctx: Obj, labels: LabelIndex)
    requires |k| > 0 && AllWordChars(k) && IdentKeys(ctx) && k !in Keys(ctx)
    requires !Includes(a, "{{") && !Includes(b, "{{")
    ensures Substitute(a + Placeholder(k) + b, ctx, labels) == a + Placeholder(k) + b
  {
    UnknownFromFirst(a, k, b, ctx, labels);
  }

  lemma {:induction false} UnknownFromFirst(a: string, k: string, b: string, ctx: Obj, labels: LabelIndex)
    requires Framed(a, k, b, ctx) && k !in Keys(ctx)
    ensures Substitute(a + Placeholder(k) + b, ctx, labels) == a + Placeholder(k) + b
    decreases |ctx|
  {
    if |ctx| > 0 {
      KeysCons(ctx);
      SubstituteSkipsFirst(a, k, b, ctx, labels);
      UnknownFromFirst(a, k, b, Rest(ctx), labels);
    }
  }

  // ---- Leftover placeholders ----

  /** `\{\{(\w+)\}\}` anchored at the start of `t`: the end of the word. Since `}` is
      not a word character, the greedy word run is the only candidate. */
  function PlaceholderAt(t: string): (r: Option<nat>)
    ensures r.Some? ==> 2 < r.value && r.value + 2 <= |t| && HasAt(t, r.value, "}}")
    ensures r.Some? ==> StartsWith(t, "{{") && AllWordChars(t[2..r.value])
  {
    if !StartsWith(t, "{{") then None
    else
      var w := SkipWhile(t, 2, IsWordChar);
      if w > 2 && HasAt(t, w, "}}") then
        assert forall i | 0 <= i < w - 2 :: t[2..w][i] == t[i + 2];
        Some(w)
      else None
  }

  /** A placeholder occurs at the start of `t` exactly when `t` begins with `{{`, a
      non-empty word and `}}`. */
  lemma PlaceholderAtIff(t: string, word: string)
    requires |word| > 0 && AllWordChars(word)
    ensures StartsWith(t, Placeholder(word)) ==> PlaceholderAt(t) == Some(2 + |word|)
    ensures PlaceholderAt(t) == Some(2 + |word|) ==> StartsWith(t, Placeholder(word)) || t[2..2 + |word|] != word
  {
    if StartsWith(t, Placeholder(word)) {
      PlaceholderChars(t, word);
      SkipWhileExact(t, 2, 2 + |word|, IsWordChar);
      assert t[..2] == "{{";
    }
    if PlaceholderAt(t) == Some(2 + |word|) && t[2..2 + |word|] == word {
      var n := 2 + |word|;
      assert t[..n + 2] == t[..2] + t[2..n] + t[n..n + 2];
    }
  }

  lemma PlaceholderChars(t: string, word: string)
    requires StartsWith(t, Placeholder(word))
    ensures |t| >= |word| + 4
    ensures t[0] == '{' && t[1] == '{' && t[2 + |word|] == '}' && t[3 + |word|] == '}'
    ensures forall i | 0 <= i < |word| :: t[2 + i] == word[i]
    ensures t[..2] == "{{" && t[2..2 + |word|] == word && HasAt(t, 2 + |word|, "}}")
  {
    var p := Placeholder(word);
    assert t[..|p|] == p;
    forall i | 0 <= i < |word| ensures t[2 + i] == word[i] {
      assert t[..|p|][2 + i] == p[2 + i];
    }
    assert t[..|p|][0] == '{' && t[..|p|][1] == '{';
    assert t[..|p|][2 + |word|] == '}' && t[..|p|][3 + |word|] == '}';
    assert t[2..2 + |word|] == p[2..2 + |word|];
    assert t[2 + |word|..4 + |word|] == p[2 + |word|..];
  }

  /** The global replace of `\{\{(\w+)\}\}` by `[$1]`. It never lengthens the
      text, and text without `{{` comes out unchanged. */
  function Cleanup(t: string): (r: string)
    ensures |r| <= |t|
    ensures !Includes(t, "{{") ==> r == t
    decreases |t|
  {
    if |t| == 0 then ""
    else
      match PlaceholderAt(t)
      case Some(w) => "[" + t[2..w] + "]" + Cleanup(t[w + 2..])
      case None =>
        assert !Includes(t, "{{") ==> t == [t[0]] + t[1..];
        [t[0]] + Cleanup(t[1..])
  }

  /** No position of `s` starts a placeholder. */
  predicate NoPlaceholder(s: string)
  {
    forall i | 0 <= i <= |s| :: PlaceholderAt(s[i..]).None?
  }

  /** What a matched placeholder at the start of `t` spans, as a prefix. */
  lemma PlaceholderPrefix(t: string, u: string, w: nat)
    requires PlaceholderAt(t) == Some(w)
    requires StartsWith(u, t[..w + 2])
    ensures PlaceholderAt(u) == Some(w)
    ensures '[' !in t[..w + 2]
  {
    var word := t[2..w];
    assert t[..w + 2] == Placeholder(word) by {
      assert t[..w + 2] == t[..2] + t[2..w] + t[w..w + 2];
    }
    assert StartsWith(u, Placeholder(word));
    PlaceholderAtIff(u, word);
    PlaceholderChars(t, word);
    var m := t[..w + 2];
    forall i | 0 <= i < |m| ensures m[i] != '[' {
      if 2 <= i < w {
        assert m[i] == word[i - 2];
        assert IsWordChar(word[i - 2]);
      }
    }
  }

  /** A prefix of the cleaned text without `[` was already a prefix of the input. */
  lemma {:induction false} CleanupPrefix(u: string, p: string)
    requires StartsWith(Cleanup(u), p) && '[' !in p
    ensures StartsWith(u, p)
    decreases |u|
  {
    if |p| > 0 {
      assert |u| > 0 && Cleanup(u)[0] == p[0] by {
        assert Cleanup(u)[..|p|][0] == p[0];
      }
      assert PlaceholderAt(u).None?;
      var rest := Cleanup(u[1..]);
      assert Cleanup(u) == [u[0]] + rest;
      StartsWithCons(Cleanup(u), p);
      assert Cleanup(u)[1..] == rest;
      CleanupPrefix(u[1..], p[1..]);
      StartsWithCons(u, p);
    }
  }

  /** Where a character other than `{` stands, no placeholder starts. */
  lemma NotBrace(s: string, i: nat)
    requires i < |s| && s[i] != '{'
    ensures PlaceholderAt(s[i..]).None?
  {
    assert s[i..][0] == s[i];
  }

  /** The cleaned text holds no placeholder: every `{{word}}` was replaced, and the
      replacements cannot form a new one. */
  lemma {:induction false} CleanupNoPlaceholder(t: string)
    ensures NoPlaceholder(Cleanup(t))
    decreases |t|
  {
    var o := Cleanup(t);
    if |t| == 0 {
      assert o[0..] == "";
    } else {
      match PlaceholderAt(t)
      case Some(w) =>
        var rest := Cleanup(t[w + 2..]);
        var head := "[" + t[2..w] + "]";
        CleanupNoPlaceholder(t[w + 2..]);
        assert o == head + rest;
        forall i | 0 <= i <= |o| ensures PlaceholderAt(o[i..]).None? {
          if i < |head| {
            if 0 < i < |head| - 1 {
              assert o[i] == t[2..w][i - 1];
              assert IsWordChar(t[2..w][i - 1]);
            }
            NotBrace(o, i);
          } else {
            assert o[i..] == rest[i - |head|..];
          }
        }
      case None =>
        var rest := Cleanup(t[1..]);
        CleanupNoPlaceholder(t[1..]);
        assert o == [t[0]] + rest;
        forall i | 0 <= i <= |o| ensures PlaceholderAt(o[i..]).None? {
          if i > 0 {
            assert o[i..] == rest[i - 1..];
          } else {
            CleanupHead(t);
          }
        }
    }
  }

  /** When no placeholder starts the input, none starts the cleaned text. */
  lemma CleanupHead(t: string)
    requires |t| > 0
    ensures PlaceholderAt(t).None? ==> PlaceholderAt(Cleanup(t)).None?
  {
    var o := Cleanup(t);
    if PlaceholderAt(o).Some? {
      var pw := PlaceholderAt(o).value;
      var p := o[..pw + 2];
      PlaceholderPrefix(o, o, pw);
      assert PlaceholderAt(t).None?;
      var rest := Cleanup(t[1..]);
      assert o == [t[0]] + rest;
      StartsWithCons(o, p);
      assert o[1..] == rest;
      CleanupPrefix(t[1..], p[1..]);
      StartsWithCons(t, p);
      PlaceholderPrefix(o, t, pw);
    }
  }

  /** A placeholder scanned in `a` ends inside `a` when `{{` follows it. */
  lemma PlaceholderAtExtended(a: string, s: string)
    requires |a| > 0 && StartsWith(s, "{{")
    ensures PlaceholderAt(a + s) == PlaceholderAt(a)
  {
    var t := a + s;
    assert s[0] == '{' && s[1] == '{' by {
      assert s[..2][0] == s[0] && s[..2][1] == s[1];
    }
    if |a| == 1 {
      if StartsWith(t, "{{") {
        assert t[2] == s[1];
        assert SkipWhile(t, 2, IsWordChar) == 2;
      }
    } else {
      assert t[..2] == a[..2];
      if StartsWith(a, "{{") {
        SkipWhileExtended(a, s, 2, IsWordChar);
        var w := SkipWhile(a, 2, IsWordChar);
        if w + 2 <= |a| {
          assert t[w..w + 2] == a[w..w + 2];
        } else {
          assert t[|a|] == s[0];
          Mismatch(t, w, "}}", |a| - w);
        }
      }
    }
  }

  /** Cleaning a text cuts at any point where `{{` follows: each side is cleaned on
      its own. */
  lemma {:induction false} CleanupExtended(a: string, s: string)
    requires StartsWith(s, "{{")
    ensures Cleanup(a + s) == Cleanup(a) + Cleanup(s)
    decreases |a|
  {
    var t := a + s;
    if |a| == 0 {
      assert t == s;
    } else {
      PlaceholderAtExtended(a, s);
      match PlaceholderAt(a)
      case Some(w) =>
        assert t[2..w] == a[2..w];
        assert t[w + 2..] == a[w + 2..] + s;
        CleanupExtended(a[w + 2..], s);
        ConcatAssoc("[" + a[2..w] + "]", Cleanup(a[w + 2..]), Cleanup(s));
      case None =>
        assert t[0] == a[0];
        assert t[1..] == a[1..] + s;
        CleanupExtended(a[1..], s);
        ConcatAssoc([a[0]], Cleanup(a[1..]), Cleanup(s));
    }
  }

  /** A placeholder at the start is bracketed, and cleaning continues after it. */
  lemma CleanupPlaceholderFirst(k: string, b: string)
    requires |k| > 0 && AllWordChars(k)
    ensures Cleanup(Placeholder(k) + b) == "[" + k + "]" + Cleanup(b)
  {
    var t := Placeholder(k) + b;
    assert StartsWith(t, Placeholder(k)) by {
      assert t[..|Placeholder(k)|] == Placeholder(k);
    }
    PlaceholderAtIff(t, k);
    PlaceholderChars(t, k);
    assert t[|k| + 4..] == b;
  }

  /** Every `{{word}}` becomes `[word]`: whatever surrounds a placeholder, cleaning
      brackets its word and cleans each side on its own. */
  lemma CleanupSplit(a: string, k: string, b: string)
    requires |k| > 0 && AllWordChars(k)
    ensures Cleanup(a + Placeholder(k) + b) == Cleanup(a) + "[" + k + "]" + Cleanup(b)
  {
    var s := Placeholder(k) + b;
    ConcatAssoc(a, Placeholder(k), b);
    assert StartsWith(s, "{{") by {
      assert s[..2] == Placeholder(k)[..2];
    }
    CleanupExtended(a, s);
    CleanupPlaceholderFirst(k, b);
    BracketAssoc(Cleanup(a), k, Cleanup(b));
  }

  lemma BracketAssoc(c: string, k: string, d: string)
    ensures c + ("[" + k + "]" + d) == c + "[" + k + "]" + d
  {
  }

  /** A piece of a text without placeholders has none either. */
  lemma NoPlaceholderInfix(s: string, a: nat, r: string)
    requires NoPlaceholder(s) && HasAt(s, a, r)
    ensures NoPlaceholder(r)
  {
    forall i | 0 <= i <= |r|
      ensures PlaceholderAt(r[i..]).Some? ==> PlaceholderAt(s[a + i..]).Some?
    {
      if PlaceholderAt(r[i..]).Some? {
        var w := PlaceholderAt(r[i..]).value;
        var lit := r[i..][..w + 2];
        assert lit == r[i..i + w + 2];
        HasAtShift(s, a, r, i, lit);
        assert s[a + i..][..w + 2] == s[a + i..a + i + w + 2];
        PlaceholderPrefix(r[i..], s[a + i..], w);
      }
    }
  }

  /** The preview text for a template text and a context: conditional blocks,
      then placeholders, then leftovers, then trimming. No placeholder survives,
      and the text neither starts nor ends with a blank. */
  function RenderText(text: string, ctx: Obj, labels: LabelIndex): (r: string)
    ensures NoPlaceholder(r)
    ensures |r| > 0 ==> !IsJsSpace(r[0]) && !IsJsSpace(r[|r| - 1])
  {
    var s := Substitute(Expand(text, ctx), ctx, labels);
    CleanupNoPlaceholder(s);
    TrimKeepsNoPlaceholder(Cleanup(s));
    Trim(Cleanup(s), IsJsSpace)
  }

  /** Trimming keeps a text free of placeholders. */
  lemma TrimKeepsNoPlaceholder(c: string)
    requires NoPlaceholder(c)
    ensures NoPlaceholder(Trim(c, IsJsSpace))
  {
    var r := Trim(c, IsJsSpace);
    var a :| 0 <= a <= |c| - |r| && HasAt(c, a, r)
      && (forall i | 0 <= i < a :: IsJsSpace(c[i]))
      && (forall i | a + |r| <= i < |c| :: IsJsSpace(c[i]));
    NoPlaceholderInfix(c, a, r);
  }

  /** A text with no tag, no placeholder and no surrounding blanks renders as itself,
      whatever the context. */
  lemma RenderTextPlain(text: string, ctx: Obj, labels: LabelIndex)
    requires !Includes(text, "{%") && !Includes(text, "{{")
    requires |text| > 0 ==> !IsJsSpace(text[0]) && !IsJsSpace(text[|text| - 1])
    ensures RenderText(text, ctx, labels) == text
  {
    TrimUnchanged(text, IsJsSpace);
  }

  /** No tag opens inside a placeholder of an identifier. */
  lemma NoTagInPlaceholder(k: string)
    requires AllWordChars(k)
    ensures !Includes(Placeholder(k), "{%")
  {
    NoTagAround("", k, "");
    assert "" + Placeholder(k) + "" == Placeholder(k);
  }

  /** Placing the placeholder of an identifier between pieces without `{%` opens no tag. */
  lemma NoTagAround(a: string, k: string, b: string)
    requires AllWordChars(k) && !Includes(a, "{%") && !Includes(b, "{%")
    ensures !Includes(a + Placeholder(k) + b, "{%")
  {
    var p := Placeholder(k);
    var t := a + p + b;
    var n := |a|;
    PlaceholderShape(k);
    IncludesIff(t, "{%");
    forall i | 0 <= i <= |t| ensures !HasAt(t, i, "{%") {
      if i + 2 <= |t| {
        if i + 1 < n {
          PairAbsent(a, i, "{%");
          if a[i] != '{' {
            Mismatch(t, i, "{%", 0);
          } else {
            Mismatch(t, i, "{%", 1);
          }
        } else if i + 1 < n + |p| {
          assert t[i + 1] == p[i + 1 - n];
          Mismatch(t, i, "{%", 1);
        } else if i < n + |p| {
          assert t[i] == p[|p| - 1];
          Mismatch(t, i, "{%", 0);
        } else {
          var j := i - n - |p|;
          assert b[j] == t[i] && b[j + 1] == t[i + 1];
          PairAbsent(b, j, "{%");
          if b[j] != '{' {
            Mismatch(t, i, "{%", 0);
          } else {
            Mismatch(t, i, "{%", 1);
          }
        }
      }
    }
  }

  /** The preview renders `{{k}}` for a key of the context, between pieces with no
      tag and no `{{`, as the key's display form, and trims the result. */
  lemma RendersKnown(a: string, k: string, b: string, ctx: Obj, labels: LabelIndex)
    requires |k| > 0 && AllWordChars(k) && IdentKeys(ctx) && k in Keys(ctx)
    requires !Includes(a, "{%") && !Includes(b, "{%") && !Includes(a, "{{") && !Includes(b, "{{")
    requires !Includes(a + FormatValue(labels, k, Get(ctx, k)) + b, "{{")
    ensures RenderText(a + Placeholder(k) + b, ctx, labels) == Trim(a + FormatValue(labels, k, Get(ctx, k)) + b, IsJsSpace)
  {
    NoTagAround(a, k, b);
    SubstituteKnown(a, k, b, ctx, labels);
  }

  /** The preview shows `{{k}}` for a key missing from the context as `[k]`. */
  lemma RendersUnknown(a: string, k: string, b: string, ctx: Obj, labels: LabelIndex)
    requires |k| > 0 && AllWordChars(k) && IdentKeys(ctx) && k !in Keys(ctx)
    requires !Includes(a, "{%") && !Includes(b, "{%") && !Includes(a, "{{") && !Includes(b, "{{")
    ensures RenderText(a + Placeholder(k) + b, ctx, labels) == Trim(a + "[" + k + "]" + b, IsJsSpace)
  {
    NoTagAround(a, k, b);
    SubstituteUnknown(a, k, b, ctx, labels);
    CleanupSplit(a, k, b);
  }

  /** Text that neither starts nor ends with JavaScript white space. */
  predicate Unpadded(x: string)
  {
    |x| > 0 ==> !IsJsSpace(x[0]) && !IsJsSpace(x[|x| - 1])
  }

  /** Text with non-blank ends is its own trim. */
  lemma UntrimmedText(x: string)
    requires Unpadded(x)
    ensures Trim(x, IsJsSpace) == x
  {
    TrimUnchanged(x, IsJsSpace);
  }

  /** A bracketed name between a piece that starts with a non-blank and a piece
      that ends with one (or is empty) has nothing to trim. */
  lemma BracketedUntrimmed(a: string, k: string, b: string)
    requires |a| > 0 && !IsJsSpace(a[0])
    requires |b| > 0 ==> !IsJsSpace(b[|b| - 1])
    ensures Trim(a + "[" + k + "]" + b, IsJsSpace) == a + "[" + k + "]" + b
  {
    var x := a + "[" + k + "]" + b;
    assert x[0] == a[0];
    if |b| == 0 {
      assert x[|x| - 1] == ']';
    } else {
      assert x[|x| - 1] == b[|b| - 1];
    }
    TrimUnchanged(x, IsJsSpace);
  }

  /** `RendersUnknown` when the text has nothing to trim. */
  lemma RendersUnknownUntrimmed(a: string, k: string, b: string, ctx: Obj, labels: LabelIndex)
    requires |k| > 0 && AllWordChars(k) && IdentKeys(ctx) && k !in Keys(ctx)
    requires !Includes(a, "{%") && !Includes(b, "{%") && !Includes(a, "{{") && !Includes(b, "{{")
    requires |a| > 0 && !IsJsSpace(a[0])
    requires |b| > 0 ==> !IsJsSpace(b[|b| - 1])
    ensures RenderText(a + Placeholder(k) + b, ctx, labels) == a + "[" + k + "]" + b
  {
    RendersUnknown(a, k, b, ctx, labels);
    BracketedUntrimmed(a, k, b);
  }

  /** `RendersKnown` when the text has nothing to trim. */
  lemma RendersKnownUntrimmed(a: string, k: string, b: string, ctx: Obj, labels: LabelIndex)
    requires |k| > 0 && AllWordChars(k) && IdentKeys(ctx) && k in Keys(ctx)
    requires !Includes(a, "{%") && !Includes(b, "{%") && !Includes(a, "{{") && !Includes(b, "{{")
    requires !Includes(a + FormatValue(labels, k, Get(ctx, k)) + b, "{{")
    requires Unpadded(a + FormatValue(labels, k, Get(ctx, k)) + b)
    ensures RenderText(a + Placeholder(k) + b, ctx, labels) == a + FormatValue(labels, k, Get(ctx, k)) + b
  {
    RendersKnown(a, k, b, ctx, labels);
    UntrimmedText(a + FormatValue(labels, k, Get(ctx, k)) + b);
  }

  /** A text whose expansion holds no `{{` and has nothing to trim renders as that
      expansion. */
  lemma RendersExpansion(text: string, ctx: Obj, labels: LabelIndex)
    requires !Includes(Expand(text, ctx), "{{")
    requires Unpadded(Expand(text, ctx))
    ensures RenderText(text, ctx, labels) == Expand(text, ctx)
  {
    TrimUnchanged(Expand(text, ctx), IsJsSpace);
  }

  /** Texts with the same expansion render alike. */
  lemma RendersLikeExpansion(text: string, plain: string, ctx: Obj, labels: LabelIndex)
    requires !Includes(plain, "{%") && Expand(text, ctx) == plain
    ensures RenderText(text, ctx, labels) == RenderText(plain, ctx, labels)
  {
    assert Expand(plain, ctx) == plain;
  }

  /** The first output definition of the prompt kind. */
  function FirstPrompt(outputs: seq<OutputDef>): (r: Option<nat>)
    ensures r.Some? ==> r.value < |outputs| && outputs[r.value].kind == PromptOutput
    ensures r.Some? ==> forall j | 0 <= j < r.value :: outputs[j].kind != PromptOutput
    ensures r.None? ==> forall j | 0 <= j < |outputs| :: outputs[j].kind != PromptOutput
  {
    if |outputs| == 0 then None
    else if outputs[0].kind == PromptOutput then Some(0)
    else
      match FirstPrompt(outputs[1..])
      case Some(i) => Some(i + 1)
      case None => None
  }

  /** The text of the first prompt output; '' when there is none. */
  function PromptTemplate(outputs: seq<OutputDef>): (t: string)
    ensures FirstPrompt(outputs).None? ==> t == ""
    ensures FirstPrompt(outputs).Some? ==> t == outputs[FirstPrompt(outputs).value].text
  {
    match FirstPrompt(outputs)
    case None => ""
    case Some(i) => outputs[i].text
  }

  lemma NoPlaceholderEmpty()
    ensures NoPlaceholder("")
  {
    assert PlaceholderAt("").None?;
  }

  /** The prompt preview: '' without a prompt output or with an empty prompt text;
      otherwise the prompt text rendered against the resolved answers, with the
      option labels of the template's questions. */
  function RenderedPrompt(tpl: Template, answers: Option<Obj>): (r: string)
    ensures FirstPrompt(tpl.outputs).None? ==> r == ""
    ensures PromptTemplate(tpl.outputs) != "" ==>
      r == RenderText(PromptTemplate(tpl.outputs), ResolvedAnswers(DefaultAnswers(tpl.questions), answers), OptionLabels(tpl.questions))
    ensures NoPlaceholder(r)
    ensures |r| > 0 ==> !IsJsSpace(r[0]) && !IsJsSpace(r[|r| - 1])
  {
    var text := PromptTemplate(tpl.outputs);
    if text == "" then
      NoPlaceholderEmpty();
      ""
    else
      RenderText(text, ResolvedAnswers(DefaultAnswers(tpl.questions), answers), OptionLabels(tpl.questions))
  }
}
