/** String scanning shared by the renderers: the character classes their regular
    expressions use, trimming, substring search, literal replace-all, join and split. */
module Text {

  /** JavaScript `\s`, which is also the set `String.prototype.trim` removes. */
  predicate IsJsSpace(c: char)
  {
    || c in {' ', '\t', '\n', '\r', '\U{0B}', '\U{0C}', '\U{A0}', '\U{1680}',
             '\U{2028}', '\U{2029}', '\U{202F}', '\U{205F}', '\U{3000}', '\U{FEFF}'}
    || ('\U{2000}' <= c <= '\U{200A}')
  }

  /** Python `str.isspace`, which is also the `\s` of a `str` pattern and what `strip()` removes. */
  predicate IsPySpace(c: char)
  {
    || c in {' ', '\t', '\n', '\r', '\U{0B}', '\U{0C}', '\U{1C}', '\U{1D}', '\U{1E}', '\U{1F}',
             '\U{85}', '\U{A0}', '\U{1680}', '\U{2028}', '\U{2029}', '\U{202F}', '\U{205F}', '\U{3000}'}
    || ('\U{2000}' <= c <= '\U{200A}')
  }

  /** The characters a JavaScript `.` does not match. */
  predicate IsLineTerminator(c: char)
  {
    c in {'\n', '\r', '\U{2028}', '\U{2029}'}
  }

  /** `\w`: ASCII letters, digits and underscore. */
  predicate IsWordChar(c: char)
  {
    ('a' <= c <= 'z') || ('A' <= c <= 'Z') || ('0' <= c <= '9') || c == '_'
  }

  predicate AllWordChars(s: string)
  {
    forall i | 0 <= i < |s| :: IsWordChar(s[i])
  }

  /** The end of the longest run of `p`-characters of `t` that starts at `i`. */
  function SkipWhile(t: string, i: nat, p: char -> bool): (j: nat)
    requires i <= |t|
    ensures i <= j <= |t|
    ensures forall k | i <= k < j :: p(t[k])
    ensures j < |t| ==> !p(t[j])
    decreases |t| - i
  {
    if i < |t| && p(t[i]) then SkipWhile(t, i + 1, p) else i
  }

  /** `lit` occurs in `t` at position `i`. */
  predicate HasAt(t: string, i: nat, lit: string)
  {
    i + |lit| <= |t| && t[i..i + |lit|] == lit
  }

  /** How a concatenation with a non-empty left part splits at its first character. */
  lemma ConsSplit(s: string, x: string)
    requires |s| > 0
    ensures s + x == [s[0]] + (s[1..] + x)
    ensures (s + x)[0] == s[0] && (s + x)[1..] == s[1..] + x
  {
    assert s == [s[0]] + s[1..];
  }

  /** `a + b` occurs at `i` exactly when `a` does and `b` follows it. */
  lemma HasAtConcat(t: string, i: nat, a: string, b: string)
    ensures HasAt(t, i, a + b) <==> HasAt(t, i, a) && HasAt(t, i + |a|, b)
  {
    if HasAt(t, i, a) && HasAt(t, i + |a|, b) {
      assert t[i..i + |a| + |b|] == t[i..i + |a|] + t[i + |a|..i + |a| + |b|];
    }
    if HasAt(t, i, a + b) {
      assert t[i..i + |a|] == (a + b)[..|a|];
      assert t[i + |a|..i + |a| + |b|] == (a + b)[|a|..];
    }
  }

  lemma HasAtChars(t: string, i: nat, lit: string)
    requires HasAt(t, i, lit)
    ensures forall k | i <= k < i + |lit| :: t[k] == lit[k - i]
  {
    forall k | i <= k < i + |lit| ensures t[k] == lit[k - i] {
      assert t[i..i + |lit|][k - i] == t[k];
    }
  }

  /** One character of a literal found at `i`. */
  lemma HasAtChar(t: string, i: nat, lit: string, m: nat)
    requires HasAt(t, i, lit) && m < |lit|
    ensures t[i + m] == lit[m]
  {
    assert t[i..i + |lit|][m] == t[i + m];
  }

  /** A run of exactly one character. */
  lemma SkipWhileOne(t: string, i: nat, p: char -> bool)
    requires i + 1 < |t| && p(t[i]) && !p(t[i + 1])
    ensures SkipWhile(t, i, p) == i + 1
  {
    SkipWhileExact(t, i, i + 1, p);
  }

  /** The two halves of a concatenation occur where they stand. */
  lemma HasAtHalves(x: string, y: string)
    ensures HasAt(x + y, 0, x) && HasAt(x + y, |x|, y)
  {
    assert (x + y)[0..|x|] == x;
    assert (x + y)[|x|..|x| + |y|] == y;
  }

  /** Inside an occurrence of `s`, a literal occurs exactly where it occurs in `s`. */
  lemma HasAtShift(t: string, b: nat, s: string, i: nat, lit: string)
    requires HasAt(t, b, s) && i + |lit| <= |s|
    ensures HasAt(t, b + i, lit) <==> HasAt(s, i, lit)
  {
    var x := t[b + i..b + i + |lit|];
    var y := s[i..i + |lit|];
    forall k | 0 <= k < |lit| ensures x[k] == y[k] {
      assert t[b..b + |s|][i + k] == t[b + i + k];
    }
    assert x == y;
  }

  predicate StartsWith(s: string, p: string)
  {
    |p| <= |s| && s[..|p|] == p
  }

  /** A non-empty prefix is its first character followed by a prefix of the tail. */
  lemma StartsWithCons(s: string, p: string)
    requires |s| > 0 && |p| > 0
    ensures StartsWith(s, p) <==> s[0] == p[0] && StartsWith(s[1..], p[1..])
  {
    if StartsWith(s, p) {
      assert s[..|p|][0] == s[0];
      assert s[1..][..|p| - 1] == s[..|p|][1..];
    }
    if s[0] == p[0] && StartsWith(s[1..], p[1..]) {
      assert s[..|p|] == [s[0]] + s[1..][..|p| - 1];
      assert p == [p[0]] + p[1..];
    }
  }

  /** The start of the longest run of `p`-characters of `t` that ends at `j`. */
  function SkipBackWhile(t: string, j: nat, p: char -> bool): (i: nat)
    requires j <= |t|
    ensures i <= j
    ensures forall k | i <= k < j :: p(t[k])
    ensures i > 0 ==> !p(t[i - 1])
  {
    if j > 0 && p(t[j - 1]) then SkipBackWhile(t, j - 1, p) else j
  }

  /** Removes the leading `sp`-characters. */
  function TrimStart(s: string, sp: char -> bool): (r: string)
    ensures |r| <= |s| && r == s[|s| - |r|..]
    ensures forall i | 0 <= i < |s| - |r| :: sp(s[i])
    ensures |r| > 0 ==> !sp(r[0])
  {
    s[SkipWhile(s, 0, sp)..]
  }

  /** Removes the trailing `sp`-characters. */
  function TrimEnd(s: string, sp: char -> bool): (r: string)
    ensures |r| <= |s| && r == s[..|r|]
    ensures forall i | |r| <= i < |s| :: sp(s[i])
    ensures |r| > 0 ==> !sp(r[|r| - 1])
  {
    s[..SkipBackWhile(s, |s|, sp)]
  }

  /** Removes leading and trailing `sp`-characters: the result is the middle of `s`
      between two all-space margins, and begins and ends with a non-space. */
  function Trim(s: string, sp: char -> bool): (r: string)
    ensures exists a | 0 <= a <= |s| - |r| ::
      && HasAt(s, a, r)
      && (forall i | 0 <= i < a :: sp(s[i]))
      && (forall i | a + |r| <= i < |s| :: sp(s[i]))
    ensures |r| > 0 ==> !sp(r[0]) && !sp(r[|r| - 1])
  {
    var l := TrimStart(s, sp);
    var r := TrimEnd(l, sp);
    var a := |s| - |l|;
    assert HasAt(s, a, r);
    r
  }

  /** A run that stops exactly at `j` is what `SkipWhile` finds. */
  lemma SkipWhileExact(t: string, i: nat, j: nat, p: char -> bool)
    requires i <= j <= |t|
    requires forall k | i <= k < j :: p(t[k])
    requires j == |t| || !p(t[j])
    ensures SkipWhile(t, i, p) == j
    decreases j - i
  {
    if i < j {
      SkipWhileExact(t, i + 1, j, p);
    }
  }

  /** A run ends where it ended before when the text is extended by a character
      outside the class. */
  lemma {:induction false} SkipWhileExtended(a: string, s: string, i: nat, p: char -> bool)
    requires i <= |a| && |s| > 0 && !p(s[0])
    ensures SkipWhile(a + s, i, p) == SkipWhile(a, i, p)
    decreases |a| - i
  {
    var t := a + s;
    if i < |a| {
      assert t[i] == a[i];
      if p(a[i]) {
        SkipWhileExtended(a, s, i + 1, p);
      }
    } else {
      assert t[i] == s[0];
    }
  }

  /** A needle starting with a character the text lacks does not occur in it. */
  lemma MissingFirstChar(s: string, needle: string)
    requires |needle| > 0 && needle[0] !in s
    ensures !Includes(s, needle)
  {
    IncludesIff(s, needle);
    forall i | 0 <= i <= |s| ensures !HasAt(s, i, needle) {
      if i + |needle| <= |s| {
        assert s[i] in s;
        Mismatch(s, i, needle, 0);
      }
    }
  }

  /** A text that neither starts nor ends with a space is its own trim. */
  lemma TrimUnchanged(s: string, sp: char -> bool)
    requires |s| > 0 ==> !sp(s[0]) && !sp(s[|s| - 1])
    ensures Trim(s, sp) == s
  {
    if |s| > 0 {
      SkipWhileExact(s, 0, 0, sp);
      assert s[0..] == s;
      assert SkipBackWhile(s, |s|, sp) == |s|;
      assert s[..|s|] == s;
    }
  }

  /** `s.includes(needle)` / `needle in s`. */
  predicate Includes(s: string, needle: string)
    decreases |s|
  {
    StartsWith(s, needle) || (|s| > 0 && Includes(s[1..], needle))
  }

  lemma {:induction false} IncludesIff(s: string, needle: string)
    ensures Includes(s, needle) <==> exists i | 0 <= i <= |s| :: HasAt(s, i, needle)
    decreases |s|
  {
    if StartsWith(s, needle) {
      assert HasAt(s, 0, needle);
    } else if |s| > 0 {
      IncludesIff(s[1..], needle);
      if Includes(s[1..], needle) {
        var i :| 0 <= i <= |s| - 1 && HasAt(s[1..], i, needle);
        assert s[1..][i..i + |needle|] == s[i + 1..i + 1 + |needle|];
        assert HasAt(s, i + 1, needle);
      }
      if i :| 0 <= i <= |s| && HasAt(s, i, needle) {
        assert i != 0;
        assert s[1..][i - 1..i - 1 + |needle|] == s[i..i + |needle|];
        assert HasAt(s[1..], i - 1, needle);
      }
    }
  }

  /** A needle that does not occur anywhere does not occur at `i`. */
  lemma NotIncludedAt(s: string, needle: string, i: nat)
    requires !Includes(s, needle)
    ensures !HasAt(s, i, needle)
  {
    IncludesIff(s, needle);
  }

  /** Two adjacent characters of `s` form a two-character needle that `s` includes. */
  lemma PairIncluded(s: string, i: nat, pair: string)
    requires |pair| == 2 && i + 1 < |s| && s[i] == pair[0] && s[i + 1] == pair[1]
    ensures Includes(s, pair)
  {
    assert s[i..i + 2] == pair;
    IncludesIff(s, pair);
    assert HasAt(s, i, pair);
  }

  /** Two adjacent characters of a text that does not include a two-character
      needle differ from it somewhere. */
  lemma PairAbsent(s: string, i: nat, pair: string)
    requires |pair| == 2 && i + 1 < |s| && !Includes(s, pair)
    ensures s[i] != pair[0] || s[i + 1] != pair[1]
  {
    if s[i] == pair[0] && s[i + 1] == pair[1] {
      PairIncluded(s, i, pair);
    }
  }

  /** Regrouping a concatenation of three strings. */
  lemma ConcatAssoc(x: string, y: string, z: string)
    ensures x + y + z == x + (y + z)
  {
  }

  /** A literal does not occur where one of its characters is missing. */
  lemma Mismatch(t: string, i: nat, lit: string, m: nat)
    requires m < |lit| && i + |lit| <= |t| && t[i + m] != lit[m]
    ensures !HasAt(t, i, lit)
  {
    assert t[i..i + |lit|][m] == t[i + m];
  }

  /** `StartsWith` on a suffix is `HasAt` at the suffix's start. */
  lemma StartsWithAt(t: string, i: nat, p: string)
    requires i <= |t|
    ensures StartsWith(t[i..], p) <==> HasAt(t, i, p)
  {
    if i + |p| <= |t| {
      assert t[i..][..|p|] == t[i..i + |p|];
    }
  }

  /** Literal, left-to-right, non-overlapping replacement of every occurrence of `pat`
      (Python `str.replace`, and a JavaScript global replace of a literal pattern). */
  function ReplaceAll(s: string, pat: string, rep: string): (r: string)
    requires |pat| > 0
    ensures !Includes(s, pat) ==> r == s
    decreases |s|
  {
    if |s| == 0 then ""
    else if StartsWith(s, pat) then rep + ReplaceAll(s[|pat|..], pat, rep)
    else [s[0]] + ReplaceAll(s[1..], pat, rep)
  }

  /** The first occurrence is replaced and the text before it is copied unchanged. */
  lemma {:induction false} ReplaceAllLeftmost(a: string, b: string, pat: string, rep: string)
    requires |pat| > 0
    requires forall i | 0 <= i < |a| :: !StartsWith((a + pat + b)[i..], pat)
    ensures ReplaceAll(a + pat + b, pat, rep) == a + rep + ReplaceAll(b, pat, rep)
    decreases |a|
  {
    var s := a + pat + b;
    if |a| == 0 {
      assert s == pat + b;
      assert s[|pat|..] == b;
    } else {
      assert !StartsWith(s[0..], pat);
      assert s[1..] == a[1..] + pat + b;
      forall i | 0 <= i < |a| - 1
        ensures !StartsWith((a[1..] + pat + b)[i..], pat)
      {
        assert (a[1..] + pat + b)[i..] == s[i + 1..];
      }
      ReplaceAllLeftmost(a[1..], b, pat, rep);
      ConsRegroup(a, rep, ReplaceAll(b, pat, rep));
    }
  }

  /** Regrouping a three-part concatenation whose first part is split at its head. */
  lemma ConsRegroup(a: string, y: string, z: string)
    requires |a| > 0
    ensures [a[0]] + (a[1..] + y + z) == a + y + z
  {
    assert a == [a[0]] + a[1..];
  }

  /** Replacing a pattern by itself changes nothing. */
  lemma {:induction false} ReplaceAllSelf(s: string, pat: string)
    requires |pat| > 0
    ensures ReplaceAll(s, pat, pat) == s
    decreases |s|
  {
    if |s| == 0 {
    } else if StartsWith(s, pat) {
      ReplaceAllSelf(s[|pat|..], pat);
      assert s == pat + s[|pat|..];
    } else {
      ReplaceAllSelf(s[1..], pat);
      assert s == [s[0]] + s[1..];
    }
  }

  /** `parts.join(sep)`. */
  function Join(parts: seq<string>, sep: string): string
  {
    if |parts| == 0 then ""
    else if |parts| == 1 then parts[0]
    else parts[0] + sep + Join(parts[1..], sep)
  }

  /** A join contains a character only if the separator or a part does. */
  lemma {:induction false} JoinNoChar(parts: seq<string>, sep: string, c: char)
    requires c !in sep
    requires forall i | 0 <= i < |parts| :: c !in parts[i]
    ensures c !in Join(parts, sep)
    decreases |parts|
  {
    if |parts| > 1 {
      JoinNoChar(parts[1..], sep, c);
    }
  }

  /** Index of the first `c` in `s`, or `|s|` when there is none. */
  function IndexOf(s: string, c: char): (i: nat)
    ensures i <= |s|
    ensures forall j | 0 <= j < i :: s[j] != c
    ensures i < |s| ==> s[i] == c
  {
    if |s| == 0 || s[0] == c then 0 else 1 + IndexOf(s[1..], c)
  }

  /** `s.split(c)`: the pieces between the occurrences of `c`. */
  function SplitOn(s: string, c: char): (r: seq<string>)
    ensures |r| >= 1
    ensures forall i | 0 <= i < |r| :: c !in r[i]
    decreases |s|
  {
    var i := IndexOf(s, c);
    if i == |s| then [s] else [s[..i]] + SplitOn(s[i + 1..], c)
  }

  /** Splitting a join on a separator the parts do not contain gives back the parts. */
  lemma {:induction false} SplitJoin(parts: seq<string>, c: char)
    requires |parts| >= 1
    requires forall i | 0 <= i < |parts| :: c !in parts[i]
    ensures SplitOn(Join(parts, [c]), c) == parts
    decreases |parts|
  {
    var s := Join(parts, [c]);
    if |parts| == 1 {
      assert IndexOf(s, c) == |s|;
    } else {
      var rest := Join(parts[1..], [c]);
      assert s == parts[0] + [c] + rest;
      IndexOfPrefix(parts[0], c, rest);
      assert s[..|parts[0]|] == parts[0];
      assert s[|parts[0]| + 1..] == rest;
      SplitJoin(parts[1..], c);
    }
  }

  /** Joining the pieces of a split gives back the string. */
  lemma {:induction false} JoinSplit(s: string, c: char)
    ensures Join(SplitOn(s, c), [c]) == s
    decreases |s|
  {
    var i := IndexOf(s, c);
    if i < |s| {
      JoinSplit(s[i + 1..], c);
      var tail := SplitOn(s[i + 1..], c);
      assert SplitOn(s, c) == [s[..i]] + tail;
      assert ([s[..i]] + tail)[1..] == tail;
      assert s == s[..i] + [c] + s[i + 1..];
    }
  }

  lemma IndexOfPrefix(p: string, c: char, rest: string)
    requires c !in p
    ensures IndexOf(p + [c] + rest, c) == |p|
  {
    var s := p + [c] + rest;
    assert s[|p|] == c;
    assert forall j | 0 <= j < |p| :: s[j] == p[j];
  }

  function AsciiLowerChar(c: char): char
  {
    if 'A' <= c <= 'Z' then (c as int + 32) as char else c
  }

  /** `toLowerCase()` on the ASCII range. */
  function AsciiLower(s: string): (r: string)
    ensures |r| == |s|
    ensures forall i | 0 <= i < |s| :: r[i] == AsciiLowerChar(s[i])
  {
    seq(|s|, i requires 0 <= i < |s| => AsciiLowerChar(s[i]))
  }

  /** The first index holding `x`. */
  function Position<T(==)>(xs: seq<T>, x: T): (k: nat)
    requires x in xs
    ensures k < |xs| && xs[k] == x
  {
    if xs[0] == x then 0 else 1 + Position(xs[1..], x)
  }

  /** `xs.filter(p)`: the elements satisfying `p`, in their order. */
  function Filter<T>(xs: seq<T>, p: T -> bool): (r: seq<T>)
    ensures |r| <= |xs|
    ensures forall i | 0 <= i < |r| :: r[i] in xs && p(r[i])
    ensures forall i | 0 <= i < |xs| && p(xs[i]) :: xs[i] in r
    ensures (exists i | 0 <= i < |xs| :: !p(xs[i])) ==> |r| < |xs|
  {
    if |xs| == 0 then [] else (if p(xs[0]) then [xs[0]] else []) + Filter(xs[1..], p)
  }

  /** An element is kept exactly when it is in the list and passes. */
  lemma FilterMember<T>(xs: seq<T>, p: T -> bool, x: T)
    ensures x in Filter(xs, p) <==> x in xs && p(x)
  {
    var r := Filter(xs, p);
    if x in r {
      var i :| 0 <= i < |r| && r[i] == x;
    }
    if x in xs && p(x) {
      var i :| 0 <= i < |xs| && xs[i] == x;
    }
  }

  /** Filtering keeps a list whose every element passes. */
  lemma {:induction false} FilterAll<T>(xs: seq<T>, p: T -> bool)
    requires forall i | 0 <= i < |xs| :: p(xs[i])
    ensures Filter(xs, p) == xs
  {
    if |xs| > 0 {
      FilterAll(xs[1..], p);
      assert [xs[0]] + xs[1..] == xs;
    }
  }

  /** Filtering a list extended by one element extends the filtered list by that
      element exactly when it passes. */
  lemma FilterSnoc<T>(xs: seq<T>, x: T, p: T -> bool)
    ensures Filter(xs + [x], p) == Filter(xs, p) + (if p(x) then [x] else [])
  {
    FilterConcat(xs, [x], p);
    assert [x][1..] == [];
  }

  /** Two passing elements keep their relative order in the filtered list. */
  lemma {:induction false} FilterKeepsOrder<T>(xs: seq<T>, p: T -> bool, a: nat, b: nat)
    requires a < b < |xs| && p(xs[a]) && p(xs[b])
    ensures exists u, v | 0 <= u < v < |Filter(xs, p)| :: Filter(xs, p)[u] == xs[a] && Filter(xs, p)[v] == xs[b]
  {
    var r := Filter(xs, p);
    var tail := Filter(xs[1..], p);
    var head: seq<T> := if p(xs[0]) then [xs[0]] else [];
    assert r == head + tail;
    assert xs[1..][b - 1] == xs[b];
    if a == 0 {
      FilterMember(xs[1..], p, xs[b]);
      var v :| 0 <= v < |tail| && tail[v] == xs[b];
      assert r[0] == xs[0] && r[1 + v] == xs[b];
    } else {
      assert xs[1..][a - 1] == xs[a];
      FilterKeepsOrder(xs[1..], p, a - 1, b - 1);
      var u, v :| 0 <= u < v < |tail| && tail[u] == xs[a] && tail[v] == xs[b];
      IndexAfter(head, tail, u);
      IndexAfter(head, tail, v);
    }
  }

  lemma IndexAfter<T>(h: seq<T>, t: seq<T>, i: nat)
    requires i < |t|
    ensures (h + t)[|h| + i] == t[i]
  {
  }

  /** Filtering distributes over concatenation. */
  lemma {:induction false} FilterConcat<T>(xs: seq<T>, ys: seq<T>, p: T -> bool)
    ensures Filter(xs + ys, p) == Filter(xs, p) + Filter(ys, p)
  {
    if |xs| == 0 {
      assert xs + ys == ys;
    } else {
      assert (xs + ys)[1..] == xs[1..] + ys;
      FilterConcat(xs[1..], ys, p);
    }
  }
}
