/**
  The Python `str` operations the repository relies on, stated over `seq<char>`:
  `strip`, `in`, `split`, `replace`, `splitlines` and the `<` order on strings.
 */
module Text {

  /** Python's `str.isspace()` for one character; `str.strip()` with no argument removes these. */
  predicate IsSpace(c: char) {
    || c == ' ' || '\t' <= c <= '\r' || '\U{1C}' <= c <= '\U{1F}'
    || c == '\U{85}' || c == '\U{A0}' || c == '\U{1680}' || '\U{2000}' <= c <= '\U{200A}'
    || c == '\U{2028}' || c == '\U{2029}' || c == '\U{202F}' || c == '\U{205F}' || c == '\U{3000}'
  }

  /** The line boundaries at which Python's `str.splitlines()` breaks (`"\r\n"` counts as one). */
  const LineBreaks: set<char> := {
    '\n', '\r', '\U{0B}', '\U{0C}', '\U{1C}', '\U{1D}', '\U{1E}', '\U{85}', '\U{2028}', '\U{2029}'
  }

  /** `s.lstrip(chars)`: `s` without its longest prefix made of characters in `chars`. */
  function TrimStart(s: string, chars: char -> bool): (r: string)
    ensures |r| <= |s| && r == s[|s| - |r|..]
    ensures r == [] || !chars(r[0])
    ensures forall i :: 0 <= i < |s| - |r| ==> chars(s[i])
  {
    if |s| > 0 && chars(s[0]) then
      var r := TrimStart(s[1..], chars);
      assert r == s[|s| - |r|..];
      assert forall i :: 1 <= i < |s| - |r| ==> s[i] == s[1..][i - 1];
      r
    else
      s
  }

  /** `s.rstrip(chars)`: `s` without its longest suffix made of characters in `chars`. */
  function TrimEnd(s: string, chars: char -> bool): (r: string)
    ensures |r| <= |s| && r == s[..|r|]
    ensures r == [] || !chars(r[|r| - 1])
    ensures forall i :: |r| <= i < |s| ==> chars(s[i])
  {
    if |s| > 0 && chars(s[|s| - 1]) then
      var r := TrimEnd(s[..|s| - 1], chars);
      assert r == s[..|r|];
      assert forall i :: |r| <= i < |s| - 1 ==> s[i] == s[..|s| - 1][i];
      r
    else
      s
  }

  /** `r` is what is left of `s` once `k` leading and some trailing characters, all in `chars`, are removed. */
  ghost predicate StrippedAt(s: string, r: string, chars: char -> bool, k: int) {
    && 0 <= k <= |s| - |r|
    && r == s[k..k + |r|]
    && (forall i :: 0 <= i < k ==> chars(s[i]))
    && (forall i :: k + |r| <= i < |s| ==> chars(s[i]))
  }

  /**
    `s.strip(chars)`: the infix of `s` left once every leading and trailing
    character in `chars` is removed.
   */
  function StripChars(s: string, chars: char -> bool): (r: string)
    ensures |r| <= |s|
    ensures r == [] || (!chars(r[0]) && !chars(r[|r| - 1]))
  {
    var t := TrimStart(s, chars);
    var r := TrimEnd(t, chars);
    assert r != [] ==> r[0] == t[0];
    r
  }

  /** What `StripChars` leaves is an infix of `s` whose surroundings are all in `chars`. */
  lemma StripCharsInfix(s: string, chars: char -> bool)
    ensures exists k :: StrippedAt(s, StripChars(s, chars), chars, k)
  {
    var t := TrimStart(s, chars);
    assert StripChars(s, chars) == TrimEnd(t, chars);
    TrimmedBothAt(s, t, TrimEnd(t, chars), chars);
  }

  /** A suffix `t` of `s` cut after a prefix in `chars`, then cut before a suffix in `chars`. */
  lemma TrimmedBothAt(s: string, t: string, r: string, chars: char -> bool)
    requires |t| <= |s| && t == s[|s| - |t|..]
    requires |r| <= |t| && r == t[..|r|]
    requires forall i :: 0 <= i < |s| - |t| ==> chars(s[i])
    requires forall i :: |r| <= i < |t| ==> chars(t[i])
    ensures StrippedAt(s, r, chars, |s| - |t|)
  {
    var k := |s| - |t|;
    assert r == s[k..k + |r|];
    forall i | k + |r| <= i < |s|
      ensures chars(s[i])
    {
      assert s[i] == t[i - k];
    }
  }

  /** `s.strip()`: removes surrounding whitespace. */
  function Strip(s: string): string {
    StripChars(s, IsSpace)
  }

  /** A string that neither starts nor ends with a character of `chars` is its own strip. */
  lemma StripCharsKeeps(s: string, chars: char -> bool)
    requires s == [] || (!chars(s[0]) && !chars(s[|s| - 1]))
    ensures StripChars(s, chars) == s
  {
    assert TrimStart(s, chars) == s;
  }

  /** Stripping twice is stripping once. */
  lemma StripCharsIdempotent(s: string, chars: char -> bool)
    ensures StripChars(StripChars(s, chars), chars) == StripChars(s, chars)
  {
    StripCharsKeeps(StripChars(s, chars), chars);
  }

  /** Python's `p in s` for strings: `p` occurs somewhere in `s`. */
  predicate Contains(s: string, p: string) {
    exists i :: 0 <= i <= |s| - |p| && OccursAt(s, p, i)
  }

  /** `p` occurs in `s` starting at index `i`. */
  predicate OccursAt(s: string, p: string, i: int) {
    0 <= i <= |s| - |p| && s[i..i + |p|] == p
  }

  /** The index of the first character of `s` in `chars`, or `|s|` when there is none. */
  function FirstIndexIn(s: string, chars: set<char>): (r: nat)
    ensures r <= |s|
    ensures forall i :: 0 <= i < r ==> s[i] !in chars
    ensures r < |s| ==> s[r] in chars
  {
    if |s| == 0 || s[0] in chars then 0 else 1 + FirstIndexIn(s[1..], chars)
  }

  /** The first `c` of `a + [c] + b` is the one after `a` when `a` holds none. */
  lemma FirstIndexAfter(a: string, c: char, b: string)
    requires c !in a
    ensures FirstIndexIn(a + [c] + b, {c}) == |a|
  {
    var s := a + [c] + b;
    assert s[|a|] == c;
    assert forall i :: 0 <= i < |a| ==> s[i] == a[i];
  }

  /** Python's `s.split(sep)` for a one-character separator: never empty, and no part holds `sep`. */
  function Split(s: string, sep: char): (parts: seq<string>)
    ensures |parts| > 0
    ensures forall i, j :: 0 <= i < |parts| && 0 <= j < |parts[i]| ==> parts[i][j] != sep
    decreases |s|
  {
    var i := FirstIndexIn(s, {sep});
    if i == |s| then [s] else [s[..i]] + Split(s[i + 1..], sep)
  }

  /** Python's `sep.join(parts)`. */
  function Join(parts: seq<string>, sep: char): string {
    if |parts| == 0 then ""
    else if |parts| == 1 then parts[0]
    else parts[0] + [sep] + Join(parts[1..], sep)
  }

  /** Joining the parts of a split gives back the string. */
  lemma {:induction false} JoinSplit(s: string, sep: char)
    ensures Join(Split(s, sep), sep) == s
    decreases |s|
  {
    var i := FirstIndexIn(s, {sep});
    if i < |s| {
      var head, tail := s[..i], s[i + 1..];
      var parts := Split(tail, sep);
      assert Split(s, sep) == [head] + parts;
      JoinSplit(tail, sep);
      assert Join([head] + parts, sep) == head + [sep] + Join(parts, sep);
      assert s == head + [sep] + tail;
    }
  }

  /** Splitting a join of separator-free parts gives back the parts. */
  lemma {:induction false} SplitJoin(parts: seq<string>, sep: char)
    requires |parts| > 0
    requires forall i, j :: 0 <= i < |parts| && 0 <= j < |parts[i]| ==> parts[i][j] != sep
    ensures Split(Join(parts, sep), sep) == parts
  {
    var s := Join(parts, sep);
    var p := parts[0];
    if |parts| == 1 {
      assert FirstIndexIn(s, {sep}) == |s|;
    } else {
      var rest := Join(parts[1..], sep);
      assert s == p + [sep] + rest;
      assert s[|p|] == sep;
      assert forall j :: 0 <= j < |p| ==> s[j] == p[j];
      assert FirstIndexIn(s, {sep}) == |p|;
      assert s[..|p|] == p;
      assert s[|p| + 1..] == rest;
      SplitJoin(parts[1..], sep);
    }
  }

  /**
    Python's `s.replace(pat, rep)`: every non-overlapping occurrence of `pat`,
    scanning from the left, replaced by `rep`.
   */
  function ReplaceAll(s: string, pat: string, rep: string): string
    requires |pat| > 0
    decreases |s|
  {
    if |s| < |pat| then s
    else if s[..|pat|] == pat then rep + ReplaceAll(s[|pat|..], pat, rep)
    else [s[0]] + ReplaceAll(s[1..], pat, rep)
  }

  /** A string that does not contain `pat` is left as it is. */
  lemma {:induction false} ReplaceAllAbsent(s: string, pat: string, rep: string)
    requires |pat| > 0
    requires !Contains(s, pat)
    ensures ReplaceAll(s, pat, rep) == s
    decreases |s|
  {
    if |s| >= |pat| {
      assert !OccursAt(s, pat, 0);
      if !Contains(s[1..], pat) {
        ReplaceAllAbsent(s[1..], pat, rep);
      } else {
        var i :| 0 <= i <= |s| - 1 - |pat| && OccursAt(s[1..], pat, i);
        assert s[i + 1..i + 1 + |pat|] == s[1..][i..i + |pat|];
        assert OccursAt(s, pat, i + 1);
        assert false;
      }
    }
  }

  /**
    With a replacement at least as long as the pattern the result is never shorter,
    and strictly longer when the pattern occurs and the replacement is longer.
   */
  lemma {:induction false} ReplaceAllGrows(s: string, pat: string, rep: string)
    requires |pat| > 0 && |rep| >= |pat|
    ensures |ReplaceAll(s, pat, rep)| >= |s|
    ensures Contains(s, pat) && |rep| > |pat| ==> |ReplaceAll(s, pat, rep)| > |s|
    decreases |s|
  {
    if |s| >= |pat| {
      if s[..|pat|] == pat {
        ReplaceAllGrows(s[|pat|..], pat, rep);
      } else {
        ReplaceAllGrows(s[1..], pat, rep);
        if Contains(s, pat) {
          var i :| 0 <= i <= |s| - |pat| && OccursAt(s, pat, i);
          assert i != 0;
          assert s[1..][i - 1..i - 1 + |pat|] == s[i..i + |pat|];
          assert OccursAt(s[1..], pat, i - 1);
        }
      }
    } else if Contains(s, pat) {
      assert false;
    }
  }

  /** Python's `a < b` on strings: lexicographic order of code points. */
  predicate LexLess(a: string, b: string) {
    if |a| == 0 then |b| > 0
    else if |b| == 0 then false
    else if a[0] == b[0] then LexLess(a[1..], b[1..])
    else a[0] < b[0]
  }

  /** `<` on strings is irreflexive and asymmetric. */
  lemma {:induction false} LexLessAsymmetric(a: string, b: string)
    ensures !(LexLess(a, b) && LexLess(b, a))
  {
    if |a| > 0 && |b| > 0 && a[0] == b[0] {
      LexLessAsymmetric(a[1..], b[1..]);
    }
  }

  /** `<` on strings is total on distinct strings. */
  lemma {:induction false} LexLessTotal(a: string, b: string)
    requires a != b
    ensures LexLess(a, b) || LexLess(b, a)
  {
    if |a| > 0 && |b| > 0 && a[0] == b[0] {
      assert a == [a[0]] + a[1..] && b == [b[0]] + b[1..];
      LexLessTotal(a[1..], b[1..]);
    }
  }

  /** `<` on strings is transitive. */
  lemma {:induction false} LexLessTransitive(a: string, b: string, c: string)
    requires LexLess(a, b) && LexLess(b, c)
    ensures LexLess(a, c)
  {
    if |a| > 0 && a[0] == b[0] && b[0] == c[0] {
      LexLessTransitive(a[1..], b[1..], c[1..]);
    }
  }

  /**
    Python's `s.splitlines()`: the text between line boundaries, with no empty
    line after a final boundary; no line holds a boundary character.
   */
  function SplitLines(s: string): (lines: seq<string>)
    ensures forall i, j :: 0 <= i < |lines| && 0 <= j < |lines[i]| ==> lines[i][j] !in LineBreaks
    decreases |s|
  {
    if s == [] then []
    else
      var i := FirstIndexIn(s, LineBreaks);
      if i == |s| then [s]
      else
        var next := if s[i] == '\r' && i + 1 < |s| && s[i + 1] == '\n' then i + 2 else i + 1;
        [s[..i]] + SplitLines(s[next..])
  }

  /** A line followed by `"\n"` is split off as it is, whatever follows. */
  lemma SplitLinesCons(line: string, rest: string)
    requires forall j :: 0 <= j < |line| ==> line[j] !in LineBreaks
    ensures SplitLines(line + "\n" + rest) == [line] + SplitLines(rest)
  {
    var s := line + "\n" + rest;
    assert forall j :: 0 <= j < |line| ==> s[j] == line[j];
    assert s[|line|] == '\n';
    assert FirstIndexIn(s, LineBreaks) == |line|;
    assert s[..|line|] == line && s[|line| + 1..] == rest;
  }
}
