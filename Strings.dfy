/**
 * Character and string helpers shared by the crawler and the two cleaners.
 * Each function models one Python string primitive or one simple regular
 * expression substitution used by the source.
 */
module Strings {

  /** The characters Python's `str.isspace()` and the `\s` class of `re` treat as whitespace. */
  predicate IsSpace(c: char) {
    c == ' ' || c == '\t' || c == '\n' || c == '\r' || c == '\U{0B}' || c == '\U{0C}'
    || ('\U{1C}' <= c <= '\U{1F}') || c == '\U{85}' || c == '\U{A0}' || c == '\U{1680}'
    || ('\U{2000}' <= c <= '\U{200A}') || c == '\U{2028}' || c == '\U{2029}'
    || c == '\U{202F}' || c == '\U{205F}' || c == '\U{3000}'
  }

  /**
   * The ASCII decimal digits. Python's `\d` on `str` also matches every other
   * Unicode decimal digit (the full-width `'３'`, for one); the model does not.
   */
  predicate IsDigit(c: char) {
    '0' <= c <= '9'
  }

  predicate StartsWith(s: string, prefix: string) {
    |prefix| <= |s| && s[..|prefix|] == prefix
  }

  predicate EndsWith(s: string, suffix: string) {
    |suffix| <= |s| && s[|s| - |suffix|..] == suffix
  }

  /** Python's `sub in s`. */
  predicate Contains(s: string, sub: string)
    decreases |s|
  {
    StartsWith(s, sub) || (|s| > 0 && Contains(s[1..], sub))
  }

  /** Strings in which no character satisfies `p`. */
  predicate NoneSatisfy(s: string, p: char -> bool) {
    forall i | 0 <= i < |s| :: !p(s[i])
  }

  /** `s.lstrip(chars)` where `p` tells which characters are stripped. */
  function LStripBy(s: string, p: char -> bool): (r: string)
    ensures |r| <= |s| && r == s[|s| - |r|..]
    ensures r == [] || !p(r[0])
    ensures forall i | 0 <= i < |s| - |r| :: p(s[i])
  {
    if |s| > 0 && p(s[0]) then LStripBy(s[1..], p) else s
  }

  /** `s.rstrip(chars)` where `p` tells which characters are stripped. */
  function RStripBy(s: string, p: char -> bool): (r: string)
    ensures |r| <= |s| && r == s[..|r|]
    ensures r == [] || !p(r[|r| - 1])
    ensures forall i | |r| <= i < |s| :: p(s[i])
  {
    if |s| > 0 && p(s[|s| - 1]) then RStripBy(s[..|s| - 1], p) else s
  }

  function StripBy(s: string, p: char -> bool): string {
    RStripBy(LStripBy(s, p), p)
  }

  /** Python's argument-less `s.strip()`. */
  function Strip(s: string): string {
    StripBy(s, IsSpace)
  }

  function RStrip(s: string): string {
    RStripBy(s, IsSpace)
  }

  /** A stripped string neither starts nor ends with a character satisfying `p`. */
  predicate StrippedBy(s: string, p: char -> bool) {
    s == [] || (!p(s[0]) && !p(s[|s| - 1]))
  }

  /** Where the stripped string starts inside the input. */
  function StripStart(s: string, p: char -> bool): nat {
    |s| - |LStripBy(s, p)|
  }

  /** The stripped string is a contiguous piece of the input with no stripped character at either end. */
  lemma StripByInfix(s: string, p: char -> bool)
    ensures StrippedBy(StripBy(s, p), p)
    ensures StripStart(s, p) + |StripBy(s, p)| <= |s|
    ensures StripBy(s, p) == s[StripStart(s, p)..StripStart(s, p) + |StripBy(s, p)|]
  {
    StripByResult(s, p);
    PrefixOfSuffix(s, LStripBy(s, p), StripBy(s, p));
  }

  lemma StripByResult(s: string, p: char -> bool)
    ensures StrippedBy(StripBy(s, p), p)
  {
    var l := LStripBy(s, p);
    var r := RStripBy(l, p);
    if r != [] {
      assert r[0] == l[0];
    }
  }

  /** A prefix `r` of a suffix `l` of `s` is the piece of `s` that starts where `l` does. */
  lemma PrefixOfSuffix(s: string, l: string, r: string)
    requires |l| <= |s| && l == s[|s| - |l|..]
    requires |r| <= |l| && r == l[..|r|]
    ensures r == s[|s| - |l|..|s| - |l| + |r|]
  {
    var i := |s| - |l|;
    forall k | 0 <= k < |r|
      ensures r[k] == s[i + k]
    {
      assert r[k] == l[k];
    }
  }

  /** Where the stripped string ends inside the input: only stripped characters follow it. */
  lemma StripByEnd(s: string, p: char -> bool) returns (b: nat)
    ensures |StripBy(s, p)| <= b <= |s|
    ensures s[b - |StripBy(s, p)|..b] == StripBy(s, p)
    ensures forall k | b <= k < |s| :: p(s[k])
  {
    StripByInfix(s, p);
    StripByTail(s, p);
    b := StripStart(s, p) + |StripBy(s, p)|;
  }

  lemma StripByTail(s: string, p: char -> bool)
    ensures forall k | StripStart(s, p) + |StripBy(s, p)| <= k < |s| :: p(s[k])
  {
    var l := LStripBy(s, p);
    TailOfSuffix(s, l, RStripBy(l, p), p);
  }

  /** Characters of a suffix `l` of `s` that lie past its prefix `r` lie past `r` in `s` too. */
  lemma TailOfSuffix(s: string, l: string, r: string, p: char -> bool)
    requires |l| <= |s| && l == s[|s| - |l|..] && |r| <= |l|
    requires forall i | |r| <= i < |l| :: p(l[i])
    ensures forall k | |s| - |l| + |r| <= k < |s| :: p(s[k])
  {
    var a := |s| - |l|;
    forall k | a + |r| <= k < |s|
      ensures p(s[k])
    {
      assert l[k - a] == s[k];
    }
  }

  /** When nothing is stripped at the front, the stripped string is a prefix of the input. */
  lemma StripByPrefix(s: string, p: char -> bool)
    requires s == [] || !p(s[0])
    ensures StripBy(s, p) == s[..|StripBy(s, p)|]
  {
    assert LStripBy(s, p) == s;
  }

  /** When nothing is stripped at the back, the stripped string is a suffix of the input. */
  lemma StripBySuffix(s: string, p: char -> bool)
    requires s == [] || !p(s[|s| - 1])
    ensures StripBy(s, p) == LStripBy(s, p)
  {
    var l := LStripBy(s, p);
    if l != [] {
      assert l[|l| - 1] == s[|s| - 1];
    }
  }

  /** A string starting with `h` makes every longer string it begins start with `h`. */
  lemma StartsWithExtend(r: string, u: string, h: string)
    requires |r| <= |u| && r == u[..|r|] && StartsWith(r, h)
    ensures StartsWith(u, h)
  {
    assert u[..|h|] == r[..|h|];
  }

  /** A string ending with `h` makes every longer string it ends end with `h`. */
  lemma EndsWithExtend(r: string, u: string, h: string)
    requires |r| <= |u| && r == u[|u| - |r|..] && EndsWith(r, h)
    ensures EndsWith(u, h)
  {
    assert u[|u| - |h|..] == r[|r| - |h|..];
  }

  /** Stripping a string that is already stripped changes nothing. */
  lemma StripByStripped(s: string, p: char -> bool)
    requires StrippedBy(s, p)
    ensures StripBy(s, p) == s
  {
  }

  /**
   * `re.sub(r'P+', rep, s)` for a character class P given by `p`: every maximal
   * run of characters satisfying `p` is replaced by `rep`. `inRun` records that
   * the previous input character satisfied `p` and was already replaced.
   */
  function SubRunsFrom(s: string, p: char -> bool, rep: string, inRun: bool): string {
    if |s| == 0 then []
    else if p(s[0]) then
      (if inRun then [] else rep) + SubRunsFrom(s[1..], p, rep, true)
    else
      [s[0]] + SubRunsFrom(s[1..], p, rep, false)
  }

  function SubRuns(s: string, p: char -> bool, rep: string): string {
    SubRunsFrom(s, p, rep, false)
  }

  /**
   * A class `q` of characters that the replacement does not contain, and that
   * occurs in the input only inside replaced runs, does not occur in the output.
   */
  lemma {:induction false} SubRunsExcludes(s: string, p: char -> bool, rep: string, inRun: bool, q: char -> bool)
    requires forall i | 0 <= i < |s| :: q(s[i]) ==> p(s[i])
    requires NoneSatisfy(rep, q)
    ensures NoneSatisfy(SubRunsFrom(s, p, rep, inRun), q)
    decreases |s|
  {
    if |s| > 0 {
      SubRunsExcludes(s[1..], p, rep, p(s[0]), q);
    }
  }

  /** Strings in which every character satisfying `p` is `x` and no two such characters are adjacent. */
  predicate SingleRuns(s: string, p: char -> bool, x: char) {
    forall i | 0 <= i < |s| :: p(s[i]) ==> s[i] == x && (i + 1 < |s| ==> !p(s[i + 1]))
  }

  /** Replacing every run by one character `x` of the class leaves only single-character runs. */
  lemma {:induction false} SubRunsSingle(s: string, p: char -> bool, x: char, inRun: bool)
    requires p(x)
    ensures SingleRuns(SubRunsFrom(s, p, [x], inRun), p, x)
    ensures inRun && SubRunsFrom(s, p, [x], inRun) != [] ==> !p(SubRunsFrom(s, p, [x], inRun)[0])
    decreases |s|
  {
    if |s| > 0 {
      SubRunsSingle(s[1..], p, x, p(s[0]));
    }
  }

  /** On a string whose runs are already single `x` characters, the substitution is the identity. */
  lemma {:induction false} SubRunsIdentity(s: string, p: char -> bool, x: char, inRun: bool)
    requires SingleRuns(s, p, x)
    requires inRun ==> s == [] || !p(s[0])
    ensures SubRunsFrom(s, p, [x], inRun) == s
    decreases |s|
  {
    if |s| > 0 {
      SubRunsIdentity(s[1..], p, x, p(s[0]));
      if p(s[0]) {
        assert s == [x] + s[1..];
      } else {
        assert s == [s[0]] + s[1..];
      }
    }
  }

  /** Every contiguous piece of a string with single runs has single runs. */
  lemma SingleRunsInfix(s: string, p: char -> bool, x: char, i: nat, j: nat)
    requires SingleRuns(s, p, x) && i <= j <= |s|
    ensures SingleRuns(s[i..j], p, x)
  {
    var t := s[i..j];
    forall k | 0 <= k < |t| && p(t[k])
      ensures t[k] == x && (k + 1 < |t| ==> !p(t[k + 1]))
    {
      assert t[k] == s[i + k];
      if k + 1 < |t| {
        assert t[k + 1] == s[i + k + 1];
      }
    }
  }

  lemma NoneSatisfyInfix(s: string, q: char -> bool, i: nat, j: nat)
    requires NoneSatisfy(s, q) && i <= j <= |s|
    ensures NoneSatisfy(s[i..j], q)
  {
    forall k | 0 <= k < j - i
      ensures !q(s[i..j][k])
    {
      assert s[i..j][k] == s[i + k];
    }
  }

  /** Stripping the characters of class `p` keeps single runs of `p` and keeps out two other classes. */
  lemma StripByKeeps(d: string, p: char -> bool, x: char, q1: char -> bool, q2: char -> bool)
    requires NoneSatisfy(d, q1) && NoneSatisfy(d, q2) && SingleRuns(d, p, x)
    ensures var c := StripBy(d, p);
      NoneSatisfy(c, q1) && NoneSatisfy(c, q2) && SingleRuns(c, p, x) && StrippedBy(c, p)
  {
    var c := StripBy(d, p);
    var k := StripStart(d, p);
    StripByInfix(d, p);
    SingleRunsInfix(d, p, x, k, k + |c|);
    NoneSatisfyInfix(d, q1, k, k + |c|);
    NoneSatisfyInfix(d, q2, k, k + |c|);
  }

  /** `re.sub(r'\s+', ' ', s).strip()`, the whitespace normalisation used throughout the source. */
  function CollapseStrip(s: string): string {
    Strip(SubRuns(s, IsSpace, " "))
  }

  /** The normalised string is trimmed and every whitespace character in it is a lone `' '`. */
  lemma CollapseStripShape(s: string)
    ensures StrippedBy(CollapseStrip(s), IsSpace)
    ensures SingleRuns(CollapseStrip(s), IsSpace, ' ')
  {
    var c := SubRuns(s, IsSpace, " ");
    SubRunsSingle(s, IsSpace, ' ', false);
    assert SingleRuns(c, IsSpace, ' ');
    StripByInfix(c, IsSpace);
    var r := Strip(c);
    var i := StripStart(c, IsSpace);
    SingleRunsInfix(c, IsSpace, ' ', i, i + |r|);
  }

  /** A class of characters that is neither `' '` nor in the input does not occur in the normalised string. */
  lemma CollapseStripExcludes(s: string, q: char -> bool)
    requires NoneSatisfy(s, q) && !q(' ')
    ensures NoneSatisfy(CollapseStrip(s), q)
  {
    var c := SubRuns(s, IsSpace, " ");
    SubRunsExcludes(s, IsSpace, " ", false, q);
    StripByInfix(c, IsSpace);
    NoneSatisfyInfix(c, q, StripStart(c, IsSpace), StripStart(c, IsSpace) + |Strip(c)|);
  }

  predicate IsNotSpace(c: char) {
    !IsSpace(c)
  }

  /** Text made of whitespace only normalises to the empty string. */
  lemma CollapseStripBlank(s: string)
    requires forall i | 0 <= i < |s| :: IsSpace(s[i])
    ensures CollapseStrip(s) == ""
  {
    var c := SubRuns(s, IsSpace, " ");
    SubRunsExcludes(s, IsSpace, " ", false, IsNotSpace);
    StripByInfix(c, IsSpace);
  }

  /** The normalised string is left alone by a second strip. */
  lemma CollapseStripStripped(s: string)
    ensures Strip(CollapseStrip(s)) == CollapseStrip(s)
  {
    CollapseStripShape(s);
    StripByStripped(CollapseStrip(s), IsSpace);
  }

  /** Normalising twice gives the same string as normalising once. */
  lemma CollapseStripIdempotent(s: string)
    ensures CollapseStrip(CollapseStrip(s)) == CollapseStrip(s)
  {
    var r := CollapseStrip(s);
    CollapseStripShape(s);
    SubRunsIdentity(r, IsSpace, ' ', false);
    StripByStripped(r, IsSpace);
  }

  /** Python's `s.replace(pat, rep)`: non-overlapping occurrences, scanned left to right. */
  function ReplaceAll(s: string, pat: string, rep: string): string
    requires |pat| > 0
    decreases |s|
  {
    if |s| < |pat| then s
    else if s[..|pat|] == pat then rep + ReplaceAll(s[|pat|..], pat, rep)
    else [s[0]] + ReplaceAll(s[1..], pat, rep)
  }

  /** A run-free word passes through the substitution unchanged, and the run state is reset after it. */
  lemma {:induction false} SubRunsWord(w: string, rest: string, p: char -> bool, rep: string, inRun: bool)
    requires |w| > 0 && NoneSatisfy(w, p)
    ensures SubRunsFrom(w + rest, p, rep, inRun) == w + SubRunsFrom(rest, p, rep, false)
    decreases |w|
  {
    assert (w + rest)[0] == w[0];
    assert (w + rest)[1..] == w[1..] + rest;
    if |w| > 1 {
      assert NoneSatisfy(w[1..], p) by {
        forall i | 0 <= i < |w| - 1
          ensures !p(w[1..][i])
        {
          assert w[1..][i] == w[i + 1];
        }
      }
      SubRunsWord(w[1..], rest, p, rep, false);
      assert w == [w[0]] + w[1..];
    } else {
      assert w == [w[0]];
    }
  }

  /** A run of characters of the class becomes one `rep`, or nothing when a run was already replaced. */
  lemma {:induction false} SubRunsGap(g: string, rest: string, p: char -> bool, rep: string, inRun: bool)
    requires |g| > 0 && forall i | 0 <= i < |g| :: p(g[i])
    ensures SubRunsFrom(g + rest, p, rep, inRun) == (if inRun then [] else rep) + SubRunsFrom(rest, p, rep, true)
    decreases |g|
  {
    assert (g + rest)[0] == g[0];
    assert (g + rest)[1..] == g[1..] + rest;
    if |g| > 1 {
      assert forall i | 0 <= i < |g| - 1 :: p(g[1..][i]) by {
        forall i | 0 <= i < |g| - 1
          ensures p(g[1..][i])
        {
          assert g[1..][i] == g[i + 1];
        }
      }
      SubRunsGap(g[1..], rest, p, rep, true);
    } else {
      assert g[1..] + rest == rest;
    }
  }

  /** Stripping removes a single stripped character in front of a stripped string. */
  lemma StripOneLead(c: char, x: string, p: char -> bool)
    requires p(c) && x != [] && StrippedBy(x, p)
    ensures StripBy([c] + x, p) == x
  {
    assert ([c] + x)[1..] == x;
    assert LStripBy([c] + x, p) == LStripBy(x, p);
  }

  /** Stripping removes a single stripped character after a stripped string. */
  lemma StripOneTrail(x: string, c: char, p: char -> bool)
    requires p(c) && x != [] && StrippedBy(x, p)
    ensures StripBy(x + [c], p) == x
  {
    assert (x + [c])[0] == x[0];
    assert LStripBy(x + [c], p) == x + [c];
    assert (x + [c])[..|x|] == x;
  }

  /** A character that cannot start the pattern is copied by the replacement. */
  lemma ReplaceSkip(c: char, rest: string, pat: string, rep: string)
    requires |pat| > 0 && c != pat[0]
    ensures ReplaceAll([c] + rest, pat, rep) == [c] + ReplaceAll(rest, pat, rep)
  {
    var s := [c] + rest;
    assert s[1..] == rest;
    if |s| >= |pat| {
      assert s[..|pat|][0] == c;
    }
  }

  /** Text none of whose characters can start the pattern is left as it is. */
  lemma {:induction false} ReplaceAbsent(s: string, pat: string, rep: string)
    requires |pat| > 0 && forall i | 0 <= i < |s| :: s[i] != pat[0]
    ensures ReplaceAll(s, pat, rep) == s
    decreases |s|
  {
    if |s| > 0 {
      assert s == [s[0]] + s[1..];
      ReplaceSkip(s[0], s[1..], pat, rep);
      ReplaceAbsent(s[1..], pat, rep);
    }
  }

  /** Text none of whose characters can start the pattern is copied, and the pattern after it replaced. */
  lemma {:induction false} ReplaceBeforePattern(w: string, pat: string, rep: string)
    requires |pat| > 0 && forall i | 0 <= i < |w| :: w[i] != pat[0]
    ensures ReplaceAll(w + pat, pat, rep) == w + rep
    decreases |w|
  {
    if |w| == 0 {
      assert w + pat == pat;
      ReplaceWhole(pat, rep);
    } else {
      assert w + pat == [w[0]] + (w[1..] + pat);
      ReplaceSkip(w[0], w[1..] + pat, pat, rep);
      ReplaceBeforePattern(w[1..], pat, rep);
      assert w + rep == [w[0]] + (w[1..] + rep);
    }
  }

  /** The pattern itself is replaced as a whole. */
  lemma ReplaceWhole(pat: string, rep: string)
    requires |pat| > 0
    ensures ReplaceAll(pat, pat, rep) == rep
  {
    assert pat[..|pat|] == pat;
    assert pat[|pat|..] == [];
  }

  /** Python's `sep.join(parts)`. */
  function Join(parts: seq<string>, sep: string): string {
    if |parts| == 0 then ""
    else if |parts| == 1 then parts[0]
    else parts[0] + sep + Join(parts[1..], sep)
  }

  /** Joining non-empty stripped parts gives a stripped string, empty only when there are no parts. */
  lemma {:induction false} JoinStripped(parts: seq<string>, sep: string, p: char -> bool)
    requires forall i | 0 <= i < |parts| :: parts[i] != [] && StrippedBy(parts[i], p)
    ensures StrippedBy(Join(parts, sep), p)
    ensures |parts| > 0 ==> |Join(parts, sep)| > 0
  {
    if |parts| > 1 {
      JoinStripped(parts[1..], sep, p);
      var j := Join(parts[1..], sep);
      assert Join(parts, sep) == parts[0] + sep + j;
      assert Join(parts, sep)[0] == parts[0][0];
      assert Join(parts, sep)[|Join(parts, sep)| - 1] == j[|j| - 1];
    }
  }

  /** ASCII lower-casing, the part of `str.lower()` that the compared phrases depend on. */
  function LowerChar(c: char): char {
    if 'A' <= c <= 'Z' then (c as int + 32) as char else c
  }

  function Lower(s: string): (r: string)
    ensures |r| == |s|
  {
    if |s| == 0 then [] else [LowerChar(s[0])] + Lower(s[1..])
  }

  /** The number of leading characters of `s` that satisfy `p`. */
  function SpanLen(s: string, p: char -> bool): (n: nat)
    ensures n <= |s|
    ensures forall i | 0 <= i < n :: p(s[i])
    ensures n == |s| || !p(s[n])
  {
    if |s| > 0 && p(s[0]) then 1 + SpanLen(s[1..], p) else 0
  }

  /** The span is exactly `n` long when the first `n` characters satisfy `p` and the next does not. */
  lemma {:induction false} SpanLenExact(s: string, p: char -> bool, n: nat)
    requires n <= |s|
    requires forall i | 0 <= i < n :: p(s[i])
    requires n == |s| || !p(s[n])
    ensures SpanLen(s, p) == n
  {
    if n > 0 {
      assert forall i | 0 <= i < n - 1 :: s[1..][i] == s[i + 1];
      if n < |s| {
        assert s[1..][n - 1] == s[n];
      }
      SpanLenExact(s[1..], p, n - 1);
    }
  }

  /** Python's `<` on `str`: lexicographic comparison of code points. */
  predicate LexLess(a: string, b: string)
    decreases |a|
  {
    if |a| == 0 then |b| > 0
    else if |b| == 0 then false
    else if a[0] != b[0] then a[0] < b[0]
    else LexLess(a[1..], b[1..])
  }

  /** The span starting at `b` reaches exactly `e` when `t[b..e]` satisfies `p` and `t[e]` does not. */
  lemma SpanLenFrom(t: string, p: char -> bool, b: nat, e: nat)
    requires b <= e <= |t|
    requires forall k | b <= k < e :: p(t[k])
    requires e == |t| || !p(t[e])
    ensures SpanLen(t[b..], p) == e - b
  {
    var u := t[b..];
    forall k | 0 <= k < e - b
      ensures p(u[k])
    {
      assert u[k] == t[b + k];
    }
    if e < |t| {
      assert u[e - b] == t[e];
    }
    SpanLenExact(u, p, e - b);
  }

  lemma {:induction false} LexLessIrreflexive(a: string)
    ensures !LexLess(a, a)
    decreases |a|
  {
    if |a| > 0 {
      LexLessIrreflexive(a[1..]);
    }
  }

  lemma {:induction false} LexLessTransitive(a: string, b: string, c: string)
    requires LexLess(a, b) && LexLess(b, c)
    ensures LexLess(a, c)
    decreases |a|
  {
    if |a| > 0 && |b| > 0 && |c| > 0 && a[0] == b[0] && b[0] == c[0] {
      LexLessTransitive(a[1..], b[1..], c[1..]);
    }
  }

  lemma {:induction false} LexLessTotal(a: string, b: string)
    requires a != b
    ensures LexLess(a, b) || LexLess(b, a)
    decreases |a|
  {
    if |a| > 0 && |b| > 0 && a[0] == b[0] {
      assert a == [a[0]] + a[1..] && b == [b[0]] + b[1..];
      LexLessTotal(a[1..], b[1..]);
    }
  }

  /** Every non-empty finite set of strings has a least element, the first one `sorted` yields. */
  lemma {:induction false} LeastExists(s: set<string>)
    requires s != {}
    ensures exists m :: m in s && forall y :: y in s && y != m ==> LexLess(m, y)
    decreases |s|
  {
    var x :| x in s;
    var rest := s - {x};
    if rest != {} {
      LeastExists(rest);
      var m :| m in rest && forall y :: y in rest && y != m ==> LexLess(m, y);
      if LexLess(m, x) {
        forall y | y in s && y != m
          ensures LexLess(m, y)
        {
        }
      } else {
        LexLessTotal(m, x);
        forall y | y in s && y != x
          ensures LexLess(x, y)
        {
          if y != m {
            LexLessTransitive(x, m, y);
          }
        }
      }
    } else {
      assert s == {x};
    }
  }

  /** A string that contains `a + b` contains `a`. */
  lemma {:induction false} ContainsPrefixOfPattern(s: string, a: string, b: string)
    requires Contains(s, a + b)
    ensures Contains(s, a)
    decreases |s|
  {
    if StartsWith(s, a + b) {
      assert s[..|a|] == (a + b)[..|a|] == a;
    } else {
      ContainsPrefixOfPattern(s[1..], a, b);
    }
  }
}
