/**
 * The text rewriting the namuwiki preprocessor applies to each section:
 * `clean_text_content` with its three sentence-level helpers, and
 * `clean_heading`. Every regular expression of the source is written out
 * as an explicit scan over the string, following the leftmost, greedy
 * matching of Python's `re` module.
 */
module NamuwikiText {
  import opened Wrappers
  import opened Strings
  import opened Seqs

  // ---------------------------------------------------------------------------
  // re.sub(r'\[.*?\]', '', s)
  // ---------------------------------------------------------------------------

  /**
   * For the text `t` just after a `[`: the index of the `]` the lazy `.*?\]`
   * reaches, which is the first `]` with no line break before it (`.` does not
   * match a line break).
   */
  function CloseIn(t: string): (r: Option<nat>)
    ensures r.Some? ==> r.value < |t| && t[r.value] == ']'
  {
    if |t| == 0 then None
    else if t[0] == ']' then Some(0)
    else if t[0] == '\n' then None
    else
      match CloseIn(t[1..])
      case None => None
      case Some(j) => Some(j + 1)
  }

  /** Removes every bracketed segment `[...]`, scanning left to right; an unclosed `[` is kept. */
  function RemoveBrackets(s: string): (r: string)
    ensures |r| <= |s|
    decreases |s|
  {
    if |s| == 0 then ""
    else if s[0] == '[' then
      match CloseIn(s[1..])
      case Some(j) => RemoveBrackets(s[j + 2..])
      case None => "[" + RemoveBrackets(s[1..])
    else [s[0]] + RemoveBrackets(s[1..])
  }

  /** No `[` of `r` is closed by a `]` on the same line. */
  predicate NoBracketSegment(r: string) {
    forall i | 0 <= i < |r| && r[i] == '[' :: CloseIn(r[i + 1..]).None?
  }

  lemma {:induction false} CloseInNoneKept(t: string)
    requires CloseIn(t).None?
    ensures CloseIn(RemoveBrackets(t)).None?
    decreases |t|
  {
    if |t| > 0 {
      assert t[0] != ']';
      if t[0] != '\n' {
        assert CloseIn(t[1..]).None?;
        CloseInNoneKept(t[1..]);
        var r := RemoveBrackets(t);
        assert r == [t[0]] + RemoveBrackets(t[1..]);
        assert r[1..] == RemoveBrackets(t[1..]);
      }
    }
  }

  /** After the removal no bracketed segment is left: removal never joins a `[` to a later `]`. */
  lemma {:induction false} RemoveBracketsNoSegment(s: string)
    ensures NoBracketSegment(RemoveBrackets(s))
    decreases |s|
  {
    if |s| > 0 {
      var r := RemoveBrackets(s);
      if s[0] == '[' && CloseIn(s[1..]).Some? {
        RemoveBracketsNoSegment(s[CloseIn(s[1..]).value + 2..]);
      } else {
        var rest := RemoveBrackets(s[1..]);
        RemoveBracketsNoSegment(s[1..]);
        assert r == [r[0]] + rest;
        if s[0] == '[' {
          CloseInNoneKept(s[1..]);
        }
        forall i | 0 <= i < |r| && r[i] == '['
          ensures CloseIn(r[i + 1..]).None?
        {
          if i == 0 {
            assert r[1..] == rest;
          } else {
            assert r[i + 1..] == rest[i..];
            assert rest[i - 1] == r[i];
          }
        }
      }
    }
  }

  /** Text without `[` is left as it is. */
  lemma {:induction false} RemoveBracketsIdentity(s: string)
    requires forall i | 0 <= i < |s| :: s[i] != '['
    ensures RemoveBrackets(s) == s
    decreases |s|
  {
    if |s| > 0 {
      RemoveBracketsIdentity(s[1..]);
      assert s == [s[0]] + s[1..];
    }
  }

  // ---------------------------------------------------------------------------
  // Outline numbers: `\d+`, `(\.\d+)*`, `\.?` and the two substitutions
  // ---------------------------------------------------------------------------

  /** The end of the run of digits starting at `i`. */
  function DigitsEnd(s: string, i: nat): (e: nat)
    requires i <= |s|
    ensures i <= e <= |s|
    ensures forall k | i <= k < e :: IsDigit(s[k])
    ensures e == |s| || !IsDigit(s[e])
  {
    i + SpanLen(s[i..], IsDigit)
  }

  /** The end of the greedy `(\.\d+)*` starting at `i`. */
  function DotGroupsEnd(s: string, i: nat): (e: nat)
    requires i <= |s|
    ensures i <= e <= |s|
    ensures forall k | i <= k < e :: IsDigit(s[k]) || (s[k] == '.' && k + 1 < e && IsDigit(s[k + 1]))
    decreases |s| - i
  {
    if i + 1 < |s| && s[i] == '.' && IsDigit(s[i + 1]) then DotGroupsEnd(s, DigitsEnd(s, i + 1)) else i
  }

  /** The groups are taken greedily: no further `.` and digit follow them. */
  lemma {:induction false} DotGroupsEndMaximal(s: string, i: nat)
    requires i <= |s|
    ensures var e := DotGroupsEnd(s, i); !(e + 1 < |s| && s[e] == '.' && IsDigit(s[e + 1]))
    decreases |s| - i
  {
    if i + 1 < |s| && s[i] == '.' && IsDigit(s[i + 1]) {
      var j := DigitsEnd(s, i + 1);
      DotGroupsEndMaximal(s, j);
      assert DotGroupsEnd(s, i) == DotGroupsEnd(s, j);
    } else {
      assert DotGroupsEnd(s, i) == i;
    }
  }

  /** When the groups start after the digits, no digit follows them either. */
  lemma {:induction false} DotGroupsEndNoDigit(s: string, i: nat)
    requires i <= |s|
    ensures var e := DotGroupsEnd(s, i); e == i || e == |s| || !IsDigit(s[e])
    decreases |s| - i
  {
    if i + 1 < |s| && s[i] == '.' && IsDigit(s[i + 1]) {
      var j := DigitsEnd(s, i + 1);
      assert DotGroupsEnd(s, i) == DotGroupsEnd(s, j);
      DotGroupsEndNoDigit(s, j);
    }
  }

  /** The end of `\.?` at `i`. */
  function OptDot(s: string, i: nat): (e: nat)
    requires i <= |s|
    ensures i <= e <= |s|
  {
    if i < |s| && s[i] == '.' then i + 1 else i
  }

  /** The end of a match of `\d+(\.\d+)+\.?\s+` (dotted) or `\d+\.\s+` (plain) starting at `q`. */
  function OutlineBody(s: string, q: nat, dotted: bool): (r: Option<nat>)
    requires q <= |s|
    ensures r.Some? ==> q + 2 <= r.value <= |s|
  {
    var d := DigitsEnd(s, q);
    if d == q then None
    else if dotted then
      var g := DotGroupsEnd(s, d);
      if g == d then None
      else
        var o := OptDot(s, g);
        var w := o + SpanLen(s[o..], IsSpace);
        if w == o then None else Some(w)
    else if d == |s| || s[d] != '.' then None
    else
      var w := d + 1 + SpanLen(s[d + 1..], IsSpace);
      if w == d + 1 then None else Some(w)
  }

  /** The end of a match of `(^|\s)` followed by the outline body at position `p`: `^` is tried first. */
  function OutlineAt(s: string, p: nat, dotted: bool): (r: Option<nat>)
    requires p < |s|
    ensures r.Some? ==> p + 2 <= r.value <= |s|
  {
    var atStart := if p == 0 then OutlineBody(s, 0, dotted) else None;
    if atStart.Some? then atStart
    else if IsSpace(s[p]) then OutlineBody(s, p + 1, dotted)
    else None
  }

  /** `re.sub(pattern, ' ', s[p..])` for the outline pattern, scanning from `p`. */
  function RemoveOutlineFrom(s: string, p: nat, dotted: bool): (r: string)
    requires p <= |s|
    ensures |r| <= |s| - p
    decreases |s| - p
  {
    if p == |s| then ""
    else
      match OutlineAt(s, p, dotted)
      case Some(e) => " " + RemoveOutlineFrom(s, e, dotted)
      case None => [s[p]] + RemoveOutlineFrom(s, p + 1, dotted)
  }

  /**
   * `re.sub(r'(^|\s)\d+(\.\d+)+\.?\s+', ' ', s)` when `dotted`, and
   * `re.sub(r'(^|\s)\d+\.\s+', ' ', s)` otherwise.
   */
  function RemoveOutlineNumbers(s: string, dotted: bool): string {
    RemoveOutlineFrom(s, 0, dotted)
  }

  /** Text without digits is left as it is. */
  lemma {:induction false} RemoveOutlineIdentity(s: string, p: nat, dotted: bool)
    requires p <= |s|
    requires NoneSatisfy(s, IsDigit)
    ensures RemoveOutlineFrom(s, p, dotted) == s[p..]
    decreases |s| - p
  {
    if p < |s| {
      assert OutlineBody(s, p, dotted).None?;
      assert p + 1 < |s| ==> OutlineBody(s, p + 1, dotted).None?;
      RemoveOutlineIdentity(s, p + 1, dotted);
      assert s[p..] == [s[p]] + s[p + 1..];
    }
  }

  // ---------------------------------------------------------------------------
  // re.split(r'(?<=[.?!])\s+', s)
  // ---------------------------------------------------------------------------

  predicate IsTerminal(c: char) {
    c == '.' || c == '?' || c == '!'
  }

  /**
   * The pieces of `s[start..]`, scanning at `p`: a maximal whitespace run
   * right after `.`, `?` or `!` separates two pieces.
   */
  function SplitFrom(s: string, start: nat, p: nat): (r: seq<string>)
    requires start <= p <= |s|
    ensures |r| >= 1
    decreases |s| - p
  {
    if p == |s| then [s[start..]]
    else if p > 0 && IsTerminal(s[p - 1]) && IsSpace(s[p]) then
      var e := p + SpanLen(s[p..], IsSpace);
      [s[start..p]] + SplitFrom(s, e, e)
    else SplitFrom(s, start, p + 1)
  }

  function SplitSentences(s: string): seq<string> {
    SplitFrom(s, 0, 0)
  }

  // ---------------------------------------------------------------------------
  // _remove_reference_sentences
  // ---------------------------------------------------------------------------

  const DetailsLead: string := "자세한 내용은"
  const DetailsTail: string := "참고하십시오"

  /** `.*?참고하십시오` matches at the start of `t`: the phrase occurs before any line break. */
  predicate ReachesDetailsTail(t: string)
    decreases |t|
  {
    StartsWith(t, DetailsTail) || (|t| > 0 && t[0] != '\n' && ReachesDetailsTail(t[1..]))
  }

  /** `re.search(r'자세한 내용은.*?참고하십시오', s)` finds a match. */
  predicate HasDetailsPointer(s: string)
    decreases |s|
  {
    (StartsWith(s, DetailsLead) && ReachesDetailsTail(s[|DetailsLead|..])) || (|s| > 0 && HasDetailsPointer(s[1..]))
  }

  /** The sentences the reference filter drops. */
  predicate IsReferenceSentence(s: string) {
    Contains(s, "참조") || Contains(s, "문서를 참고하십시오") || HasDetailsPointer(s)
  }

  /** The stripped pieces. */
  function StripAll(ps: seq<string>): seq<string> {
    seq(|ps|, i requires 0 <= i < |ps| => Strip(ps[i]))
  }

  lemma StripAllSnoc(ps: seq<string>)
    requires |ps| > 0
    ensures StripAll(ps) == StripAll(ps[..|ps| - 1]) + [Strip(ps[|ps| - 1])]
  {
    var p := ps[..|ps| - 1];
    forall i | 0 <= i < |ps| - 1
      ensures StripAll(ps)[i] == StripAll(p)[i]
    {
      assert ps[i] == p[i];
    }
  }

  /** The loop both sentence filters share: strip each piece and keep it when `keep` holds. */
  function KeepStripped(ps: seq<string>, keep: string -> bool): seq<string> {
    if |ps| == 0 then []
    else
      var st := Strip(ps[|ps| - 1]);
      KeepStripped(ps[..|ps| - 1], keep) + (if keep(st) then [st] else [])
  }

  lemma KeepStrippedSnoc(ps: seq<string>, keep: string -> bool)
    requires |ps| > 0
    ensures KeepStripped(ps, keep) ==
      if keep(Strip(ps[|ps| - 1])) then KeepStripped(ps[..|ps| - 1], keep) + [Strip(ps[|ps| - 1])]
      else KeepStripped(ps[..|ps| - 1], keep)
  {
  }

  /** Every kept piece is stripped and passes `keep`. */
  lemma {:induction false} KeepStrippedSound(ps: seq<string>, keep: string -> bool)
    ensures forall s | s in KeepStripped(ps, keep) :: keep(s) && StrippedBy(s, IsSpace)
  {
    if |ps| > 0 {
      KeepStrippedSound(ps[..|ps| - 1], keep);
      KeepStrippedSnoc(ps, keep);
      StripByInfix(ps[|ps| - 1], IsSpace);
    }
  }

  /** The kept pieces are exactly the stripped pieces that pass `keep`. */
  lemma {:induction false} KeepStrippedElements(ps: seq<string>, keep: string -> bool)
    ensures forall s :: s in KeepStripped(ps, keep) <==> s in StripAll(ps) && keep(s)
  {
    if |ps| > 0 {
      var p := ps[..|ps| - 1];
      KeepStrippedElements(p, keep);
      KeepStrippedSnoc(ps, keep);
      StripAllSnoc(ps);
    }
  }

  /** The kept pieces keep their original order. */
  lemma {:induction false} KeepStrippedOrder(ps: seq<string>, keep: string -> bool)
    ensures IsSubsequence(KeepStripped(ps, keep), StripAll(ps))
  {
    if |ps| > 0 {
      var p := ps[..|ps| - 1];
      var st := Strip(ps[|ps| - 1]);
      var kp := KeepStripped(p, keep);
      KeepStrippedOrder(p, keep);
      KeepStrippedSnoc(ps, keep);
      StripAllSnoc(ps);
      if keep(st) {
        IsSubsequenceKeep(kp, StripAll(p), st);
      } else {
        IsSubsequenceSkip(kp, StripAll(p), st);
      }
    }
  }

  /** The sentences the reference filter keeps. */
  predicate NotReference(s: string) {
    s != "" && !IsReferenceSentence(s)
  }

  function ReferenceFree(ps: seq<string>): seq<string> {
    KeepStripped(ps, NotReference)
  }

  /**
   * The kept sentences are exactly the stripped input sentences that are
   * non-empty and mention no reference, in their original order.
   */
  lemma ReferenceFreeSpec(ps: seq<string>)
    ensures forall s | s in ReferenceFree(ps) ::
      s != "" && StrippedBy(s, IsSpace) && !Contains(s, "참조") && !Contains(s, "문서를 참고하십시오") && !HasDetailsPointer(s)
    ensures forall s :: s in ReferenceFree(ps) <==> s in StripAll(ps) && NotReference(s)
    ensures IsSubsequence(ReferenceFree(ps), StripAll(ps))
  {
    KeepStrippedSound(ps, NotReference);
    KeepStrippedElements(ps, NotReference);
    KeepStrippedOrder(ps, NotReference);
  }

  /** `_remove_reference_sentences(text)`. */
  method RemoveReferenceSentences(text: string) returns (r: string)
    ensures r == Join(ReferenceFree(SplitSentences(text)), " ")
  {
    var sentences := SplitSentences(text);
    var valid: seq<string> := [];
    for i := 0 to |sentences|
      invariant valid == ReferenceFree(sentences[..i])
    {
      assert sentences[..i + 1][..i] == sentences[..i];
      var st := Strip(sentences[i]);
      assert ReferenceFree(sentences[..i + 1]) == if NotReference(st) then ReferenceFree(sentences[..i]) + [st] else ReferenceFree(sentences[..i]);
      if st == "" {
        continue;
      }
      if Contains(st, "참조") {
        continue;
      }
      if Contains(st, "문서를 참고하십시오") {
        continue;
      }
      if HasDetailsPointer(st) {
        continue;
      }
      valid := valid + [st];
    }
    assert sentences[..|sentences|] == sentences;
    r := Join(valid, " ");
  }

  // ---------------------------------------------------------------------------
  // _remove_duplicate_sentences
  // ---------------------------------------------------------------------------

  /** A stripped piece the de-duplicator skips: empty, or under five characters without a final `.`, `?` or `!`. */
  predicate IsFragment(s: string) {
    s == "" || (|s| < 5 && !IsTerminal(s[|s| - 1]))
  }

  predicate NotFragment(s: string) {
    !IsFragment(s)
  }

  /** The stripped pieces that are not fragments, in order, repetitions included. */
  function Substantial(ps: seq<string>): seq<string> {
    KeepStripped(ps, NotFragment)
  }

  /** The sentences the de-duplicator keeps. */
  function DistinctSentences(ps: seq<string>): seq<string> {
    Dedup(Substantial(ps))
  }

  /**
   * The kept sentences are pairwise distinct, none is a fragment, they are
   * exactly the stripped non-fragment pieces, and they come in the order of
   * their first occurrence.
   */
  lemma DistinctSentencesSpec(ps: seq<string>)
    ensures NoDup(DistinctSentences(ps))
    ensures forall s | s in DistinctSentences(ps) :: !IsFragment(s) && StrippedBy(s, IsSpace)
    ensures forall s :: s in DistinctSentences(ps) <==> s in StripAll(ps) && NotFragment(s)
    ensures forall i, j | 0 <= i < j < |DistinctSentences(ps)| ::
      DistinctSentences(ps)[i] in Substantial(ps) && DistinctSentences(ps)[j] in Substantial(ps)
      && FirstIndex(Substantial(ps), DistinctSentences(ps)[i]) < FirstIndex(Substantial(ps), DistinctSentences(ps)[j])
  {
    DedupNoDup(Substantial(ps));
    DedupElements(Substantial(ps));
    KeepStrippedSound(ps, NotFragment);
    KeepStrippedElements(ps, NotFragment);
    DedupFirstOccurrenceOrder(Substantial(ps));
  }

  /** `_remove_duplicate_sentences(text)`. */
  method RemoveDuplicateSentences(text: string) returns (r: string)
    ensures r == Join(DistinctSentences(SplitSentences(text)), " ")
  {
    var sentences := SplitSentences(text);
    var unique: seq<string> := [];
    var seen: set<string> := {};
    for i := 0 to |sentences|
      invariant unique == Dedup(Substantial(sentences[..i]))
      invariant forall x :: x in seen <==> x in unique
    {
      assert sentences[..i + 1][..i] == sentences[..i];
      var st := Strip(sentences[i]);
      if st == "" || (|st| < 5 && !IsTerminal(st[|st| - 1])) {
        assert Substantial(sentences[..i + 1]) == Substantial(sentences[..i]);
        continue;
      }
      assert Substantial(sentences[..i + 1]) == Substantial(sentences[..i]) + [st];
      DedupSnoc(Substantial(sentences[..i]), st);
      if st !in seen {
        unique := unique + [st];
        seen := seen + {st};
      }
    }
    assert sentences[..|sentences|] == sentences;
    r := Join(unique, " ");
  }

  // ---------------------------------------------------------------------------
  // _remove_tail_repetitions: re.search(r'(\s\S.{1,20})(?:\1)+$', text)
  // ---------------------------------------------------------------------------

  /**
   * `s[p..end]` is two or more copies of a group of length `len`: one
   * whitespace character, one other character, then 1 to 20 characters that
   * are not line breaks.
   */
  predicate TailAt(s: string, p: nat, len: nat, end: nat) {
    && 3 <= len <= 22 && end <= |s| && p + 2 * len <= end && (end - p) % len == 0
    && IsSpace(s[p]) && !IsSpace(s[p + 1])
    && (forall i | p + 2 <= i < p + len :: s[i] != '\n')
    && (forall i | p + len <= i < end :: s[i] == s[i - len])
  }

  /** The pattern matches at `p` with a group of length `len`: the copies reach the end, or the end but for a final line break. */
  predicate TailWith(s: string, p: nat, len: nat) {
    TailAt(s, p, len, |s|) || (|s| > 0 && s[|s| - 1] == '\n' && TailAt(s, p, len, |s| - 1))
  }

  /** The pattern matches at `p` with a group of length `len` or more (up to 22). */
  predicate TailFromLen(s: string, p: nat, len: nat)
    decreases 23 - len
  {
    len <= 22 && (TailWith(s, p, len) || TailFromLen(s, p, len + 1))
  }

  /** The pattern matches at `p`: `.{1,20}` makes the group 3 to 22 characters long. */
  predicate HasTailAt(s: string, p: nat) {
    TailFromLen(s, p, 3)
  }

  lemma {:induction false} TailFromLenSpec(s: string, p: nat, len: nat)
    ensures TailFromLen(s, p, len) <==> exists l | len <= l <= 22 :: TailWith(s, p, l)
    decreases 23 - len
  {
    if len <= 22 {
      TailFromLenSpec(s, p, len + 1);
      if TailFromLen(s, p, len + 1) {
        var l :| len + 1 <= l <= 22 && TailWith(s, p, l);
      }
      if exists l | len <= l <= 22 :: TailWith(s, p, l) {
        var l :| len <= l <= 22 && TailWith(s, p, l);
        if l != len {
          assert exists l' | len + 1 <= l' <= 22 :: TailWith(s, p, l');
        }
      }
    }
  }

  /** No match starts at or beyond the end of the text. */
  lemma {:induction false} NoTailBeyond(s: string, q: nat, len: nat)
    requires q >= |s|
    ensures !TailFromLen(s, q, len)
    decreases 23 - len
  {
    if len <= 22 {
      NoTailBeyond(s, q, len + 1);
    }
  }

  /** The leftmost position at or after `p` where the pattern matches. */
  function FindTailFrom(s: string, p: nat): (r: Option<nat>)
    ensures r.Some? ==> p <= r.value < |s|
    decreases |s| - p
  {
    if p >= |s| then None
    else if HasTailAt(s, p) then Some(p)
    else FindTailFrom(s, p + 1)
  }

  /** The search finds a match, and no match lies between its start and the position found. */
  lemma {:induction false} FindTailFromLeftmost(s: string, p: nat)
    ensures FindTailFrom(s, p).Some? ==> HasTailAt(s, FindTailFrom(s, p).value)
    ensures forall q | p <= q < |s| && (FindTailFrom(s, p).None? || q < FindTailFrom(s, p).value) :: !HasTailAt(s, q)
    decreases |s| - p
  {
    if p < |s| && !HasTailAt(s, p) {
      FindTailFromLeftmost(s, p + 1);
    }
  }

  function FindTail(s: string): Option<nat> {
    FindTailFrom(s, 0)
  }

  /** The loop of `_remove_tail_repetitions`: cut at the match and strip, until nothing matches. */
  function TrimTails(s: string): string
    decreases |s|
  {
    match FindTail(s)
    case None => s
    case Some(p) => TrimTails(Strip(s[..p]))
  }

  /** On exit no repeated tail is left anywhere. */
  lemma {:induction false} TrimTailsNoTail(s: string)
    ensures forall q :: !HasTailAt(TrimTails(s), q)
    decreases |s|
  {
    FindTailFromLeftmost(s, 0);
    match FindTail(s)
    case None =>
      assert TrimTails(s) == s;
      forall q: nat
        ensures !HasTailAt(s, q)
      {
        if q >= |s| {
          NoTailBeyond(s, q, 3);
        }
      }
    case Some(p) =>
      TrimTailsNoTail(Strip(s[..p]));
  }

  /** `r` occurs in `s` at position `k`. */
  predicate InfixAt(r: string, s: string, k: nat) {
    k + |r| <= |s| && s[k..k + |r|] == r
  }

  /**
   * On a stripped text every round keeps a stripped start of it: the result
   * is the text itself or a strictly shorter stripped prefix of it.
   */
  lemma {:induction false} TrimTailsPrefix(s: string)
    requires StrippedBy(s, IsSpace)
    ensures StartsWith(s, TrimTails(s)) && StrippedBy(TrimTails(s), IsSpace)
    ensures TrimTails(s) == s || |TrimTails(s)| < |s|
    decreases |s|
  {
    match FindTail(s)
    case None =>
      assert s[..|s|] == s;
    case Some(p) =>
      var t := Strip(s[..p]);
      TrimRound(s, p, t);
      TrimTailsPrefix(t);
      StartsWithExtend(t, s, TrimTails(t));
  }

  /** One round on a stripped text keeps a stripped prefix of it, shorter than the text. */
  lemma TrimRound(s: string, p: nat, t: string)
    requires StrippedBy(s, IsSpace) && p < |s| && t == Strip(s[..p])
    ensures StrippedBy(t, IsSpace) && |t| <= p && t == s[..|t|]
  {
    var u := s[..p];
    assert u == [] || !IsSpace(u[0]);
    StripByPrefix(u, IsSpace);
    StripByResult(u, IsSpace);
    assert t == u[..|t|];
  }

  /** `_remove_tail_repetitions(text)`. */
  method RemoveTailRepetitions(text: string) returns (r: string)
    ensures r == TrimTails(text)
  {
    r := text;
    while FindTail(r).Some?
      invariant TrimTails(r) == TrimTails(text)
      decreases |r|
    {
      var start := FindTail(r).value;
      r := Strip(r[..start]);
    }
  }

  // ---------------------------------------------------------------------------
  // clean_text_content
  // ---------------------------------------------------------------------------

  /**
   * `clean_text_content(text)`: bracketed segments removed, outline numbers
   * replaced by a space (dotted ones first), whitespace collapsed, reference
   * sentences dropped, repeated sentences dropped, repeated tails cut.
   */
  function Cleaned(text: string): string {
    if text == "" then ""
    else
      var collapsed := CollapseStrip(RemoveOutlineNumbers(RemoveOutlineNumbers(RemoveBrackets(text), true), false));
      var referenceFree := Join(ReferenceFree(SplitSentences(collapsed)), " ");
      TrimTails(Join(DistinctSentences(SplitSentences(referenceFree)), " "))
  }

  method CleanTextContent(text: string) returns (r: string)
    ensures r == Cleaned(text)
  {
    if text == "" {
      return "";
    }
    var t := RemoveBrackets(text);
    t := RemoveOutlineNumbers(t, true);
    t := RemoveOutlineNumbers(t, false);
    t := CollapseStrip(t);
    t := RemoveReferenceSentences(t);
    t := RemoveDuplicateSentences(t);
    r := RemoveTailRepetitions(t);
  }

  /** The cleaned text is stripped and ends in no repeated tail; empty text stays empty. */
  lemma CleanedSpec(text: string)
    ensures text == "" ==> Cleaned(text) == ""
    ensures StrippedBy(Cleaned(text), IsSpace)
    ensures forall q :: !HasTailAt(Cleaned(text), q)
  {
    if text != "" {
      var collapsed := CollapseStrip(RemoveOutlineNumbers(RemoveOutlineNumbers(RemoveBrackets(text), true), false));
      var referenceFree := Join(ReferenceFree(SplitSentences(collapsed)), " ");
      var ds := DistinctSentences(SplitSentences(referenceFree));
      DistinctSentencesSpec(SplitSentences(referenceFree));
      forall i | 0 <= i < |ds|
        ensures ds[i] != [] && StrippedBy(ds[i], IsSpace)
      {
        assert ds[i] in ds;
      }
      var joined := Join(ds, " ");
      JoinStripped(ds, " ", IsSpace);
      TrimTailsPrefix(joined);
      TrimTailsNoTail(joined);
    } else {
      forall q: nat
        ensures !HasTailAt("", q)
      {
        NoTailBeyond("", q, 3);
      }
    }
  }

  // ---------------------------------------------------------------------------
  // The cleaner is not idempotent
  // ---------------------------------------------------------------------------

  /** From `p` on, no whitespace character is followed by a digit. */
  predicate NoDigitAfterSpace(s: string, p: nat) {
    forall q | p <= q < |s| - 1 :: IsSpace(s[q]) ==> !IsDigit(s[q + 1])
  }

  lemma NoDigitAfterSpaceSuffix(s: string, p: nat)
    requires p <= |s| && NoDigitAfterSpace(s, p)
    ensures NoDigitAfterSpace(s[p..], 0)
  {
    forall q | 0 <= q < |s| - p - 1
      ensures IsSpace(s[p..][q]) ==> !IsDigit(s[p..][q + 1])
    {
      assert s[p..][q] == s[p + q] && s[p..][q + 1] == s[p + q + 1];
    }
  }

  lemma NoDigitAfterSpaceCons(c: char, w: string)
    requires NoDigitAfterSpace(w, 0)
    ensures NoDigitAfterSpace([c] + w, 1)
  {
    var y := [c] + w;
    forall q | 1 <= q < |y| - 1
      ensures IsSpace(y[q]) ==> !IsDigit(y[q + 1])
    {
      assert y[q] == w[q - 1] && y[q + 1] == w[q];
    }
  }

  /**
   * From a position past the start, where no whitespace character is followed
   * by a digit, the outline-number removal copies the rest of the text.
   */
  lemma {:induction false} RemoveOutlineSkip(s: string, p: nat, dotted: bool)
    requires 0 < p <= |s| && NoDigitAfterSpace(s, p)
    ensures RemoveOutlineFrom(s, p, dotted) == s[p..]
    decreases |s| - p
  {
    if p < |s| {
      assert OutlineAt(s, p, dotted).None?;
      if p + 1 < |s| {
        RemoveOutlineSkip(s, p + 1, dotted);
      }
      assert s[p..] == [s[p]] + s[p + 1..];
    }
  }

  /** A text in which no whitespace follows a sentence end is one sentence. */
  lemma {:induction false} SplitFromWhole(s: string, start: nat, p: nat)
    requires start <= p <= |s|
    requires forall q | p <= q < |s| && q > 0 :: !(IsTerminal(s[q - 1]) && IsSpace(s[q]))
    ensures SplitFrom(s, start, p) == [s[start..]]
    decreases |s| - p
  {
    if p < |s| {
      SplitFromWhole(s, start, p + 1);
    }
  }

  /** A pattern whose first character does not occur in `s` is not contained in it. */
  lemma {:induction false} ContainsNoLead(s: string, sub: string)
    requires sub != [] && forall i | 0 <= i < |s| :: s[i] != sub[0]
    ensures !Contains(s, sub)
    decreases |s|
  {
    if |s| > 0 {
      if |sub| <= |s| {
        assert s[..|sub|][0] == s[0];
      }
      ContainsNoLead(s[1..], sub);
    }
  }

  /** Without the first character of the pointer's lead-in there is no details pointer. */
  lemma {:induction false} DetailsNoLead(s: string)
    requires forall i | 0 <= i < |s| :: s[i] != DetailsLead[0]
    ensures !HasDetailsPointer(s)
    decreases |s|
  {
    if |s| > 0 {
      if |DetailsLead| <= |s| {
        assert s[..|DetailsLead|][0] == s[0];
      }
      DetailsNoLead(s[1..]);
    }
  }

  /** ASCII text is no reference sentence: every reference marker starts with a Hangul syllable. */
  lemma AsciiNotReference(s: string)
    requires forall i | 0 <= i < |s| :: s[i] < '\U{80}'
    ensures !IsReferenceSentence(s)
  {
    ContainsNoLead(s, "참조");
    ContainsNoLead(s, "문서를 참고하십시오");
    DetailsNoLead(s);
  }

  /** Without whitespace six or more characters before the end, no repeated tail can start. */
  lemma {:induction false} NoTailShort(s: string, p: nat, len: nat)
    requires !(p + 6 <= |s| && IsSpace(s[p]))
    ensures !TailFromLen(s, p, len)
    decreases 23 - len
  {
    if len <= 22 {
      NoTailShort(s, p, len + 1);
    }
  }

  /** Such a text has no repeated tail to cut. */
  lemma TrimTailsShort(s: string)
    requires forall p | 0 <= p < |s| - 5 :: !IsSpace(s[p])
    ensures TrimTails(s) == s
  {
    FindTailFromLeftmost(s, 0);
    if FindTail(s).Some? {
      NoTailShort(s, FindTail(s).value, 3);
    }
  }

  /** A single stripped piece that passes `keep` is kept. */
  lemma KeepOne(z: string, keep: string -> bool)
    requires StrippedBy(z, IsSpace) && keep(z)
    ensures KeepStripped([z], keep) == [z]
  {
    assert [z][..0] == [];
    StripByStripped(z, IsSpace);
  }

  lemma DedupOne<T>(x: T)
    ensures Dedup([x]) == [x]
  {
    assert [x][..0] == [];
  }

  /**
   * A stripped, non-empty ASCII sentence that is no fragment, has no
   * sentence break inside and no whitespace six or more characters before its
   * end passes the sentence filters and the tail cut unchanged.
   */
  lemma OneSentence(z: string)
    requires z != "" && StrippedBy(z, IsSpace) && NotFragment(z)
    requires forall i | 0 <= i < |z| :: z[i] < '\U{80}'
    requires forall q | 0 < q < |z| :: !(IsTerminal(z[q - 1]) && IsSpace(z[q]))
    requires forall p | 0 <= p < |z| - 5 :: !IsSpace(z[p])
    ensures TrimTails(Join(DistinctSentences(SplitSentences(Join(ReferenceFree(SplitSentences(z)), " "))), " ")) == z
  {
    assert SplitSentences(z) == [z] by {
      SplitFromWhole(z, 0, 0);
      assert z[0..] == z;
    }
    assert ReferenceFree([z]) == [z] by {
      AsciiNotReference(z);
      KeepOne(z, NotReference);
    }
    assert DistinctSentences([z]) == [z] by {
      KeepOne(z, NotFragment);
      DedupOne(z);
    }
    TrimTailsShort(z);
  }

  /** A text whose normalised form is such a sentence cleans to that sentence. */
  lemma CleanedOneSentence(text: string, z: string)
    requires text != ""
    requires CollapseStrip(RemoveOutlineNumbers(RemoveOutlineNumbers(RemoveBrackets(text), true), false)) == z
    requires z != "" && StrippedBy(z, IsSpace) && NotFragment(z)
    requires forall i | 0 <= i < |z| :: z[i] < '\U{80}'
    requires forall q | 0 < q < |z| :: !(IsTerminal(z[q - 1]) && IsSpace(z[q]))
    requires forall p | 0 <= p < |z| - 5 :: !IsSpace(z[p])
    ensures Cleaned(text) == z
  {
    OneSentence(z);
  }

  /** The two sentences of the example meet the conditions of `OneSentence`. */
  lemma ExampleSentences(z: string)
    requires z == "1.2 ab." || z == "ab."
    ensures z != "" && StrippedBy(z, IsSpace) && NotFragment(z)
    ensures forall i | 0 <= i < |z| :: z[i] < '\U{80}'
    ensures forall q | 0 < q < |z| :: !(IsTerminal(z[q - 1]) && IsSpace(z[q]))
    ensures forall p | 0 <= p < |z| - 5 :: !IsSpace(z[p])
  {
  }

  /** A text starting with a digit, a dot, a digit and one space matches the dotted pattern at its start. */
  lemma DottedAtStart(s: string)
    requires |s| >= 5 && IsDigit(s[0]) && s[1] == '.' && IsDigit(s[2]) && s[3] == ' ' && !IsSpace(s[4])
    ensures OutlineBody(s, 0, true) == Some(4)
  {
    assert DigitsEnd(s, 0) == 1;
    assert DigitsEnd(s, 2) == 3;
    assert DotGroupsEnd(s, 1) == 3;
    assert s[3..][0] == ' ' && s[3..][1] == s[4];
    assert SpanLen(s[3..], IsSpace) == 1;
  }

  /**
   * A text starting with a space and then a non-digit, or a digit, a dot and
   * no whitespace, has no plain outline number at its start.
   */
  lemma PlainAtStartNone(y: string)
    requires |y| >= 4 && y[0] == ' '
    requires !IsDigit(y[1]) || (y[2] == '.' && !IsSpace(y[3]))
    ensures OutlineAt(y, 0, false).None?
  {
    assert DigitsEnd(y, 0) == 0;
    if IsDigit(y[1]) {
      assert DigitsEnd(y, 1) == 2;
      assert y[3..][0] == y[3];
      assert SpanLen(y[3..], IsSpace) == 0;
    }
  }

  /** One space in front of a stripped text with single spaces is normalised away. */
  lemma CollapseLead(w: string)
    requires w != [] && StrippedBy(w, IsSpace) && SingleRuns(w, IsSpace, ' ')
    ensures CollapseStrip([' '] + w) == w
  {
    var y := [' '] + w;
    assert SingleRuns(y, IsSpace, ' ') by {
      forall i | 0 <= i < |y| && IsSpace(y[i])
        ensures y[i] == ' ' && (i + 1 < |y| ==> !IsSpace(y[i + 1]))
      {
        if i > 0 {
          assert y[i] == w[i - 1];
          if i + 1 < |y| {
            assert y[i + 1] == w[i];
          }
        } else {
          assert y[1] == w[0];
        }
      }
    }
    SubRunsIdentity(y, IsSpace, ' ', false);
    StripOneLead(' ', w, IsSpace);
  }

  /**
   * A text of a dotted number, one space and a rest `w` that has no digit
   * after whitespace and does not start with a plain outline number
   * normalises to `w`.
   */
  lemma NormalisedAfterNumber(x: string)
    requires |x| >= 7 && IsDigit(x[0]) && x[1] == '.' && IsDigit(x[2]) && x[3] == ' ' && !IsSpace(x[4])
    requires forall i | 0 <= i < |x| :: x[i] != '['
    requires NoDigitAfterSpace(x, 4)
    requires !IsDigit(x[4]) || (x[5] == '.' && !IsSpace(x[6]))
    requires StrippedBy(x[4..], IsSpace) && SingleRuns(x[4..], IsSpace, ' ')
    ensures CollapseStrip(RemoveOutlineNumbers(RemoveOutlineNumbers(RemoveBrackets(x), true), false)) == x[4..]
  {
    var w := x[4..];
    var y := [' '] + w;
    assert RemoveOutlineNumbers(RemoveBrackets(x), true) == y by {
      RemoveBracketsIdentity(x);
      DottedAtStart(x);
      RemoveOutlineSkip(x, 4, true);
    }
    assert RemoveOutlineNumbers(y, false) == y by {
      assert y[1] == x[4] && y[2] == x[5] && y[3] == x[6];
      PlainAtStartNone(y);
      NoDigitAfterSpaceSuffix(x, 4);
      NoDigitAfterSpaceCons(' ', w);
      RemoveOutlineSkip(y, 1, false);
      assert y == [y[0]] + y[1..];
    }
    CollapseLead(w);
  }

  /** "1.2 1.2 ab." normalises to "1.2 ab.": only the first number is removed. */
  lemma NormalisedOnce(x: string)
    requires |x| == 11 && x[0] == '1' && x[1] == '.' && x[2] == '2' && x[3] == ' ' && x[4] == '1' && x[5] == '.'
      && x[6] == '2' && x[7] == ' ' && x[8] == 'a' && x[9] == 'b' && x[10] == '.'
    ensures CollapseStrip(RemoveOutlineNumbers(RemoveOutlineNumbers(RemoveBrackets(x), true), false)) == "1.2 ab."
  {
    assert x[4..] == "1.2 ab.";
    NormalisedAfterNumber(x);
  }

  /** "1.2 ab." normalises to "ab.". */
  lemma NormalisedTwice(x: string)
    requires |x| == 7 && x[0] == '1' && x[1] == '.' && x[2] == '2' && x[3] == ' ' && x[4] == 'a' && x[5] == 'b'
      && x[6] == '.'
    ensures CollapseStrip(RemoveOutlineNumbers(RemoveOutlineNumbers(RemoveBrackets(x), true), false)) == "ab."
  {
    assert x[4..] == "ab.";
    NormalisedAfterNumber(x);
  }

  /** "1.2 1.2 ab." keeps its second number through one cleaning. */
  lemma CleanedOnce(x: string)
    requires |x| == 11 && x[0] == '1' && x[1] == '.' && x[2] == '2' && x[3] == ' ' && x[4] == '1' && x[5] == '.'
      && x[6] == '2' && x[7] == ' ' && x[8] == 'a' && x[9] == 'b' && x[10] == '.'
    ensures Cleaned(x) == "1.2 ab."
  {
    NormalisedOnce(x);
    ExampleSentences("1.2 ab.");
    CleanedOneSentence(x, "1.2 ab.");
  }

  /** Cleaning "1.2 ab." removes the number it starts with. */
  lemma CleanedTwice(x: string)
    requires |x| == 7 && x[0] == '1' && x[1] == '.' && x[2] == '2' && x[3] == ' ' && x[4] == 'a' && x[5] == 'b'
      && x[6] == '.'
    ensures Cleaned(x) == "ab."
  {
    NormalisedTwice(x);
    ExampleSentences("ab.");
    CleanedOneSentence(x, "ab.");
  }

  /**
   * The cleaner is not idempotent: in "1.2 1.2 ab." the second number lost the
   * whitespace before it to the match of the first, so the first pass keeps it;
   * after collapsing it starts the text, and the second pass removes it.
   */
  lemma CleanedNotIdempotent(x: string)
    requires x == "1.2 1.2 ab."
    ensures Cleaned(x) == "1.2 ab." && Cleaned(Cleaned(x)) == "ab."
    ensures Cleaned(Cleaned(x)) != Cleaned(x)
  {
    CleanedOnce(x);
    CleanedTwice(Cleaned(x));
  }

  /**
   * A dotted number followed by a plain one loses both: the dotted match
   * leaves a space, and that space is the whitespace the plain match needs.
   */
  lemma DottedThenPlainRemoved(x: string)
    requires |x| == 9 && x[0] == '3' && x[1] == '.' && x[2] == '2' && x[3] == '.' && x[4] == ' '
      && x[5] == '4' && x[6] == '.' && x[7] == ' ' && x[8] == 'x'
    ensures RemoveOutlineNumbers(RemoveOutlineNumbers(x, true), false) == " x"
  {
    assert RemoveOutlineNumbers(x, true) == " 4. x" by {
      DottedTwoGroups(x);
      DottedTailKept(x);
    }
    PlainAfterSpace(" 4. x");
  }

  /** The dotted match at the start of `3.2. 4. x` covers `3.2. `. */
  lemma DottedTwoGroups(x: string)
    requires |x| == 9 && x[0] == '3' && x[1] == '.' && x[2] == '2' && x[3] == '.' && x[4] == ' ' && x[5] == '4'
    ensures OutlineAt(x, 0, true) == Some(5)
  {
    assert DigitsEnd(x, 0) == 1;
    assert DigitsEnd(x, 2) == 3;
    assert DotGroupsEnd(x, 3) == 3;
    assert DotGroupsEnd(x, 1) == 3;
    assert OptDot(x, 3) == 4;
    assert x[4..][0] == ' ' && x[4..][1] == '4';
    assert SpanLen(x[4..], IsSpace) == 1;
  }

  /** After `3.2. `, no dotted match starts in `4. x`. */
  lemma DottedTailKept(x: string)
    requires |x| == 9 && x[0] == '3' && x[1] == '.' && x[2] == '2' && x[3] == '.' && x[4] == ' '
      && x[5] == '4' && x[6] == '.' && x[7] == ' ' && x[8] == 'x'
    ensures RemoveOutlineFrom(x, 5, true) == "4. x"
  {
    assert !IsSpace(x[8]) && !IsSpace(x[6]) && !IsSpace(x[5]) && IsSpace(x[7]);
    assert RemoveOutlineFrom(x, 8, true) == [x[8]] + RemoveOutlineFrom(x, 9, true);
    assert RemoveOutlineFrom(x, 7, true) == [x[7]] + RemoveOutlineFrom(x, 8, true) by {
      assert DigitsEnd(x, 8) == 8;
      assert OutlineAt(x, 7, true).None?;
    }
    assert RemoveOutlineFrom(x, 6, true) == [x[6]] + RemoveOutlineFrom(x, 7, true);
    assert RemoveOutlineFrom(x, 5, true) == [x[5]] + RemoveOutlineFrom(x, 6, true);
    assert [x[5]] + ([x[6]] + ([x[7]] + ([x[8]] + ""))) == "4. x";
  }

  /** In ` 4. x` the plain match covers ` 4. `. */
  lemma PlainAfterSpace(y: string)
    requires y == " 4. x"
    ensures RemoveOutlineNumbers(y, false) == " x"
  {
    assert y[0] == ' ' && y[1] == '4' && y[2] == '.' && y[3] == ' ' && y[4] == 'x';
    assert DigitsEnd(y, 0) == 0;
    assert DigitsEnd(y, 1) == 2;
    assert y[3..][0] == ' ' && y[3..][1] == 'x';
    assert SpanLen(y[3..], IsSpace) == 1;
    assert OutlineAt(y, 0, false) == Some(4);
    assert OutlineAt(y, 4, false).None?;
    assert RemoveOutlineFrom(y, 4, false) == "x";
  }

  // ---------------------------------------------------------------------------
  // Outline numbers of headings: `^\d+(\.\d+)*\.?`
  // ---------------------------------------------------------------------------

  /** The end of the greedy `\d+(\.\d+)*\.?` at the start of `s`; 0 when `s` does not start with a digit. */
  function NumberEnd(s: string): (e: nat)
    ensures e <= |s|
    ensures e == 0 <==> |s| == 0 || !IsDigit(s[0])
    ensures forall k | 0 <= k < e :: IsDigit(s[k]) || s[k] == '.'
    ensures forall k | 0 <= k < e - 1 && s[k] == '.' :: IsDigit(s[k + 1])
  {
    var d := DigitsEnd(s, 0);
    if d == 0 then 0 else OptDot(s, DotGroupsEnd(s, d))
  }

  /** The number is as long as the pattern allows: no digit follows it, and a dot only after a dot. */
  lemma NumberEndMaximal(s: string)
    ensures var e := NumberEnd(s);
      e > 0 ==> e == |s| || (!IsDigit(s[e]) && (s[e] == '.' ==> s[e - 1] == '.'))
  {
    var d := DigitsEnd(s, 0);
    if d > 0 {
      DotGroupsEndMaximal(s, d);
      DotGroupsEndNoDigit(s, d);
    }
  }

  /**
   * The outline number of a section heading, `re.match(r'^(\d+(\.\d+)*\.?)',
   * heading.strip())`: present exactly when the stripped heading starts with a
   * digit, and then a non-empty prefix of it made of digits and dots.
   */
  function OutlineNumber(heading: string): (r: Option<string>)
    ensures r.None? <==> Strip(heading) == "" || !IsDigit(Strip(heading)[0])
    ensures r.Some? ==> r.value != "" && IsDigit(r.value[0]) && StartsWith(Strip(heading), r.value)
    ensures r.Some? ==> forall k | 0 <= k < |r.value| :: IsDigit(r.value[k]) || r.value[k] == '.'
  {
    var s := Strip(heading);
    var e := NumberEnd(s);
    if e == 0 then None else Some(s[..e])
  }

  /**
   * The outline number is the longest match: the next character of the
   * stripped heading is no digit, and it is a dot only when the number
   * already ends in one.
   */
  lemma OutlineNumberLongest(heading: string)
    ensures var r := OutlineNumber(heading);
      r.Some? ==>
        var t := Strip(heading);
        var n := |r.value|;
        n == |t| || (!IsDigit(t[n]) && (t[n] == '.' ==> r.value[n - 1] == '.'))
  {
    var t := Strip(heading);
    if NumberEnd(t) > 0 {
      assert OutlineNumber(heading) == Some(t[..NumberEnd(t)]);
      NumberPrefixLongest(t);
    }
  }

  /** The number prefix `t[..NumberEnd(t)]` is followed by no digit, and by a dot only after a dot. */
  lemma NumberPrefixLongest(t: string)
    requires NumberEnd(t) > 0
    ensures var r := t[..NumberEnd(t)];
      |r| == |t| || (!IsDigit(t[|r|]) && (t[|r|] == '.' ==> r[|r| - 1] == '.'))
  {
    NumberEndMaximal(t);
  }

  /** A section heading's number is taken with its trailing dot. */
  lemma OutlineNumberExample(h: string)
    requires h == "1. 개요"
    ensures OutlineNumber(h) == Some("1.")
  {
    assert h[0] == '1' && h[1] == '.' && h[2] == ' ';
    assert !IsSpace(h[|h| - 1]);
    OutlineNumberOf(h, 2);
    assert h[..2] == "1.";
  }

  /** A nested section number is taken whole, with its trailing dot. */
  lemma OutlineNumberNestedExample(h: string)
    requires h == "3.2. 역사"
    ensures OutlineNumber(h) == Some("3.2.")
  {
    assert h[0] == '3' && h[1] == '.' && h[2] == '2' && h[3] == '.' && h[4] == ' ';
    assert !IsSpace(h[|h| - 1]);
    assert forall k | 0 <= k < 4 :: IsDigit(h[k]) || h[k] == '.';
    assert forall k | 0 < k < 4 && h[k] == '.' :: h[k - 1] != '.';
    OutlineNumberOf(h, 4);
    assert h[..4] == "3.2.";
  }

  /**
   * A heading that starts with a digit, does not end in whitespace, and whose
   * first `n` characters are digits and dots with no two dots in a row,
   * followed by a space, has those `n` characters as its number.
   */
  lemma OutlineNumberOf(h: string, n: nat)
    requires 0 < n < |h| && IsDigit(h[0]) && !IsSpace(h[|h| - 1]) && h[n] == ' '
    requires forall k | 0 <= k < n :: IsDigit(h[k]) || h[k] == '.'
    requires forall k | 0 < k < n && h[k] == '.' :: h[k - 1] != '.'
    ensures OutlineNumber(h) == Some(h[..n])
  {
    assert Strip(h) == h by {
      DigitNotSpace(h[0]);
      StripByStripped(h, IsSpace);
    }
    NumberEndOf(h, n);
  }

  lemma DigitNotSpace(c: char)
    requires IsDigit(c)
    ensures !IsSpace(c)
  {
  }

  /** The number ends where the digits and single dots stop, when a non-digit other than a dot follows. */
  lemma NumberEndOf(s: string, n: nat)
    requires 0 < n < |s| && IsDigit(s[0]) && !IsDigit(s[n]) && s[n] != '.'
    requires forall k | 0 <= k < n :: IsDigit(s[k]) || s[k] == '.'
    requires forall k | 0 < k < n && s[k] == '.' :: s[k - 1] != '.'
    ensures NumberEnd(s) == n
  {
    NumberEndMaximal(s);
  }

  // ---------------------------------------------------------------------------
  // clean_heading
  // ---------------------------------------------------------------------------

  /**
   * `clean_heading(heading)`: bracketed segments removed, then a leading
   * outline number with the whitespace after it, then the result stripped.
   * The number is removed only when the heading starts with a digit itself.
   */
  function CleanHeading(heading: string): string {
    if heading == "" then ""
    else
      var c := RemoveBrackets(heading);
      Strip(c[NumberCut(c)..])
  }

  /** The end of the match of `^\d+(\.\d+)*\.?\s*` in `c`: 0 when `c` does not start with a digit. */
  function NumberCut(c: string): (w: nat)
    ensures w <= |c|
    ensures w == 0 <==> |c| == 0 || !IsDigit(c[0])
  {
    var k := NumberEnd(c);
    if k == 0 then 0 else k + SpanLen(c[k..], IsSpace)
  }

  /** `CloseIn` finds no `]` in a prefix of a text where it found none. */
  lemma {:induction false} CloseInNonePrefix(t: string, m: nat)
    requires m <= |t|
    requires CloseIn(t).None?
    ensures CloseIn(t[..m]).None?
  {
    if m > 0 && t[0] != '\n' {
      CloseInNonePrefix(t[1..], m - 1);
      assert t[..m][1..] == t[1..][..m - 1];
    }
  }

  /** A piece of a text without bracketed segments has none either. */
  lemma NoBracketSegmentInfix(r: string, s: string, k: nat)
    requires NoBracketSegment(s) && InfixAt(r, s, k)
    ensures NoBracketSegment(r)
  {
    forall i | 0 <= i < |r| && r[i] == '['
      ensures CloseIn(r[i + 1..]).None?
    {
      assert s[k + i] == r[i];
      assert r[i + 1..] == s[k + i + 1..][..|r| - i - 1];
      CloseInNonePrefix(s[k + i + 1..], |r| - i - 1);
    }
  }

  /** The stripped tail of a text without bracketed segments is stripped and has none either. */
  lemma StripTailNoSegment(c: string, w: nat)
    requires w <= |c| && NoBracketSegment(c)
    ensures StrippedBy(Strip(c[w..]), IsSpace) && |Strip(c[w..])| <= |c| - w
    ensures NoBracketSegment(Strip(c[w..]))
  {
    var t := c[w..];
    NoBracketSegmentSuffix(c, w);
    StripByInfix(t, IsSpace);
    NoBracketSegmentInfix(Strip(t), t, StripStart(t, IsSpace));
  }

  /** A suffix of a text without bracketed segments has none either. */
  lemma NoBracketSegmentSuffix(c: string, w: nat)
    requires w <= |c| && NoBracketSegment(c)
    ensures NoBracketSegment(c[w..])
  {
    forall i | 0 <= i < |c| - w && c[w..][i] == '['
      ensures CloseIn(c[w..][i + 1..]).None?
    {
      assert c[w..][i] == c[w + i];
      assert c[w..][i + 1..] == c[w + i + 1..];
    }
  }

  /** The cleaned heading is empty for an empty heading, stripped, no longer than the heading and holds no bracketed segment. */
  lemma CleanHeadingShape(heading: string)
    ensures heading == "" ==> CleanHeading(heading) == ""
    ensures StrippedBy(CleanHeading(heading), IsSpace)
    ensures |CleanHeading(heading)| <= |heading|
    ensures NoBracketSegment(CleanHeading(heading))
  {
    if heading != "" {
      var c := RemoveBrackets(heading);
      RemoveBracketsNoSegment(heading);
      StripTailNoSegment(c, NumberCut(c));
    }
  }

  /** A heading with no `[` that does not start with a digit is only stripped. */
  lemma CleanHeadingPlain(heading: string)
    requires forall i | 0 <= i < |heading| :: heading[i] != '['
    requires heading == "" || !IsDigit(heading[0])
    ensures CleanHeading(heading) == Strip(heading)
  {
    if heading != "" {
      RemoveBracketsIdentity(heading);
      assert heading[0..] == heading;
    }
  }

  lemma NumberEndExample()
    ensures NumberEnd("3.2. 역사") == 4
  {
    var h := "3.2. 역사";
    assert DigitsEnd(h, 0) == 1;
    assert DigitsEnd(h, 2) == 3;
    assert DotGroupsEnd(h, 3) == 3;
    assert DotGroupsEnd(h, 1) == 3;
  }

  /** A text starting with one space and then something else spans one whitespace character. */
  lemma OneSpaceSpan(t: string)
    requires |t| >= 2 && t[0] == ' ' && !IsSpace(t[1])
    ensures SpanLen(t, IsSpace) == 1
  {
    SpanLenExact(t, IsSpace, 1);
  }

  lemma NumberCutExample(h: string)
    requires h == "3.2. 역사"
    ensures NumberCut(h) == 5
  {
    NumberEndExample();
    var t := h[4..];
    assert t[0] == ' ' && t[1] == '역';
    OneSpaceSpan(t);
  }

  /** Without brackets, the cleaned heading is what follows the cut, stripped. */
  lemma CleanHeadingCut(h: string, w: nat)
    requires h != "" && forall i | 0 <= i < |h| :: h[i] != '['
    requires NumberCut(h) == w
    ensures CleanHeading(h) == Strip(h[w..])
  {
    RemoveBracketsIdentity(h);
  }

  /** "3.2. 역사" cleans to "역사": the number and the space after it go. */
  lemma CleanHeadingNumbered(h: string)
    requires h == "3.2. 역사"
    ensures CleanHeading(h) == "역사"
  {
    assert CleanHeading(h) == Strip(h[5..]) by {
      assert h[0] == '3' && h[1] == '.' && h[2] == '2' && h[3] == '.' && h[4] == ' ' && h[5] == '역' && h[6] == '사';
      assert forall i | 0 <= i < |h| :: h[i] != '[';
      NumberCutExample(h);
      CleanHeadingCut(h, 5);
    }
    assert h[5..] == "역사";
    HangulEndsStripped(h[5..]);
  }

  /** A text that starts and ends with a Hangul syllable is left as it is by stripping. */
  lemma HangulEndsStripped(r: string)
    requires |r| > 0 && '\U{AC00}' <= r[0] <= '\U{D7A3}' && '\U{AC00}' <= r[|r| - 1] <= '\U{D7A3}'
    ensures Strip(r) == r
  {
    HangulNotSpace(r[0]);
    HangulNotSpace(r[|r| - 1]);
    StripByStripped(r, IsSpace);
  }

  /** Hangul syllables are not whitespace. */
  lemma HangulNotSpace(c: char)
    requires '\U{AC00}' <= c <= '\U{D7A3}'
    ensures !IsSpace(c)
  {
  }
}
