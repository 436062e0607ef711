/**
 * The section loop of the namuwiki preprocessor: every section of a crawled
 * document is dropped with its numbered subsections when its heading names
 * an incident, a play mode of another game or (outside the general file) one
 * of the excluded topics; the others get their heading and text cleaned and
 * are kept when some text remains.
 */
module NamuwikiSections {
  import opened Wrappers
  import opened Strings
  import opened Seqs
  import opened NamuwikiText

  /** The section topics dropped from champion and topic files. */
  const ExcludedHeadings: set<string> := {
    "개요", "배경", "챔피언 관계", "대사", "영원석",
    "시리즈 1", "시리즈 2", "역사", "이전 시즌(2012 ~ 2024)",
    "전략적 팀 전투", "레전드 오브 룬테라", "우르프 모드",
    "와일드 리프트", "스킨", "기타", "구 설정"
  }

  /** The file-name prefix of the general game article, which keeps the excluded topics. */
  const GeneralFilePrefix: string := "리그-오브-레전드"

  predicate IsGeneralFile(fileName: string) {
    StartsWith(fileName, GeneralFilePrefix)
  }

  /**
   * A section as read from the document. A missing `heading` reads as the
   * empty heading, and a missing or null `text` cleans to the empty text.
   */
  datatype RawSection = RawSection(heading: Option<string>, text: Option<string>)

  /** A section as written out. */
  datatype Section = Section(heading: string, text: string)

  function HeadingOf(r: RawSection): string {
    if r.heading.Some? then r.heading.value else ""
  }

  function TextOf(r: RawSection): string {
    if r.text.Some? then r.text.value else ""
  }

  // ---------------------------------------------------------------------------
  // The heading rules
  // ---------------------------------------------------------------------------

  /** Headings about incidents mention both "사건" and "사고". */
  predicate IsIncidentHeading(h: string) {
    Contains(h, "사건") && Contains(h, "사고")
  }

  predicate IsOtherModeHeading(h: string) {
    Contains(h, "다른 모드/게임에서의 플레이")
  }

  /**
   * The rules that drop a section with its subsections, tested on the raw
   * heading `h` and its cleaned form `ch`; the excluded topics are not
   * dropped from the general file.
   */
  predicate RuledOut(h: string, ch: string, isGeneral: bool) {
    IsIncidentHeading(h) || IsOtherModeHeading(h) || (!isGeneral && ch in ExcludedHeadings)
  }

  /** The outline number starts with a blocked number. */
  predicate ChildOf(number: string, blocked: set<string>) {
    exists p | p in blocked :: StartsWith(number, p)
  }

  /** The search over `blocked_prefixes` for a prefix of the current number. */
  method IsChildOfBlocked(number: string, blocked: set<string>) returns (child: bool)
    ensures child <==> ChildOf(number, blocked)
  {
    var rest := blocked;
    while rest != {}
      invariant rest <= blocked
      invariant forall p | p in blocked - rest :: !StartsWith(number, p)
      decreases |rest|
    {
      var p :| p in rest;
      if StartsWith(number, p) {
        return true;
      }
      rest := rest - {p};
    }
    return false;
  }

  // ---------------------------------------------------------------------------
  // Heading repeats around the text: `^(h\s*)+` and `(h\s*)+$`
  // ---------------------------------------------------------------------------

  /**
   * The end of the greedy run `(h\s*)+` of copies of `h` starting at `i`, or
   * `i` when `h` does not occur there. When `h` does not start with
   * whitespace the greedy run is the only way the pattern can match.
   */
  function RepeatsEnd(t: string, h: string, i: nat): (e: nat)
    requires |h| > 0 && i <= |t|
    ensures i <= e <= |t|
    ensures !StartsWith(t[e..], h)
    ensures e == i || e == |t| || !IsSpace(t[e])
    decreases |t| - i
  {
    if StartsWith(t[i..], h) then
      var j := i + |h|;
      RepeatsEnd(t, h, j + SpanLen(t[j..], IsSpace))
    else i
  }

  /** `re.sub(r'^(' + re.escape(h) + r'\s*)+', '', t).strip()`. */
  function StripLeadingRepeats(t: string, h: string): string
    requires |h| > 0
  {
    Strip(t[RepeatsEnd(t, h, 0)..])
  }

  /**
   * `(h\s*)+$` matches at `q`: the greedy run of copies starting there reaches
   * the end of the text. Matching just before a final line break gives
   * nothing new, since `\s*` swallows that line break.
   */
  predicate RepeatsToEnd(t: string, h: string, q: nat)
    requires |h| > 0 && q <= |t|
  {
    StartsWith(t[q..], h) && RepeatsEnd(t, h, q) == |t|
  }

  /** The leftmost position at or after `q` where `(h\s*)+$` matches. */
  function FindRepeatsFrom(t: string, h: string, q: nat): (r: Option<nat>)
    requires |h| > 0 && q <= |t|
    ensures r.Some? ==> q <= r.value < |t| && RepeatsToEnd(t, h, r.value)
    ensures forall k | q <= k <= |t| && (r.None? || k < r.value) :: !RepeatsToEnd(t, h, k)
    decreases |t| - q
  {
    if RepeatsToEnd(t, h, q) then Some(q)
    else if q == |t| then None
    else FindRepeatsFrom(t, h, q + 1)
  }

  /** `re.sub(r'(' + re.escape(h) + r'\s*)+$', '', t).strip()`. */
  function StripTrailingRepeats(t: string, h: string): string
    requires |h| > 0
  {
    match FindRepeatsFrom(t, h, 0)
    case None => Strip(t)
    case Some(p) => Strip(t[..p])
  }

  /** The characters of `lstrip('.,- ')`. */
  predicate IsLeadPunct(c: char) {
    c == '.' || c == ',' || c == '-' || c == ' '
  }

  /**
   * The heading-aware finish of a cleaned text: copies of the heading at the
   * start go, a text that is a shorter start of the heading goes entirely,
   * copies of the heading at the end go, and leading punctuation goes. An
   * empty heading leaves the text as it is.
   */
  function FinishText(ch: string, t: string): string {
    if ch == "" then t
    else
      var t1 := StripLeadingRepeats(t, ch);
      var t2 := if t1 != "" && |t1| < |ch| && StartsWith(ch, t1) then "" else t1;
      Strip(LStripBy(StripTrailingRepeats(t2, ch), IsLeadPunct))
  }

  /** A stripped text keeps no copy of the heading at its start. */
  lemma LeadingRepeatsGone(t: string, h: string)
    requires |h| > 0 && !IsSpace(h[0])
    requires t == "" || !IsSpace(t[0])
    ensures StrippedBy(StripLeadingRepeats(t, h), IsSpace)
    ensures !StartsWith(StripLeadingRepeats(t, h), h)
  {
    var e := RepeatsEnd(t, h, 0);
    var u := t[e..];
    StripByInfix(u, IsSpace);
    StripByPrefix(u, IsSpace);
    var r := StripLeadingRepeats(t, h);
    if StartsWith(r, h) {
      StartsWithExtend(r, u, h);
    }
  }

  /** A copy of `h` ending at `b` and the whitespace run from `b` to `e`: the greedy run goes on from `e`. */
  lemma CopyThenSpaces(t: string, h: string, b: nat, e: nat)
    requires |h| > 0 && |h| <= b <= e <= |t|
    requires t[b - |h|..b] == h
    requires forall k | b <= k < e :: IsSpace(t[k])
    requires e == |t| || !IsSpace(t[e])
    ensures StartsWith(t[b - |h|..], h)
    ensures RepeatsEnd(t, h, b - |h|) == RepeatsEnd(t, h, e)
  {
    var q := b - |h|;
    assert StartsWith(t[q..], h) by {
      assert t[q..][..|h|] == h;
    }
    SpanLenFrom(t, IsSpace, q + |h|, e);
    RepeatsEndStep(t, h, q, e);
  }

  /** One repetition of `(h\s*)` matched at `i`, reaching `e`. */
  lemma RepeatsEndStep(t: string, h: string, i: nat, e: nat)
    requires |h| > 0 && i + |h| <= |t| && StartsWith(t[i..], h)
    requires e == i + |h| + SpanLen(t[i + |h|..], IsSpace)
    ensures RepeatsEnd(t, h, i) == RepeatsEnd(t, h, e)
  {
    RepeatsEndUnfold(t, h, i);
  }

  lemma RepeatsEndUnfold(t: string, h: string, i: nat)
    requires |h| > 0 && i + |h| <= |t| && StartsWith(t[i..], h)
    ensures RepeatsEnd(t, h, i) == RepeatsEnd(t, h, i + |h| + SpanLen(t[i + |h|..], IsSpace))
  {
  }

  /** A text that ends, after stripping, with a copy of `h` has a match of `(h\s*)+$` at that copy. */
  lemma EndCopyMatches(t: string, h: string, b: nat)
    requires |h| > 0 && |h| <= b <= |t|
    requires t[b - |h|..b] == h
    requires forall k | b <= k < |t| :: IsSpace(t[k])
    ensures RepeatsToEnd(t, h, b - |h|)
  {
    CopyThenSpaces(t, h, b, |t|);
  }

  /** A copy of `h` followed by whitespace up to a match of `(h\s*)+$` is itself a match. */
  lemma MatchExtendsBack(t: string, h: string, b: nat, p: nat)
    requires |h| > 0 && !IsSpace(h[0]) && |h| <= b <= p < |t|
    requires t[b - |h|..b] == h
    requires forall k | b <= k < p :: IsSpace(t[k])
    requires RepeatsToEnd(t, h, p)
    ensures RepeatsToEnd(t, h, b - |h|)
  {
    assert t[p] == t[p..][0] == h[0];
    CopyThenSpaces(t, h, b, p);
  }

  /** A stripped piece `t[..p]` ending in a copy of `h` yields that copy's position, followed by whitespace up to `p`. */
  lemma CopyBeforeCut(t: string, h: string, p: nat) returns (b: nat)
    requires p <= |t| && EndsWith(Strip(t[..p]), h)
    ensures |h| <= b <= p && t[b - |h|..b] == h
    ensures forall k | b <= k < p :: IsSpace(t[k])
  {
    var u := t[..p];
    b := StripByEnd(u, IsSpace);
    SuffixOfPiece(t, p, Strip(u), h, b);
  }

  /** A suffix of a piece that sits in the first `p` characters of `t` sits in `t` itself. */
  lemma SuffixOfPiece(t: string, p: nat, r: string, h: string, b: nat)
    requires p <= |t| && |r| <= b <= p && t[..p][b - |r|..b] == r && EndsWith(r, h)
    ensures |h| <= b && t[b - |h|..b] == h
  {
    forall i | 0 <= i < |h|
      ensures t[b - |h|..b][i] == h[i]
    {
      assert h[i] == r[|r| - |h| + i];
      assert r[|r| - |h| + i] == t[..p][b - |h| + i];
    }
  }

  /** The text ends in no copy of the heading once the trailing copies are cut. */
  lemma TrailingRepeatsGone(t: string, h: string)
    requires |h| > 0 && !IsSpace(h[0])
    ensures StrippedBy(StripTrailingRepeats(t, h), IsSpace)
    ensures !EndsWith(StripTrailingRepeats(t, h), h)
  {
    match FindRepeatsFrom(t, h, 0)
    case None =>
      assert t[..|t|] == t;
      StripByInfix(t, IsSpace);
      if EndsWith(Strip(t), h) {
        var b := CopyBeforeCut(t, h, |t|);
        EndCopyMatches(t, h, b);
        assert false;
      }
    case Some(p) =>
      StripByInfix(t[..p], IsSpace);
      if EndsWith(Strip(t[..p]), h) {
        var b := CopyBeforeCut(t, h, p);
        MatchExtendsBack(t, h, b, p);
        assert false;
      }
  }

  /** Stripping the leading punctuation of a stripped text keeps it stripped and adds no ending. */
  lemma LeadPunctStripped(t3: string, ch: string)
    requires StrippedBy(t3, IsSpace) && !EndsWith(t3, ch)
    ensures StrippedBy(Strip(LStripBy(t3, IsLeadPunct)), IsSpace)
    ensures !EndsWith(Strip(LStripBy(t3, IsLeadPunct)), ch)
  {
    var l := LStripBy(t3, IsLeadPunct);
    if l != [] {
      assert l[|l| - 1] == t3[|t3| - 1];
    }
    StripBySuffix(l, IsSpace);
    var r := Strip(l);
    StripByInfix(l, IsSpace);
    if EndsWith(r, ch) {
      EndsWithExtend(r, l, ch);
      EndsWithExtend(l, t3, ch);
    }
  }

  /**
   * With a non-empty heading the finished text is stripped and does not end
   * with the heading; an empty heading leaves the text as it is.
   */
  lemma FinishTextSpec(ch: string, t: string)
    ensures ch == "" ==> FinishText(ch, t) == t
    ensures ch != "" && !IsSpace(ch[0]) ==>
      StrippedBy(FinishText(ch, t), IsSpace) && !EndsWith(FinishText(ch, t), ch)
  {
    if ch != "" && !IsSpace(ch[0]) {
      var t1 := StripLeadingRepeats(t, ch);
      var t2 := if t1 != "" && |t1| < |ch| && StartsWith(ch, t1) then "" else t1;
      TrailingRepeatsGone(t2, ch);
      LeadPunctStripped(StripTrailingRepeats(t2, ch), ch);
    }
  }

  /** A text that is, after the leading copies go, a shorter start of the heading is dropped. */
  lemma FinishTextRedundant(ch: string, t: string)
    requires ch != ""
    requires var t1 := StripLeadingRepeats(t, ch); t1 != "" && |t1| < |ch| && StartsWith(ch, t1)
    ensures FinishText(ch, t) == ""
  {
    assert FindRepeatsFrom("", ch, 0).None?;
  }

  /** The heading "내셔 남작 (Baron)" over the text "내셔 남작" leaves nothing. */
  lemma FinishTextBaron()
    ensures FinishText("내셔 남작 (Baron)", "내셔 남작") == ""
  {
    var ch := "내셔 남작 (Baron)";
    var t := "내셔 남작";
    assert RepeatsEnd(t, ch, 0) == 0;
    assert t[0..] == t;
    HangulEndsStripped(t);
    assert StartsWith(ch, t) by {
      assert ch[..|t|] == t;
    }
    FinishTextRedundant(ch, t);
  }

  // ---------------------------------------------------------------------------
  // The section loop of process_json_file
  // ---------------------------------------------------------------------------

  /** The cleaned form of a section, kept when its text is not empty. */
  function Cleanup(r: RawSection): Section {
    var ch := CleanHeading(HeadingOf(r));
    Section(ch, FinishText(ch, Cleaned(TextOf(r))))
  }

  /** What the loop looks at in one section: its outline number, whether a heading rule drops it, and its cleaned form. */
  datatype Facts = Facts(number: Option<string>, ruledOut: bool, cleaned: Section)

  function FactsOf(r: RawSection, isGeneral: bool): Facts {
    var h := HeadingOf(r);
    Facts(OutlineNumber(h), RuledOut(h, CleanHeading(h), isGeneral), Cleanup(r))
  }

  function SectionFacts(ss: seq<RawSection>, isGeneral: bool): (fs: seq<Facts>)
    ensures |fs| == |ss|
  {
    if |ss| == 0 then [] else SectionFacts(ss[..|ss| - 1], isGeneral) + [FactsOf(ss[|ss| - 1], isGeneral)]
  }

  lemma {:induction false} FactsAt(ss: seq<RawSection>, isGeneral: bool, i: nat)
    requires i < |ss|
    ensures SectionFacts(ss, isGeneral)[i] == FactsOf(ss[i], isGeneral)
  {
    if i < |ss| - 1 {
      FactsAt(ss[..|ss| - 1], isGeneral, i);
    }
  }

  /** What the loop carries from one section to the next: the blocked numbers and the kept sections. */
  datatype State = State(blocked: set<string>, kept: seq<Section>)

  /**
   * One section: a subsection of a blocked number is skipped; a section a
   * heading rule drops blocks its own number; any other is kept when its
   * cleaned text is not empty.
   */
  function Step(st: State, f: Facts): State {
    if f.number.Some? && ChildOf(f.number.value, st.blocked) then st
    else if f.ruledOut then State(if f.number.Some? then st.blocked + {f.number.value} else st.blocked, st.kept)
    else if f.cleaned.text == "" then st
    else State(st.blocked, st.kept + [f.cleaned])
  }

  /** The state after sections with the given facts, in order. */
  function RunFacts(fs: seq<Facts>): State {
    if |fs| == 0 then State({}, []) else Step(RunFacts(fs[..|fs| - 1]), fs[|fs| - 1])
  }

  /** The state after the given sections, in order. */
  function Run(ss: seq<RawSection>, isGeneral: bool): State {
    if |ss| == 0 then State({}, []) else Step(Run(ss[..|ss| - 1], isGeneral), FactsOf(ss[|ss| - 1], isGeneral))
  }

  /** The body of the loop over `data["sections"]`, on one section. */
  method ProcessSection(section: RawSection, isGeneral: bool, blocked: set<string>, kept: seq<Section>)
    returns (blocked': set<string>, kept': seq<Section>)
    ensures State(blocked', kept') == Step(State(blocked, kept), FactsOf(section, isGeneral))
  {
    blocked', kept' := blocked, kept;
    var heading := HeadingOf(section);
    var text := TextOf(section);
    var number := OutlineNumber(heading);
    if number.Some? {
      var child := IsChildOfBlocked(number.value, blocked);
      if child {
        return;
      }
    }
    if IsIncidentHeading(heading) || IsOtherModeHeading(heading) {
      if number.Some? {
        blocked' := blocked + {number.value};
      }
      return;
    }
    var cleanedHeading := CleanHeading(heading);
    if !isGeneral && cleanedHeading in ExcludedHeadings {
      if number.Some? {
        blocked' := blocked + {number.value};
      }
      return;
    }
    var cleanedText := CleanTextContent(text);
    cleanedText := FinishText(cleanedHeading, cleanedText);
    if cleanedText != "" {
      kept' := kept + [Section(cleanedHeading, cleanedText)];
    }
  }

  /** The loop over `data["sections"]`. */
  method ProcessSections(sections: seq<RawSection>, isGeneral: bool) returns (kept: seq<Section>)
    ensures kept == Run(sections, isGeneral).kept
  {
    var blocked: set<string> := {};
    kept := [];
    for i := 0 to |sections|
      invariant State(blocked, kept) == Run(sections[..i], isGeneral)
    {
      assert sections[..i + 1][..i] == sections[..i];
      blocked, kept := ProcessSection(sections[i], isGeneral, blocked, kept);
    }
    assert sections[..|sections|] == sections;
  }

  /** A document: its optional `sections` list and every other key with its value. */
  datatype Document<V> = Document(sections: Option<seq<RawSection>>, others: map<string, V>)

  /** The document written out: the processed sections and the other keys as they were. */
  datatype Output<V> = Output(sections: seq<Section>, others: map<string, V>)

  /**
   * `process_json_file` on a parsed document: every other key is copied and
   * `sections` is always written, empty when the input had none.
   */
  method ProcessJsonFile<V>(fileName: string, doc: Document<V>) returns (out: Output<V>)
    ensures out.others == doc.others
    ensures doc.sections.None? ==> out.sections == []
    ensures doc.sections.Some? ==> out.sections == Run(doc.sections.value, IsGeneralFile(fileName)).kept
  {
    var isGeneral := IsGeneralFile(fileName);
    var processed: seq<Section> := [];
    if doc.sections.Some? {
      processed := ProcessSections(doc.sections.value, isGeneral);
    }
    out := Output(processed, doc.others);
  }

  // ---------------------------------------------------------------------------
  // Properties of the loop, first over the facts of each section
  // ---------------------------------------------------------------------------

  lemma StartsWithTrans(a: string, b: string, c: string)
    requires StartsWith(a, b) && StartsWith(b, c)
    ensures StartsWith(a, c)
  {
    assert a[..|c|] == a[..|b|][..|c|];
  }

  lemma RunFactsPrefixStep(fs: seq<Facts>, k: nat)
    requires k < |fs|
    ensures RunFacts(fs[..k + 1]) == Step(RunFacts(fs[..k]), fs[k])
  {
    assert fs[..k + 1][..k] == fs[..k];
  }

  /** Blocked numbers are never released and kept sections never withdrawn. */
  lemma {:induction false} RunFactsMonotone(fs: seq<Facts>, i: nat)
    requires i <= |fs|
    ensures RunFacts(fs[..i]).blocked <= RunFacts(fs).blocked
    ensures RunFacts(fs[..i]).kept <= RunFacts(fs).kept
    decreases |fs|
  {
    if i < |fs| {
      var p := fs[..|fs| - 1];
      assert p[..i] == fs[..i];
      RunFactsMonotone(p, i);
    } else {
      assert fs[..i] == fs;
    }
  }

  /** Every blocked number is the number of a section a heading rule dropped. */
  lemma {:induction false} RunFactsBlocked(fs: seq<Facts>)
    ensures forall n | n in RunFacts(fs).blocked ::
      exists i | 0 <= i < |fs| :: fs[i].number == Some(n) && fs[i].ruledOut
  {
    if |fs| > 0 {
      var p := fs[..|fs| - 1];
      RunFactsBlocked(p);
      forall n | n in RunFacts(fs).blocked
        ensures exists i | 0 <= i < |fs| :: fs[i].number == Some(n) && fs[i].ruledOut
      {
        if n in RunFacts(p).blocked {
          var i :| 0 <= i < |p| && p[i].number == Some(n) && p[i].ruledOut;
          assert p[i] == fs[i];
        } else {
          assert fs[|fs| - 1].number == Some(n);
        }
      }
    }
  }

  /** The cleaned forms, in order. */
  function CleanedOf(fs: seq<Facts>): seq<Section> {
    seq(|fs|, i requires 0 <= i < |fs| => fs[i].cleaned)
  }

  lemma CleanedOfSnoc(fs: seq<Facts>)
    requires |fs| > 0
    ensures CleanedOf(fs) == CleanedOf(fs[..|fs| - 1]) + [fs[|fs| - 1].cleaned]
  {
    var p := fs[..|fs| - 1];
    forall i | 0 <= i < |fs| - 1
      ensures CleanedOf(fs)[i] == CleanedOf(p)[i]
    {
      assert fs[i] == p[i];
    }
  }

  /** The kept sections are cleaned forms of the sections, in their order. */
  lemma {:induction false} RunFactsInOrder(fs: seq<Facts>)
    ensures IsSubsequence(RunFacts(fs).kept, CleanedOf(fs))
  {
    if |fs| > 0 {
      var p := fs[..|fs| - 1];
      var f := fs[|fs| - 1];
      RunFactsInOrder(p);
      CleanedOfSnoc(fs);
      if RunFacts(fs).kept == RunFacts(p).kept {
        IsSubsequenceSkip(RunFacts(p).kept, CleanedOf(p), f.cleaned);
      } else {
        assert RunFacts(fs).kept == RunFacts(p).kept + [f.cleaned];
        IsSubsequenceKeep(RunFacts(p).kept, CleanedOf(p), f.cleaned);
      }
    }
  }

  /** Every kept section is the non-empty cleaned form of a section no heading rule drops. */
  lemma {:induction false} RunFactsKeptFrom(fs: seq<Facts>)
    ensures forall s | s in RunFacts(fs).kept ::
      s.text != "" && exists i | 0 <= i < |fs| :: !fs[i].ruledOut && fs[i].cleaned == s
  {
    if |fs| > 0 {
      var p := fs[..|fs| - 1];
      RunFactsKeptFrom(p);
      forall s | s in RunFacts(fs).kept
        ensures s.text != "" && exists i | 0 <= i < |fs| :: !fs[i].ruledOut && fs[i].cleaned == s
      {
        if s in RunFacts(p).kept {
          var i :| 0 <= i < |p| && !p[i].ruledOut && p[i].cleaned == s;
          assert p[i] == fs[i];
        } else {
          assert !fs[|fs| - 1].ruledOut && fs[|fs| - 1].cleaned == s;
        }
      }
    }
  }

  /** After a numbered section that is skipped or dropped, its number is covered by a blocked number. */
  lemma StepCoversNumber(st: State, f: Facts)
    requires f.number.Some? && f.ruledOut
    ensures ChildOf(f.number.value, Step(st, f).blocked)
  {
    var n := f.number.value;
    if !ChildOf(n, st.blocked) {
      assert n in Step(st, f).blocked;
      assert StartsWith(n, n);
    }
  }

  /** Once a numbered section is dropped by a rule, every later number starting with it is covered by a blocked number. */
  lemma {:induction false} SubsectionFactsDropped(fs: seq<Facts>, i: nat, j: nat)
    requires i < j < |fs|
    requires fs[i].ruledOut && fs[i].number.Some? && fs[j].number.Some?
    requires StartsWith(fs[j].number.value, fs[i].number.value)
    ensures RunFacts(fs[..j + 1]) == RunFacts(fs[..j])
  {
    var n := fs[i].number.value;
    var m := fs[j].number.value;
    RunFactsPrefixStep(fs, i);
    StepCoversNumber(RunFacts(fs[..i]), fs[i]);
    var pre :| pre in RunFacts(fs[..i + 1]).blocked && StartsWith(n, pre);
    assert fs[..j][..i + 1] == fs[..i + 1];
    RunFactsMonotone(fs[..j], i + 1);
    StartsWithTrans(m, n, pre);
    assert pre in RunFacts(fs[..j]).blocked;
    RunFactsPrefixStep(fs, j);
  }

  /** A section without a number, dropped by no rule, with text left, is kept. */
  lemma UnnumberedFactsKept(fs: seq<Facts>, i: nat)
    requires i < |fs|
    requires fs[i].number.None? && !fs[i].ruledOut && fs[i].cleaned.text != ""
    ensures fs[i].cleaned in RunFacts(fs).kept
  {
    RunFactsPrefixStep(fs, i);
    var k := RunFacts(fs[..i + 1]).kept;
    assert k == RunFacts(fs[..i]).kept + [fs[i].cleaned];
    RunFactsMonotone(fs, i + 1);
    assert k[|k| - 1] == RunFacts(fs).kept[|k| - 1];
  }

  /**
   * A numbered section that no rule drops and whose cleaned text is not empty
   * is kept, unless the number of an earlier dropped section is a prefix of
   * its number.
   */
  lemma NumberedFactsKept(fs: seq<Facts>, i: nat)
    requires i < |fs|
    requires fs[i].number.Some? && !fs[i].ruledOut && fs[i].cleaned.text != ""
    requires forall k | 0 <= k < i && fs[k].ruledOut && fs[k].number.Some? ::
      !StartsWith(fs[i].number.value, fs[k].number.value)
    ensures fs[i].cleaned in RunFacts(fs).kept
  {
    var m := fs[i].number.value;
    var before := fs[..i];
    RunFactsBlocked(before);
    forall n | n in RunFacts(before).blocked
      ensures !StartsWith(m, n)
    {
      var k :| 0 <= k < |before| && before[k].number == Some(n) && before[k].ruledOut;
      assert fs[k] == before[k];
    }
    RunFactsPrefixStep(fs, i);
    var kept := RunFacts(fs[..i + 1]).kept;
    assert kept == RunFacts(before).kept + [fs[i].cleaned];
    RunFactsMonotone(fs, i + 1);
    assert kept[|kept| - 1] == RunFacts(fs).kept[|kept| - 1];
  }

  // ---------------------------------------------------------------------------
  // The same properties stated on the sections
  // ---------------------------------------------------------------------------

  lemma SectionFactsSnoc(ss: seq<RawSection>, isGeneral: bool, j: nat)
    requires j < |ss|
    ensures SectionFacts(ss[..j + 1], isGeneral)[..j + 1] == SectionFacts(ss[..j + 1], isGeneral)
    ensures SectionFacts(ss[..j + 1], isGeneral)[..j] == SectionFacts(ss[..j], isGeneral)
  {
    assert ss[..j + 1][..j] == ss[..j];
  }

  /** Running the sections is running their facts. */
  lemma {:induction false} RunIsRunFacts(ss: seq<RawSection>, isGeneral: bool)
    ensures Run(ss, isGeneral) == RunFacts(SectionFacts(ss, isGeneral))
  {
    if |ss| > 0 {
      var p := ss[..|ss| - 1];
      RunIsRunFacts(p, isGeneral);
      var fs := SectionFacts(ss, isGeneral);
      assert fs[..|ss| - 1] == SectionFacts(p, isGeneral);
    }
  }

  /** A section that a heading rule drops adds nothing to the kept sections. */
  lemma RuledOutDropped(ss: seq<RawSection>, isGeneral: bool, i: nat)
    requires i < |ss|
    requires RuledOut(HeadingOf(ss[i]), CleanHeading(HeadingOf(ss[i])), isGeneral)
    ensures Run(ss[..i + 1], isGeneral).kept == Run(ss[..i], isGeneral).kept
  {
    assert ss[..i + 1][..i] == ss[..i];
  }

  /** The cleaned form of every section, in order. */
  function Cleanups(ss: seq<RawSection>): seq<Section> {
    seq(|ss|, i requires 0 <= i < |ss| => Cleanup(ss[i]))
  }

  /** The kept sections are cleaned input sections, in their input order. */
  lemma RunKeptInOrder(ss: seq<RawSection>, isGeneral: bool)
    ensures IsSubsequence(Run(ss, isGeneral).kept, Cleanups(ss))
  {
    var fs := SectionFacts(ss, isGeneral);
    RunIsRunFacts(ss, isGeneral);
    RunFactsInOrder(fs);
    forall i | 0 <= i < |ss|
      ensures CleanedOf(fs)[i] == Cleanups(ss)[i]
    {
      FactsAt(ss, isGeneral, i);
    }
    assert CleanedOf(fs) == Cleanups(ss);
  }

  /** Only the outline numbers of sections a heading rule dropped are ever blocked. */
  lemma RunBlockedNumbers(ss: seq<RawSection>, isGeneral: bool)
    ensures forall n | n in Run(ss, isGeneral).blocked ::
      exists i | 0 <= i < |ss| ::
        OutlineNumber(HeadingOf(ss[i])) == Some(n) && RuledOut(HeadingOf(ss[i]), CleanHeading(HeadingOf(ss[i])), isGeneral)
  {
    var fs := SectionFacts(ss, isGeneral);
    RunIsRunFacts(ss, isGeneral);
    RunFactsBlocked(fs);
    forall n | n in Run(ss, isGeneral).blocked
      ensures exists i | 0 <= i < |ss| ::
        OutlineNumber(HeadingOf(ss[i])) == Some(n) && RuledOut(HeadingOf(ss[i]), CleanHeading(HeadingOf(ss[i])), isGeneral)
    {
      var i :| 0 <= i < |fs| && fs[i].number == Some(n) && fs[i].ruledOut;
      FactsAt(ss, isGeneral, i);
    }
  }

  /** The cleaned form of a section that no rule drops: a stripped heading without bracketed segments, a stripped text not ending with the heading, and no excluded topic outside the general file. */
  predicate WellCleaned(s: Section, isGeneral: bool) {
    && StrippedBy(s.text, IsSpace)
    && StrippedBy(s.heading, IsSpace) && NoBracketSegment(s.heading)
    && (s.heading != "" ==> !EndsWith(s.text, s.heading))
    && (!isGeneral ==> s.heading !in ExcludedHeadings)
  }

  lemma CleanupWell(r: RawSection, isGeneral: bool)
    requires !RuledOut(HeadingOf(r), CleanHeading(HeadingOf(r)), isGeneral)
    ensures WellCleaned(Cleanup(r), isGeneral)
  {
    var ch := CleanHeading(HeadingOf(r));
    CleanHeadingShape(HeadingOf(r));
    CleanedSpec(TextOf(r));
    FinishTextSpec(ch, Cleaned(TextOf(r)));
  }

  /** Every kept section has a non-empty text and is well cleaned. */
  lemma RunKeptShape(ss: seq<RawSection>, isGeneral: bool)
    ensures forall s | s in Run(ss, isGeneral).kept :: s.text != "" && WellCleaned(s, isGeneral)
  {
    var fs := SectionFacts(ss, isGeneral);
    RunIsRunFacts(ss, isGeneral);
    RunFactsKeptFrom(fs);
    forall s | s in Run(ss, isGeneral).kept
      ensures s.text != "" && WellCleaned(s, isGeneral)
    {
      var i :| 0 <= i < |fs| && !fs[i].ruledOut && fs[i].cleaned == s;
      FactsAt(ss, isGeneral, i);
      CleanupWell(ss[i], isGeneral);
    }
  }

  /**
   * Hierarchical removal: once a heading rule drops a numbered section, every
   * later section whose number starts with that number leaves the state as
   * it was, so nothing of it is kept.
   */
  lemma SubsectionsDropped(ss: seq<RawSection>, isGeneral: bool, i: nat, j: nat)
    requires i < j < |ss|
    requires RuledOut(HeadingOf(ss[i]), CleanHeading(HeadingOf(ss[i])), isGeneral)
    requires OutlineNumber(HeadingOf(ss[i])).Some? && OutlineNumber(HeadingOf(ss[j])).Some?
    requires StartsWith(OutlineNumber(HeadingOf(ss[j])).value, OutlineNumber(HeadingOf(ss[i])).value)
    ensures Run(ss[..j + 1], isGeneral) == Run(ss[..j], isGeneral)
  {
    var q := ss[..j + 1];
    var fs := SectionFacts(q, isGeneral);
    FactsAt(q, isGeneral, i);
    FactsAt(q, isGeneral, j);
    SubsectionFactsDropped(fs, i, j);
    SectionFactsSnoc(ss, isGeneral, j);
    RunIsRunFacts(q, isGeneral);
    RunIsRunFacts(ss[..j], isGeneral);
  }

  /** A section without an outline number is never skipped as a subsection: if no rule drops it and text remains, it is kept. */
  lemma UnnumberedKept(ss: seq<RawSection>, isGeneral: bool, i: nat)
    requires i < |ss|
    requires OutlineNumber(HeadingOf(ss[i])).None?
    requires !RuledOut(HeadingOf(ss[i]), CleanHeading(HeadingOf(ss[i])), isGeneral)
    requires Cleanup(ss[i]).text != ""
    ensures Cleanup(ss[i]) in Run(ss, isGeneral).kept
  {
    var fs := SectionFacts(ss, isGeneral);
    RunIsRunFacts(ss, isGeneral);
    FactsAt(ss, isGeneral, i);
    UnnumberedFactsKept(fs, i);
  }

  /**
   * A numbered section is kept when no rule drops it, its cleaned text is not
   * empty, and no earlier section that a rule dropped has a number that is a
   * prefix of its number.
   */
  lemma NumberedKept(ss: seq<RawSection>, isGeneral: bool, i: nat, m: string)
    requires i < |ss|
    requires OutlineNumber(HeadingOf(ss[i])) == Some(m)
    requires !RuledOut(HeadingOf(ss[i]), CleanHeading(HeadingOf(ss[i])), isGeneral)
    requires Cleanup(ss[i]).text != ""
    requires forall k | 0 <= k < i && RuledOut(HeadingOf(ss[k]), CleanHeading(HeadingOf(ss[k])), isGeneral)
                                   && OutlineNumber(HeadingOf(ss[k])).Some? ::
      !StartsWith(m, OutlineNumber(HeadingOf(ss[k])).value)
    ensures Cleanup(ss[i]) in Run(ss, isGeneral).kept
  {
    var fs := SectionFacts(ss, isGeneral);
    RunIsRunFacts(ss, isGeneral);
    FactsAt(ss, isGeneral, i);
    forall k | 0 <= k < i && fs[k].ruledOut && fs[k].number.Some?
      ensures !StartsWith(fs[i].number.value, fs[k].number.value)
    {
      FactsAt(ss, isGeneral, k);
    }
    NumberedFactsKept(fs, i);
  }
}
