/**
 * The string helpers of the Namuwiki crawler: output file names, wiki link
 * decoding, group labels, description clipping, the paragraph predicates the
 * article parser filters with, and the `/w/` link harvester.
 */
module NamuwikiHelpers {
  import opened Wrappers
  import opened Strings

  /** The path prefix of every article link. */
  const WikiPrefix: string := "/w/"

  /** The collapse/expand widget text that leaks into group-label cells. */
  const FoldMarker: string := "[펼치기 · 접기]"

  const Ellipsis: string := "…"

  // ---------------------------------------------------------------------------
  // sanitize_filename
  // ---------------------------------------------------------------------------

  /** The characters `[\\/:*?"<>|]` that file systems reserve. */
  predicate IsReserved(c: char) {
    c == '\\' || c == '/' || c == ':' || c == '*' || c == '?' || c == '"' || c == '<' || c == '>' || c == '|'
  }

  predicate IsDash(c: char) {
    c == '-'
  }

  /**
   * Runs of reserved characters become "-", runs of whitespace become "-",
   * runs of "-" shrink to one (a run of one is replaced by itself, so this is
   * `-{2,}` -> "-"), dashes are stripped from both ends, and "item" stands in
   * for an empty result.
   */
  function SanitizeFilename(name: string): string {
    var a := SubRuns(name, IsReserved, "-");
    var b := SubRuns(a, IsSpace, "-");
    var c := StripBy(SubRuns(b, IsDash, "-"), IsDash);
    if c == [] then "item" else c
  }

  /** A file name produced by `SanitizeFilename` is safe on every platform the crawler targets. */
  predicate SafeFileName(r: string) {
    && r != []
    && (forall i | 0 <= i < |r| :: !IsReserved(r[i]) && !IsSpace(r[i]))
    && (forall i | 0 <= i < |r| - 1 :: !(r[i] == '-' && r[i + 1] == '-'))
    && r[0] != '-' && r[|r| - 1] != '-'
  }

  lemma SanitizeFilenameSafe(name: string)
    ensures SafeFileName(SanitizeFilename(name))
  {
    var a := SubRuns(name, IsReserved, "-");
    var b := SubRuns(a, IsSpace, "-");
    SubRunsExcludes(name, IsReserved, "-", false, IsReserved);
    SubRunsExcludes(a, IsSpace, "-", false, IsReserved);
    SubRunsExcludes(a, IsSpace, "-", false, IsSpace);
    var c := DashStageSafe(b);
    assert SanitizeFilename(name) == if c == [] then "item" else c;
    if c != [] {
      SafeFromParts(c);
    } else {
      FallbackSafe();
    }
  }

  /** The fallback name is itself safe. */
  lemma FallbackSafe()
    ensures SafeFileName("item")
  {
  }

  /** The dash stage keeps a string free of reserved and space characters and leaves single, inner dashes. */
  lemma DashStageSafe(b: string) returns (c: string)
    requires NoneSatisfy(b, IsReserved) && NoneSatisfy(b, IsSpace)
    ensures c == StripBy(SubRuns(b, IsDash, "-"), IsDash)
    ensures NoneSatisfy(c, IsReserved) && NoneSatisfy(c, IsSpace)
    ensures SingleRuns(c, IsDash, '-') && StrippedBy(c, IsDash)
  {
    var d := SubRuns(b, IsDash, "-");
    SubRunsExcludes(b, IsDash, "-", false, IsReserved);
    SubRunsExcludes(b, IsDash, "-", false, IsSpace);
    SubRunsSingle(b, IsDash, '-', false);
    c := StripDashesSafe(d);
  }

  lemma StripDashesSafe(d: string) returns (c: string)
    requires NoneSatisfy(d, IsReserved) && NoneSatisfy(d, IsSpace) && SingleRuns(d, IsDash, '-')
    ensures c == StripBy(d, IsDash)
    ensures NoneSatisfy(c, IsReserved) && NoneSatisfy(c, IsSpace)
    ensures SingleRuns(c, IsDash, '-') && StrippedBy(c, IsDash)
  {
    c := StripBy(d, IsDash);
    StripByKeeps(d, IsDash, '-', IsReserved, IsSpace);
  }

  lemma SafeFromParts(c: string)
    requires c != []
    requires NoneSatisfy(c, IsReserved) && NoneSatisfy(c, IsSpace)
    requires SingleRuns(c, IsDash, '-') && StrippedBy(c, IsDash)
    ensures SafeFileName(c)
  {
  }

  // ---------------------------------------------------------------------------
  // decode_title_from_href
  // ---------------------------------------------------------------------------

  /** `s.split(c, 1)[0]`: everything before the first `c`. */
  function Before(s: string, c: char): (r: string)
    ensures |r| <= |s| && r == s[..|r|]
    ensures c !in r
    ensures |r| == |s| || s[|r|] == c
  {
    if |s| == 0 || s[0] == c then [] else [s[0]] + Before(s[1..], c)
  }

  /**
   * `urllib.parse.unquote`: percent-decoding is not modelled. `Unquote` is a
   * fixed function of which nothing is known, so every property stated about
   * decoded titles holds whatever the decoding does.
   */
  const Unquote: string -> string

  /** The undecoded path of a `/w/` link: after "/w/", up to the first fragment or query marker. */
  function RawTitle(href: string): Option<string> {
    if !StartsWith(href, WikiPrefix) then None
    else
      var raw := Before(Before(href[3..], '#'), '?');
      if raw == [] then None else Some(raw)
  }

  /** The article title of a `/w/` link: its undecoded path, percent-decoded. */
  function DecodeTitleFromHref(href: string): Option<string> {
    match RawTitle(href)
    case None => None
    case Some(raw) => Some(Unquote(raw))
  }

  /**
   * A link decodes exactly when it is a `/w/` link whose path is non-empty.
   * The title is then the decoding of that path, which is non-empty, holds no
   * `#` or `?`, follows "/w/" directly and ends at the end of the link or at
   * its first `#` or `?`.
   */
  lemma DecodeTitleFromHrefSpec(href: string)
    ensures DecodeTitleFromHref(href).None? <==>
      !StartsWith(href, WikiPrefix) || |href| == 3 || href[3] == '#' || href[3] == '?'
    ensures DecodeTitleFromHref(href).Some? <==> RawTitle(href).Some?
    ensures RawTitle(href).Some? ==>
      var raw := RawTitle(href).value;
      && DecodeTitleFromHref(href) == Some(Unquote(raw))
      && raw != [] && '#' !in raw && '?' !in raw
      && StartsWith(href, WikiPrefix + raw)
      && (|href| == 3 + |raw| || href[3 + |raw|] == '#' || href[3 + |raw|] == '?')
  {
    if StartsWith(href, WikiPrefix) {
      var rest := href[3..];
      var h := Before(rest, '#');
      var raw := Before(h, '?');
      if raw != [] {
        assert href == WikiPrefix + rest;
        assert rest[..|raw|] == raw;
        assert (WikiPrefix + raw) == href[..3 + |raw|];
        if |raw| < |h| {
          assert href[3 + |raw|] == h[|raw|];
        } else if |h| < |rest| {
          assert href[3 + |raw|] == rest[|h|];
        }
      } else if |href| > 3 {
        assert href[3] == rest[0];
        if |h| > 0 {
          assert h[0] == rest[0];
        }
      }
    }
  }

  // ---------------------------------------------------------------------------
  // normalize_group_name
  // ---------------------------------------------------------------------------

  /** Whitespace collapsed and trimmed, the fold marker removed, trimmed again; `None` if nothing is left. */
  function NormalizeGroupName(text: Option<string>): Option<string> {
    if text.None? || text.value == [] then None
    else
      var t := Strip(ReplaceAll(CollapseStrip(text.value), FoldMarker, ""));
      if t == [] then None else Some(t)
  }

  /** A group label is either absent or a non-empty string with no whitespace at either end. */
  lemma NormalizeGroupNameShape(text: Option<string>)
    ensures text.None? || text == Some("") ==> NormalizeGroupName(text).None?
    ensures NormalizeGroupName(text).Some? ==>
      NormalizeGroupName(text).value != [] && StrippedBy(NormalizeGroupName(text).value, IsSpace)
    ensures text.Some? && (forall i | 0 <= i < |text.value| :: IsSpace(text.value[i])) ==>
      NormalizeGroupName(text).None?
    ensures text.Some? && CollapseStrip(text.value) == FoldMarker ==> NormalizeGroupName(text).None?
    ensures text.Some? && (forall i | 0 <= i < |text.value| :: text.value[i] != '[') ==>
      NormalizeGroupName(text) == (if CollapseStrip(text.value) == [] then None else Some(CollapseStrip(text.value)))
  {
    if NormalizeGroupName(text).Some? {
      StripByInfix(ReplaceAll(CollapseStrip(text.value), FoldMarker, ""), IsSpace);
    }
    if text.Some? {
      if forall i | 0 <= i < |text.value| :: IsSpace(text.value[i]) {
        NormalizeBlank(text.value);
      }
      if CollapseStrip(text.value) == FoldMarker {
        NormalizeMarkerOnly(text.value);
      }
      if forall i | 0 <= i < |text.value| :: text.value[i] != '[' {
        NormalizeUnfolded(text.value);
      }
    }
  }

  /** Whitespace-only text has no label. */
  lemma NormalizeBlank(s: string)
    requires forall i | 0 <= i < |s| :: IsSpace(s[i])
    ensures NormalizeGroupName(Some(s)).None?
  {
    if s != [] {
      CollapseStripBlank(s);
      assert ReplaceAll("", FoldMarker, "") == "";
    }
  }

  /** A cell holding nothing but the fold widget has no label. */
  lemma NormalizeMarkerOnly(s: string)
    requires CollapseStrip(s) == FoldMarker
    ensures NormalizeGroupName(Some(s)).None?
  {
    ReplaceWhole(FoldMarker, "");
  }

  predicate IsOpenBracket(c: char) {
    c == '['
  }

  /** Without a `[` the fold widget cannot occur, and the label is the normalised text itself. */
  lemma NormalizeUnfolded(s: string)
    requires forall i | 0 <= i < |s| :: s[i] != '['
    ensures NormalizeGroupName(Some(s)) == (if CollapseStrip(s) == [] then None else Some(CollapseStrip(s)))
  {
    var c := CollapseStrip(s);
    assert NoneSatisfy(c, IsOpenBracket) by {
      CollapseStripExcludes(s, IsOpenBracket);
    }
    assert FoldMarker[0] == '[';
    ReplaceAbsent(c, FoldMarker, "");
    CollapseStripStripped(s);
  }

  /** A label cell with padding and the fold widget gives the bare label. */
  lemma NormalizeGroupNameExample()
    ensures NormalizeGroupName(Some("  챔피언  [펼치기 · 접기]")) == Some("챔피언")
  {
    HangulWord("챔피언");
    CollapseExample();
    NormalizeFolded("  챔피언  [펼치기 · 접기]", "챔피언");
  }

  /** A cell whose normalised text is a label, a space and the fold widget gives that label. */
  lemma NormalizeFolded(s: string, name: string)
    requires name != [] && NoneSatisfy(name, IsSpace) && forall i | 0 <= i < |name| :: name[i] != '['
    requires CollapseStrip(s) == name + " " + FoldMarker
    ensures NormalizeGroupName(Some(s)) == Some(name)
  {
    assert s != [];
    var w := name + " ";
    assert ReplaceAll(w + FoldMarker, FoldMarker, "") == w by {
      FoldStartAbsent(name);
      ReplaceBeforePattern(w, FoldMarker, "");
      assert w + "" == w;
    }
    StripOneTrail(name, ' ', IsSpace);
  }

  lemma FoldStartAbsent(name: string)
    requires forall i | 0 <= i < |name| :: name[i] != '['
    ensures forall i | 0 <= i < |name + " "| :: (name + " ")[i] != FoldMarker[0]
  {
    assert FoldMarker[0] == '[';
    var w := name + " ";
    forall i | 0 <= i < |w|
      ensures w[i] != '['
    {
      if i < |name| {
        assert w[i] == name[i];
      }
    }
  }

  /** Characters of the example that are not whitespace: Hangul syllables, brackets and the middle dot. */
  predicate PlainChar(c: char) {
    ('\U{AC00}' <= c <= '\U{D7A3}') || c == '[' || c == ']' || c == '\U{B7}'
  }

  lemma PlainWord(w: string)
    requires forall i | 0 <= i < |w| :: PlainChar(w[i])
    ensures NoneSatisfy(w, IsSpace)
  {
    forall i | 0 <= i < |w|
      ensures !IsSpace(w[i])
    {
      PlainNotSpace(w[i]);
    }
  }

  /** A word of Hangul syllables holds neither whitespace nor an opening bracket. */
  lemma HangulWord(w: string)
    requires forall i | 0 <= i < |w| :: '\U{AC00}' <= w[i] <= '\U{D7A3}'
    ensures NoneSatisfy(w, IsSpace) && forall i | 0 <= i < |w| :: w[i] != '['
  {
    PlainWord(w);
  }

  lemma PlainNotSpace(c: char)
    requires PlainChar(c)
    ensures !IsSpace(c)
  {
  }

  /** Two blanks, a word, two blanks, then three words apart by single blanks: each blank run becomes one space. */
  lemma CollapseWords(w1: string, w2: string, w3: string, w4: string)
    requires w1 != [] && w2 != [] && w3 != [] && w4 != []
    requires NoneSatisfy(w1, IsSpace) && NoneSatisfy(w2, IsSpace) && NoneSatisfy(w3, IsSpace) && NoneSatisfy(w4, IsSpace)
    ensures SubRuns("  " + (w1 + ("  " + (w2 + (" " + (w3 + (" " + w4)))))), IsSpace, " ")
         == " " + (w1 + (" " + (w2 + (" " + (w3 + (" " + w4))))))
  {
    var r7 := " " + w4;
    var r6 := w3 + r7;
    var r5 := " " + r6;
    var r4 := w2 + r5;
    var r3 := "  " + r4;
    var r2 := w1 + r3;
    SubRunsWord(w4, "", IsSpace, " ", true);
    assert w4 + "" == w4;
    SubRunsGap(" ", w4, IsSpace, " ", false);
    SubRunsWord(w3, r7, IsSpace, " ", true);
    SubRunsGap(" ", r6, IsSpace, " ", false);
    SubRunsWord(w2, r5, IsSpace, " ", true);
    SubRunsGap("  ", r4, IsSpace, " ", false);
    SubRunsWord(w1, r3, IsSpace, " ", true);
    SubRunsGap("  ", r2, IsSpace, " ", false);
  }

  lemma CollapseExample()
    ensures CollapseStrip("  챔피언  [펼치기 · 접기]") == "챔피언" + " " + FoldMarker
  {
    var w1, w2, w3, w4 := "챔피언", "[펼치기", "\U{B7}", "접기]";
    PlainWord(w1);
    PlainWord(w2);
    PlainWord(w3);
    PlainWord(w4);
    assert "  챔피언  [펼치기 · 접기]" == "  " + (w1 + ("  " + (w2 + (" " + (w3 + (" " + w4))))));
    CollapseWords(w1, w2, w3, w4);
    var x := w1 + (" " + (w2 + (" " + (w3 + (" " + w4)))));
    assert x == "챔피언" + " " + FoldMarker;
    PlainNotSpace(x[0]);
    PlainNotSpace(x[|x| - 1]);
    StripOneLead(' ', x, IsSpace);
  }

  // ---------------------------------------------------------------------------
  // clip_text
  // ---------------------------------------------------------------------------

  /** A description: stripped, and cut to `n` characters with an ellipsis when longer. */
  function ClipText(s: Option<string>, n: nat): Option<string> {
    if s.None? || s.value == [] then s
    else
      var t := Strip(s.value);
      if |t| <= n then Some(t) else Some(RStrip(t[..n]) + Ellipsis)
  }

  /**
   * A short stripped text comes back unchanged; a long one comes back as its
   * first `n` characters less their trailing whitespace, followed by the
   * ellipsis. Either way the result has at most `n + 1` characters.
   */
  lemma ClipTextSpec(s: Option<string>, n: nat)
    ensures s.None? || s == Some("") ==> ClipText(s, n) == s
    ensures s.Some? && s.value != [] ==>
      var t := Strip(s.value);
      var r := ClipText(s, n);
      && r.Some?
      && |r.value| <= n + 1
      && (|t| <= n ==> r.value == t)
      && (|t| > n ==>
            var head := r.value[..|r.value| - 1];
            && EndsWith(r.value, Ellipsis)
            && |head| <= n
            && StartsWith(t, head)
            && (head == [] || !IsSpace(head[|head| - 1]))
            && (forall k | |head| <= k < n :: IsSpace(t[k])))
  {
    if s.Some? && s.value != [] {
      var t := Strip(s.value);
      if |t| > n {
        assert ClipText(s, n) == Some(RStrip(t[..n]) + Ellipsis);
        ClipLong(t, n);
      }
    }
  }

  /** A text longer than `n` is cut to its first `n` characters less trailing whitespace, then the ellipsis. */
  lemma ClipLong(t: string, n: nat)
    requires |t| > n
    ensures var r := RStrip(t[..n]) + Ellipsis;
      var head := r[..|r| - 1];
      && head == RStrip(t[..n])
      && |r| <= n + 1
      && EndsWith(r, Ellipsis)
      && |head| <= n
      && StartsWith(t, head)
      && (head == [] || !IsSpace(head[|head| - 1]))
      && (forall k | |head| <= k < n :: IsSpace(t[k]))
  {
    var head := RStrip(t[..n]);
    var r := head + Ellipsis;
    assert r[..|r| - 1] == head;
    assert head == t[..n][..|head|] == t[..|head|];
    ClipTail(t, n);
  }

  /** What the right strip of the first `n` characters drops is whitespace. */
  lemma ClipTail(t: string, n: nat)
    requires n <= |t|
    ensures forall k | |RStrip(t[..n])| <= k < n :: IsSpace(t[k])
  {
    forall k | |RStrip(t[..n])| <= k < n
      ensures IsSpace(t[k])
    {
      assert t[..n][k] == t[k];
    }
  }

  // ---------------------------------------------------------------------------
  // looks_like_noise, looks_like_license
  // ---------------------------------------------------------------------------

  /** A paragraph that cannot serve as a description: empty, a file marker, too short, or a fold widget. */
  predicate LooksLikeNoise(text: string) {
    var t := Strip(text);
    || t == []
    || StartsWith(t, "파일:") || StartsWith(t, "attachment/")
    || |t| < 20
    || (Contains(t, "펼치기") && Contains(t, "접기") && |t| < 60)
  }

  /** A paragraph that is the wiki's licence or attribution boilerplate. */
  predicate LooksLikeLicense(text: string) {
    var lower := Lower(text);
    || StartsWith(lower, "이 저작물은")
    || (Contains(lower, "cc by") && Contains(lower, "nc"))
    || (Contains(lower, "기여하신 문서") && Contains(lower, "저작권"))
    || Contains(lower, "나무위키는 백과사전")
    || Contains(lower, "나무위키는 위키위키")
    || (Contains(lower, "작성한 문서") && Contains(lower, "저작권"))
  }

  /**
   * What the noise filter guarantees about an accepted paragraph, and that
   * long paragraphs without a file marker are always accepted.
   */
  lemma LooksLikeNoiseSpec(text: string)
    ensures !LooksLikeNoise(text) ==>
      var t := Strip(text);
      |t| >= 20 && !StartsWith(t, "파일:") && !StartsWith(t, "attachment/")
    ensures var t := Strip(text);
      |t| >= 60 && !StartsWith(t, "파일:") && !StartsWith(t, "attachment/") ==> !LooksLikeNoise(text)
  {
  }

  /** Every licence paragraph starts with the copyright notice or mentions a licence keyword. */
  lemma LooksLikeLicenseNeedsKeyword(text: string)
    requires LooksLikeLicense(text)
    ensures var lower := Lower(text);
      StartsWith(lower, "이 저작물은") || Contains(lower, "cc by") || Contains(lower, "저작권")
      || Contains(lower, "나무위키는 ")
  {
    var lower := Lower(text);
    assert "나무위키는 백과사전" == "나무위키는 " + "백과사전";
    assert "나무위키는 위키위키" == "나무위키는 " + "위키위키";
    if Contains(lower, "나무위키는 백과사전") {
      ContainsPrefixOfPattern(lower, "나무위키는 ", "백과사전");
    } else if Contains(lower, "나무위키는 위키위키") {
      ContainsPrefixOfPattern(lower, "나무위키는 ", "위키위키");
    }
  }

  // ---------------------------------------------------------------------------
  // extract_titles_from_page
  // ---------------------------------------------------------------------------

  /** Titles in the reserved "special" and "file" namespaces, which are never crawled. */
  predicate IsReservedTitle(t: string) {
    StartsWith(t, "특수:") || StartsWith(t, "파일:")
  }

  predicate StartsWithAny(t: string, prefixes: seq<string>) {
    exists k | 0 <= k < |prefixes| :: StartsWith(t, prefixes[k])
  }

  /**
   * The harvester's acceptance test for one decoded title; an empty prefix
   * list means "no filter", as a falsy Python list does.
   */
  predicate KeepTitle(t: string, includes: seq<string>, excludes: seq<string>) {
    && t != []
    && !IsReservedTitle(t)
    && !(|excludes| > 0 && StartsWithAny(t, excludes))
    && !(|includes| > 0 && !StartsWithAny(t, includes))
  }

  /** A title the harvester takes from the link `href`. */
  predicate HarvestedFrom(t: string, href: string, includes: seq<string>, excludes: seq<string>) {
    DecodeTitleFromHref(href) == Some(t) && KeepTitle(t, includes, excludes)
  }

  predicate StrictlySorted(s: seq<string>) {
    forall i, j | 0 <= i < j < |s| :: LexLess(s[i], s[j])
  }

  /**
   * `sorted(titles)` for a set of strings: the elements in increasing order,
   * taken by repeatedly removing the least one.
   */
  method SortedSet(titles: set<string>) returns (r: seq<string>)
    ensures StrictlySorted(r)
    ensures forall t :: t in r <==> t in titles
  {
    r := [];
    var rest := titles;
    while rest != {}
      invariant StrictlySorted(r)
      invariant forall t :: t in titles <==> t in r || t in rest
      invariant forall t | t in r :: t !in rest
      invariant forall i, t | 0 <= i < |r| && t in rest :: LexLess(r[i], t)
      decreases |rest|
    {
      LeastExists(rest);
      var m :| m in rest && forall y :: y in rest && y != m ==> LexLess(m, y);
      forall i | 0 <= i < |r|
        ensures LexLess(r[i], m)
      {
      }
      r := r + [m];
      rest := rest - {m};
    }
  }

  /**
   * The distinct accepted titles of a page's `/w/` links, sorted. The page is
   * given by the targets of its anchors in document order.
   */
  method ExtractTitlesFromPage(hrefs: seq<string>, includes: seq<string>, excludes: seq<string>)
    returns (titles: seq<string>)
    ensures StrictlySorted(titles)
    ensures forall t :: t in titles <==>
      exists i | 0 <= i < |hrefs| :: HarvestedFrom(t, hrefs[i], includes, excludes)
  {
    var found: set<string> := {};
    for i := 0 to |hrefs|
      invariant forall t :: t in found <==>
        exists k | 0 <= k < i :: HarvestedFrom(t, hrefs[k], includes, excludes)
    {
      var d := DecodeTitleFromHref(hrefs[i]);
      if d.Some? && KeepTitle(d.value, includes, excludes) {
        found := found + {d.value};
      }
    }
    titles := SortedSet(found);
  }
}
