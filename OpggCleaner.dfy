/**
 * The OP.GG tip preprocessor: every tip record has its title, content and
 * comments cleaned, and a record is dropped when an earlier kept record has
 * the same url, or the same cleaned title and content.
 *
 * A record is a JSON object. The keys the preprocessor reads are fields of
 * their own (absent and `null` both read as `None`, as `dict.get` gives);
 * every other key is carried in `others` with an opaque value type `V`.
 */
module OpggCleaner {
  import opened Wrappers
  import opened Strings
  import opened Seqs

  // ---------------------------------------------------------------------------
  // clean_text
  // ---------------------------------------------------------------------------

  /** `clean_text(text)`: "" for a missing or empty text, otherwise whitespace runs become one space and the ends are stripped. */
  function CleanText(text: Option<string>): string {
    if text.None? || text.value == "" then "" else CollapseStrip(text.value)
  }

  /** No whitespace at either end and no two whitespace characters in a row. */
  predicate Tidy(s: string) {
    && StrippedBy(s, IsSpace)
    && forall i | 0 <= i < |s| - 1 :: !(IsSpace(s[i]) && IsSpace(s[i + 1]))
  }

  /**
   * A missing or empty text cleans to ""; any cleaned text is tidy, its only
   * whitespace is single spaces, and cleaning it again changes nothing.
   */
  lemma CleanTextSpec(text: Option<string>)
    ensures text.None? || text == Some("") ==> CleanText(text) == ""
    ensures Tidy(CleanText(text))
    ensures forall i | 0 <= i < |CleanText(text)| :: IsSpace(CleanText(text)[i]) ==> CleanText(text)[i] == ' '
    ensures CleanText(Some(CleanText(text))) == CleanText(text)
  {
    if text.Some? && text.value != "" {
      CollapseStripShape(text.value);
      CollapseStripIdempotent(text.value);
    }
  }

  // ---------------------------------------------------------------------------
  // Records
  // ---------------------------------------------------------------------------

  /** A comment as read: the three keys the preprocessor uses and any others. */
  datatype Comment<V> = Comment(nickname: Option<string>, content: Option<string>, date: Option<string>,
                                others: map<string, V>)

  /** A comment as written: exactly `nickname`, `content` and `date`. */
  datatype CleanComment = CleanComment(nickname: Option<string>, content: string, date: Option<string>)

  /** A tip record as read; `comments` is `None` when the record has no `comments` key. */
  datatype Item<V> = Item(url: Option<string>, title: Option<string>, content: Option<string>,
                          comments: Option<seq<Comment<V>>>, others: map<string, V>)

  /** A tip record as written: `title` and `content` are always present, `comments` only when it was. */
  datatype CleanItem<V> = CleanItem(url: Option<string>, title: string, content: string,
                                    comments: Option<seq<CleanComment>>, others: map<string, V>)

  function CleanCommentOf<V>(c: Comment<V>): CleanComment {
    CleanComment(c.nickname, CleanText(c.content), c.date)
  }

  /** Every comment cleaned, in order, the empty ones included. */
  function AllCleaned<V>(cs: seq<Comment<V>>): (r: seq<CleanComment>)
    ensures |r| == |cs|
  {
    if |cs| == 0 then [] else AllCleaned(cs[..|cs| - 1]) + [CleanCommentOf(cs[|cs| - 1])]
  }

  lemma {:induction false} AllCleanedAt<V>(cs: seq<Comment<V>>, i: nat)
    requires i < |cs|
    ensures AllCleaned(cs)[i] == CleanCommentOf(cs[i])
  {
    if i < |cs| - 1 {
      AllCleanedAt(cs[..|cs| - 1], i);
    }
  }

  /** The cleaned comments whose content is not empty, in order. */
  function NonEmpty(xs: seq<CleanComment>): seq<CleanComment> {
    if |xs| == 0 then []
    else NonEmpty(xs[..|xs| - 1]) + (if xs[|xs| - 1].content != "" then [xs[|xs| - 1]] else [])
  }

  /** The comments kept: those whose cleaned content is not empty, cleaned, in order. */
  function CleanedComments<V>(cs: seq<Comment<V>>): seq<CleanComment> {
    NonEmpty(AllCleaned(cs))
  }

  /** The comment loop of `preprocess_opgg_tips`. */
  method CleanComments<V>(comments: seq<Comment<V>>) returns (cleaned: seq<CleanComment>)
    ensures cleaned == CleanedComments(comments)
  {
    cleaned := [];
    for i := 0 to |comments|
      invariant cleaned == CleanedComments(comments[..i])
    {
      assert comments[..i + 1][..i] == comments[..i];
      var all := AllCleaned(comments[..i + 1]);
      assert all[..i] == AllCleaned(comments[..i]);
      var comment := comments[i];
      var text := CleanText(comment.content);
      if text != "" {
        cleaned := cleaned + [CleanComment(comment.nickname, text, comment.date)];
      }
    }
    assert comments[..|comments|] == comments;
  }

  lemma {:induction false} NonEmptyInOrder(xs: seq<CleanComment>)
    ensures IsSubsequence(NonEmpty(xs), xs)
  {
    if |xs| > 0 {
      var p := xs[..|xs| - 1];
      var x := xs[|xs| - 1];
      NonEmptyInOrder(p);
      assert xs == p + [x];
      if x.content != "" {
        IsSubsequenceKeep(NonEmpty(p), p, x);
      } else {
        assert NonEmpty(xs) == NonEmpty(p);
        IsSubsequenceSkip(NonEmpty(p), p, x);
      }
    }
  }

  lemma {:induction false} NonEmptySound(xs: seq<CleanComment>)
    ensures forall c | c in NonEmpty(xs) :: c.content != "" && c in xs
  {
    if |xs| > 0 {
      var p := xs[..|xs| - 1];
      NonEmptySound(p);
      assert forall c | c in p :: c in xs;
    }
  }

  lemma {:induction false} NonEmptyComplete(xs: seq<CleanComment>, i: nat)
    requires i < |xs| && xs[i].content != ""
    ensures xs[i] in NonEmpty(xs)
  {
    var p := xs[..|xs| - 1];
    if i < |p| {
      assert xs[i] == p[i];
      NonEmptyComplete(p, i);
    }
  }

  /** The kept comments are the cleaned input comments, in their order. */
  lemma CleanedCommentsInOrder<V>(cs: seq<Comment<V>>)
    ensures IsSubsequence(CleanedComments(cs), AllCleaned(cs))
  {
    NonEmptyInOrder(AllCleaned(cs));
  }

  /** Every kept comment has a non-empty, tidy content and is the cleaned form of an input comment. */
  lemma CleanedCommentsSound<V>(cs: seq<Comment<V>>)
    ensures forall c | c in CleanedComments(cs) ::
      c.content != "" && Tidy(c.content) && exists i | 0 <= i < |cs| :: c == CleanCommentOf(cs[i])
  {
    var all := AllCleaned(cs);
    NonEmptySound(all);
    forall c | c in CleanedComments(cs)
      ensures c.content != "" && Tidy(c.content) && exists i | 0 <= i < |cs| :: c == CleanCommentOf(cs[i])
    {
      var i :| 0 <= i < |all| && all[i] == c;
      AllCleanedAt(cs, i);
      CleanTextSpec(cs[i].content);
    }
  }

  /** A comment whose cleaned content is not empty is kept. */
  lemma CleanedCommentsComplete<V>(cs: seq<Comment<V>>, i: nat)
    requires i < |cs| && CleanText(cs[i].content) != ""
    ensures CleanCommentOf(cs[i]) in CleanedComments(cs)
  {
    AllCleanedAt(cs, i);
    NonEmptyComplete(AllCleaned(cs), i);
  }

  /** The record written for a kept input record. */
  function Cleaned<V>(item: Item<V>): CleanItem<V> {
    CleanItem(item.url, CleanText(item.title), CleanText(item.content),
              if item.comments.Some? then Some(CleanedComments(item.comments.value)) else None,
              item.others)
  }

  /**
   * A written record keeps the url and every key the preprocessor does not
   * touch, has a tidy title and content, and has a `comments` list exactly
   * when the input record had one, holding only non-empty, tidy comments.
   */
  lemma CleanedSpec<V>(item: Item<V>)
    ensures var r := Cleaned(item);
      && r.url == item.url && r.others == item.others
      && Tidy(r.title) && Tidy(r.content)
      && (r.comments.Some? <==> item.comments.Some?)
      && (r.comments.Some? ==> forall c | c in r.comments.value :: c.content != "" && Tidy(c.content))
  {
    CleanTextSpec(item.title);
    CleanTextSpec(item.content);
    if item.comments.Some? {
      CleanedCommentsSound(item.comments.value);
    }
  }

  /** The cleaned title and content of a record, the second de-duplication key. */
  function ContentKey<V>(item: Item<V>): (string, string) {
    (CleanText(item.title), CleanText(item.content))
  }

  /** The same key read off a cleaned record. */
  function Key<V>(c: CleanItem<V>): (string, string) {
    (c.title, c.content)
  }

  // ---------------------------------------------------------------------------
  // The de-duplication loop of preprocess_opgg_tips
  // ---------------------------------------------------------------------------

  /**
   * The cleaned form of every record, in order. The loop decides on a record
   * by its url and its content key, and both can be read off its cleaned form.
   */
  function Candidates<V>(data: seq<Item<V>>): (cs: seq<CleanItem<V>>)
    ensures |cs| == |data|
  {
    if |data| == 0 then [] else Candidates(data[..|data| - 1]) + [Cleaned(data[|data| - 1])]
  }

  lemma {:induction false} CandidateAt<V>(data: seq<Item<V>>, i: nat)
    requires i < |data|
    ensures Candidates(data)[i] == Cleaned(data[i])
    ensures Candidates(data)[i].url == data[i].url && Key(Candidates(data)[i]) == ContentKey(data[i])
  {
    if i < |data| - 1 {
      CandidateAt(data[..|data| - 1], i);
    }
  }

  lemma CandidatesSnoc<V>(data: seq<Item<V>>, i: nat)
    requires i < |data|
    ensures Candidates(data[..i + 1]) == Candidates(data[..i]) + [Cleaned(data[i])]
  {
    assert data[..i + 1][..i] == data[..i];
  }

  lemma {:induction false} CandidatesPrefix<V>(data: seq<Item<V>>, i: nat)
    requires i <= |data|
    ensures Candidates(data[..i]) == Candidates(data)[..i]
    decreases |data|
  {
    if i < |data| {
      var p := data[..|data| - 1];
      assert p[..i] == data[..i];
      CandidatesPrefix(p, i);
    } else {
      assert data[..i] == data;
    }
  }

  /**
   * What the loop carries: the urls and keys seen, the records written, the
   * input positions they came from, and the two duplicate counters.
   */
  datatype Tally<V> = Tally(seenUrls: set<Option<string>>, seenContent: set<(string, string)>,
                            unique: seq<CleanItem<V>>, kept: seq<nat>, dupUrl: nat, dupContent: nat)

  /**
   * One record at input position `i`, given by its cleaned form `c`: a seen
   * url counts a url duplicate, a seen key a content duplicate; otherwise
   * both are registered and the record is written.
   */
  function Step<V>(t: Tally<V>, i: nat, c: CleanItem<V>): Tally<V> {
    if c.url in t.seenUrls then t.(dupUrl := t.dupUrl + 1)
    else if Key(c) in t.seenContent then t.(dupContent := t.dupContent + 1)
    else Tally(t.seenUrls + {c.url}, t.seenContent + {Key(c)}, t.unique + [c], t.kept + [i],
               t.dupUrl, t.dupContent)
  }

  /** The tally after the candidates `cs`, in order. */
  function RunOver<V>(cs: seq<CleanItem<V>>): Tally<V> {
    if |cs| == 0 then Tally({}, {}, [], [], 0, 0)
    else Step(RunOver(cs[..|cs| - 1]), |cs| - 1, cs[|cs| - 1])
  }

  /** The tally after the records `data`, in order. */
  function Run<V>(data: seq<Item<V>>): Tally<V> {
    RunOver(Candidates(data))
  }

  lemma RunSnoc<V>(data: seq<Item<V>>, i: nat)
    requires i < |data|
    ensures Run(data[..i + 1]) == Step(Run(data[..i]), i, Cleaned(data[i]))
  {
    CandidatesSnoc(data, i);
    var cs := Candidates(data[..i + 1]);
    assert cs[..i] == Candidates(data[..i]);
  }

  /** The loop over `data` in `preprocess_opgg_tips`: the records written and the two counters printed. */
  method PreprocessOpggTips<V>(data: seq<Item<V>>) returns (unique: seq<CleanItem<V>>, dupUrl: nat, dupContent: nat)
    ensures unique == Run(data).unique
    ensures dupUrl == Run(data).dupUrl && dupContent == Run(data).dupContent
  {
    var seenUrls: set<Option<string>> := {};
    var seenContent: set<(string, string)> := {};
    unique := [];
    dupUrl, dupContent := 0, 0;
    ghost var kept: seq<nat> := [];
    for i := 0 to |data|
      invariant Tally(seenUrls, seenContent, unique, kept, dupUrl, dupContent) == Run(data[..i])
    {
      RunSnoc(data, i);
      var item := data[i];
      var url := item.url;
      var titleClean := CleanText(item.title);
      var contentClean := CleanText(item.content);
      if url in seenUrls {
        dupUrl := dupUrl + 1;
        continue;
      }
      var contentKey := (titleClean, contentClean);
      if contentKey in seenContent {
        dupContent := dupContent + 1;
        continue;
      }
      seenUrls := seenUrls + {url};
      seenContent := seenContent + {contentKey};
      var comments: Option<seq<CleanComment>> := None;
      if item.comments.Some? {
        var cleanedComments := CleanComments(item.comments.value);
        comments := Some(cleanedComments);
      }
      unique := unique + [CleanItem(item.url, titleClean, contentClean, comments, item.others)];
      kept := kept + [i];
    }
    assert data[..|data|] == data;
  }

  // ---------------------------------------------------------------------------
  // Properties of the loop, first over the candidates
  // ---------------------------------------------------------------------------

  lemma {:induction false} RunOverCounts<V>(cs: seq<CleanItem<V>>)
    ensures |cs| == |RunOver(cs).unique| + RunOver(cs).dupUrl + RunOver(cs).dupContent
    ensures |RunOver(cs).kept| == |RunOver(cs).unique|
  {
    if |cs| > 0 {
      RunOverCounts(cs[..|cs| - 1]);
    }
  }

  /** The seen sets are the urls and the keys of the records written. */
  ghost predicate SeenWritten<V>(t: Tally<V>) {
    && (forall u :: u in t.seenUrls <==> exists c | c in t.unique :: c.url == u)
    && (forall k :: k in t.seenContent <==> exists c | c in t.unique :: Key(c) == k)
  }

  /** No two written records share a url, nor a key. */
  predicate Distinct<V>(u: seq<CleanItem<V>>) {
    forall a, b | 0 <= a < b < |u| :: u[a].url != u[b].url && Key(u[a]) != Key(u[b])
  }

  lemma StepSeen<V>(t: Tally<V>, i: nat, c: CleanItem<V>)
    requires SeenWritten(t)
    ensures SeenWritten(Step(t, i, c))
  {
    if c.url !in t.seenUrls && Key(c) !in t.seenContent {
      var u := t.unique + [c];
      assert forall x :: x in u <==> x in t.unique || x == c;
    }
  }

  lemma {:induction false} RunOverSeen<V>(cs: seq<CleanItem<V>>)
    ensures SeenWritten(RunOver(cs))
  {
    if |cs| > 0 {
      RunOverSeen(cs[..|cs| - 1]);
      StepSeen(RunOver(cs[..|cs| - 1]), |cs| - 1, cs[|cs| - 1]);
    }
  }

  lemma StepDistinct<V>(t: Tally<V>, i: nat, c: CleanItem<V>)
    requires SeenWritten(t) && Distinct(t.unique)
    ensures Distinct(Step(t, i, c).unique)
  {
    if c.url !in t.seenUrls && Key(c) !in t.seenContent {
      var u := t.unique + [c];
      forall a | 0 <= a < |t.unique|
        ensures u[a].url != c.url && Key(u[a]) != Key(c)
      {
        assert u[a] in t.unique;
      }
    }
  }

  lemma {:induction false} RunOverDistinct<V>(cs: seq<CleanItem<V>>)
    ensures Distinct(RunOver(cs).unique)
  {
    if |cs| > 0 {
      var p := cs[..|cs| - 1];
      RunOverDistinct(p);
      RunOverSeen(p);
      StepDistinct(RunOver(p), |cs| - 1, cs[|cs| - 1]);
    }
  }

  /** The written records are the candidates at strictly increasing positions. */
  ghost predicate KeptAt<V>(cs: seq<CleanItem<V>>, t: Tally<V>) {
    && |t.kept| == |t.unique|
    && (forall m | 0 <= m < |t.kept| :: t.kept[m] < |cs| && t.unique[m] == cs[t.kept[m]])
    && (forall a, b | 0 <= a < b < |t.kept| :: t.kept[a] < t.kept[b])
  }

  lemma StepKept<V>(cs: seq<CleanItem<V>>, t: Tally<V>)
    requires |cs| > 0 && KeptAt(cs[..|cs| - 1], t)
    ensures KeptAt(cs, Step(t, |cs| - 1, cs[|cs| - 1]))
  {
    var n := |cs| - 1;
    assert forall m | 0 <= m < |t.kept| :: cs[..n][t.kept[m]] == cs[t.kept[m]];
  }

  lemma {:induction false} RunOverKept<V>(cs: seq<CleanItem<V>>)
    ensures KeptAt(cs, RunOver(cs))
  {
    if |cs| > 0 {
      RunOverKept(cs[..|cs| - 1]);
      StepKept(cs, RunOver(cs[..|cs| - 1]));
    }
  }

  /** The kept positions of a prefix start the kept positions of the whole; the rest lie beyond the prefix. */
  lemma {:induction false} RunOverPrefix<V>(cs: seq<CleanItem<V>>, i: nat)
    requires i <= |cs|
    ensures RunOver(cs[..i]).kept <= RunOver(cs).kept
    ensures forall m | |RunOver(cs[..i]).kept| <= m < |RunOver(cs).kept| :: RunOver(cs).kept[m] >= i
    decreases |cs|
  {
    if i < |cs| {
      var p := cs[..|cs| - 1];
      assert p[..i] == cs[..i];
      RunOverPrefix(p, i);
    } else {
      assert cs[..i] == cs;
    }
  }

  /** A candidate is kept exactly when its url and its key are not among those already seen. */
  lemma RunOverDecision<V>(cs: seq<CleanItem<V>>, i: nat)
    requires i < |cs|
    ensures i in RunOver(cs).kept <==> cs[i].url !in RunOver(cs[..i]).seenUrls && Key(cs[i]) !in RunOver(cs[..i]).seenContent
  {
    var t := RunOver(cs[..i]);
    var q := cs[..i + 1];
    assert q[..i] == cs[..i];
    assert RunOver(q) == Step(t, i, cs[i]);
    RunOverKept(cs[..i]);
    RunOverPrefix(cs, i + 1);
    RunOverPrefix(cs, i);
    var all := RunOver(cs).kept;
    if RunOver(q).kept == t.kept + [i] {
      assert all[|t.kept|] == i;
    } else {
      forall m | 0 <= m < |all|
        ensures all[m] != i
      {
        if m < |t.kept| {
          assert all[m] == t.kept[m] < i;
        } else {
          assert all[m] >= i + 1;
        }
      }
    }
  }

  // ---------------------------------------------------------------------------
  // The same properties stated on the records
  // ---------------------------------------------------------------------------

  /** Every record is written or counted as exactly one kind of duplicate. */
  lemma RunCounts<V>(data: seq<Item<V>>)
    ensures |data| == |Run(data).unique| + Run(data).dupUrl + Run(data).dupContent
  {
    RunOverCounts(Candidates(data));
  }

  /** The written records are cleaned input records at strictly increasing input positions. */
  lemma RunInOrder<V>(data: seq<Item<V>>)
    ensures var t := Run(data);
      && |t.kept| == |t.unique|
      && (forall m | 0 <= m < |t.kept| :: t.kept[m] < |data| && t.unique[m] == Cleaned(data[t.kept[m]]))
      && (forall a, b | 0 <= a < b < |t.kept| :: t.kept[a] < t.kept[b])
  {
    var cs := Candidates(data);
    RunOverKept(cs);
    var t := Run(data);
    forall m | 0 <= m < |t.kept|
      ensures t.unique[m] == Cleaned(data[t.kept[m]])
    {
      CandidateAt(data, t.kept[m]);
    }
  }

  /** No two written records share a url, nor a cleaned title and content. */
  lemma RunDistinct<V>(data: seq<Item<V>>)
    ensures var u := Run(data).unique;
      forall a, b | 0 <= a < b < |u| :: u[a].url != u[b].url && (u[a].title, u[a].content) != (u[b].title, u[b].content)
  {
    RunOverDistinct(Candidates(data));
  }

  /**
   * A record is written exactly when no record written before it has its url
   * or its cleaned title and content; in particular a dropped record
   * duplicates an earlier written one, so of each group of duplicates the
   * first is written. Only written records register their url and key.
   */
  lemma RunDecision<V>(data: seq<Item<V>>, i: nat)
    requires i < |data|
    ensures i in Run(data).kept <==>
      forall c | c in Run(data[..i]).unique :: c.url != data[i].url && (c.title, c.content) != ContentKey(data[i])
  {
    var cs := Candidates(data);
    CandidatesPrefix(data, i);
    CandidateAt(data, i);
    RunOverDecision(cs, i);
    RunOverSeen(cs[..i]);
  }

  lemma CandidatesOfThree<V>(a: Item<V>, b: Item<V>, c: Item<V>)
    ensures Candidates([a, b, c]) == [Cleaned(a), Cleaned(b), Cleaned(c)]
  {
    var d := [a, b, c];
    assert d[..2] == [a, b] && [a, b][..1] == [a] && [a][..0] == [];
    assert Candidates([a]) == [Cleaned(a)];
    assert Candidates([a, b]) == [Cleaned(a), Cleaned(b)];
  }

  lemma RunOverOfThree<V>(x: CleanItem<V>, y: CleanItem<V>, z: CleanItem<V>)
    ensures RunOver([x, y, z]) == Step(Step(Step(Tally({}, {}, [], [], 0, 0), 0, x), 1, y), 2, z)
  {
    var d := [x, y, z];
    assert d[..2] == [x, y] && [x, y][..1] == [x] && [x][..0] == [];
    assert RunOver([x]) == Step(Tally({}, {}, [], [], 0, 0), 0, x);
    assert RunOver([x, y]) == Step(RunOver([x]), 1, y);
  }

  lemma RunOverUrlOfContentDuplicate<V>(x: CleanItem<V>, y: CleanItem<V>, z: CleanItem<V>)
    requires y.url != x.url && Key(y) == Key(x)
    requires z.url == y.url && Key(z) != Key(x)
    ensures RunOver([x, y, z]).kept == [0, 2] && RunOver([x, y, z]).unique == [x, z]
    ensures RunOver([x, y, z]).dupContent == 1 && RunOver([x, y, z]).dupUrl == 0
  {
    RunOverOfThree(x, y, z);
  }

  /**
   * A record dropped as a content duplicate does not register its url: when
   * `b` repeats only the key of `a`, and `c` repeats only the url of `b`,
   * both `a` and `c` are written.
   */
  lemma UrlOfContentDuplicateFree<V>(a: Item<V>, b: Item<V>, c: Item<V>)
    requires b.url != a.url && ContentKey(b) == ContentKey(a)
    requires c.url == b.url && ContentKey(c) != ContentKey(a)
    ensures Run([a, b, c]).kept == [0, 2]
    ensures Run([a, b, c]).unique == [Cleaned(a), Cleaned(c)]
    ensures Run([a, b, c]).dupContent == 1 && Run([a, b, c]).dupUrl == 0
  {
    CandidatesOfThree(a, b, c);
    CandidateAt([a, b, c], 0);
    CandidateAt([a, b, c], 1);
    CandidateAt([a, b, c], 2);
    RunOverUrlOfContentDuplicate(Cleaned(a), Cleaned(b), Cleaned(c));
  }
}
