/**
 * From navigation tables to groups of article titles: the row parser, the
 * aggregator that threads a global "seen" set across rows, the flattening
 * of the group mapping, its inversion (title -> groups), and the
 * order-preserving de-duplication the crawler's entry point applies to the
 * final title list.
 *
 * A group mapping is a Python dict from label to title list; its insertion
 * order matters, so it is a sequence of (label, titles) pairs with distinct
 * labels.
 */
module Grouping {
  import opened Wrappers
  import opened Strings
  import opened Seqs
  import opened NamuwikiHelpers
  import opened NavTables

  // ---------------------------------------------------------------------------
  // The row parser, _row_to_group_and_titles
  // ---------------------------------------------------------------------------

  /**
   * `re.fullmatch(r"(?:\d{4}\s*){2,}", s)` counts how many groups of four
   * digits, each followed by optional whitespace, make up the whole of `s`;
   * `None` when `s` is not of that form.
   */
  function YearGroups(s: string): Option<nat>
    decreases |s|
  {
    if |s| == 0 then Some(0)
    else if |s| >= 4 && IsDigit(s[0]) && IsDigit(s[1]) && IsDigit(s[2]) && IsDigit(s[3]) then
      var rest := s[4..];
      var n := SpanLen(rest, IsSpace);
      match YearGroups(rest[n..])
      case None => None
      case Some(k) => Some(k + 1)
    else None
  }

  /** A label that is only a run of years, as timeline tables have. */
  predicate IsYearRun(s: string) {
    YearGroups(s).Some? && YearGroups(s).value >= 2
  }

  /** `tr.find_all("td", recursive=False)`: the data cells among the direct cells. */
  function DataCells(cells: seq<Cell>): seq<Cell> {
    if |cells| == 0 then [] else (if cells[0].isHeader then [] else [cells[0]]) + DataCells(cells[1..])
  }

  /** The cells the parser reads: the data cells, or every direct cell when fewer than two are data cells. */
  function ParserCells(r: Row): seq<Cell> {
    var tds := DataCells(r.cells);
    if |tds| < 2 then r.cells else tds
  }

  /** The title one anchor contributes: its decoded title unless that is empty or lies in a reserved namespace. */
  function TitleOf(href: string): seq<string> {
    match DecodeTitleFromHref(href)
    case None => []
    case Some(t) => if t == [] || IsReservedTitle(t) then [] else [t]
  }

  /** The titles of a cell's links in document order, repetitions included. */
  function LinkedTitles(hrefs: seq<string>): seq<string> {
    if |hrefs| == 0 then []
    else LinkedTitles(hrefs[..|hrefs| - 1]) + TitleOf(hrefs[|hrefs| - 1])
  }

  /** A group label and its de-duplicated titles. */
  type Parsed = (string, seq<string>)

  /** What `_row_to_group_and_titles` returns for a row. */
  function ParseRow(r: Row, minLinksInRow: int): Option<Parsed> {
    var cells := ParserCells(r);
    if |cells| < 2 then None
    else
      match NormalizeGroupName(Some(cells[0].text))
      case None => None
      case Some(g) =>
        if IsYearRun(g) then None
        else
          var titles := LinkedTitles(cells[1].hrefs);
          if |titles| < minLinksInRow then None else Some((g, Dedup(titles)))
  }

  /** Every linked title is a non-empty title outside the reserved namespaces, decoded from one of the links. */
  lemma {:induction false} LinkedTitlesSound(hrefs: seq<string>)
    ensures forall t | t in LinkedTitles(hrefs) ::
      t != [] && !IsReservedTitle(t) && exists i | 0 <= i < |hrefs| :: DecodeTitleFromHref(hrefs[i]) == Some(t)
  {
    if |hrefs| > 0 {
      var p := hrefs[..|hrefs| - 1];
      LinkedTitlesSound(p);
      forall t | t in LinkedTitles(hrefs)
        ensures t != [] && !IsReservedTitle(t) && exists i | 0 <= i < |hrefs| :: DecodeTitleFromHref(hrefs[i]) == Some(t)
      {
        if t in LinkedTitles(p) {
          var i :| 0 <= i < |p| && DecodeTitleFromHref(p[i]) == Some(t);
          assert hrefs[i] == p[i];
        } else {
          assert t in TitleOf(hrefs[|hrefs| - 1]);
        }
      }
    }
  }

  /**
   * What the parser guarantees: rows with fewer than two usable cells, an
   * empty label, or a year-run label give nothing; any other row is accepted
   * exactly when its second cell has enough linked titles; an accepted row has a
   * trimmed non-empty label and a duplicate-free list holding exactly the
   * distinct non-reserved titles of the second cell's links. The minimum is
   * checked on the list before de-duplication.
   */
  lemma ParseRowSpec(r: Row, minLinksInRow: int)
    ensures |ParserCells(r)| < 2 ==> ParseRow(r, minLinksInRow).None?
    ensures |ParserCells(r)| >= 2 && NormalizeGroupName(Some(ParserCells(r)[0].text)).None? ==>
      ParseRow(r, minLinksInRow).None?
    ensures (|ParserCells(r)| >= 2 && NormalizeGroupName(Some(ParserCells(r)[0].text)).Some?
             && IsYearRun(NormalizeGroupName(Some(ParserCells(r)[0].text)).value)) ==>
      ParseRow(r, minLinksInRow).None?
    ensures (|ParserCells(r)| >= 2 && NormalizeGroupName(Some(ParserCells(r)[0].text)).Some?
             && !IsYearRun(NormalizeGroupName(Some(ParserCells(r)[0].text)).value)) ==>
      (ParseRow(r, minLinksInRow).Some? <==> |LinkedTitles(ParserCells(r)[1].hrefs)| >= minLinksInRow)
    ensures ParseRow(r, minLinksInRow).Some? ==>
      var cells := ParserCells(r);
      var g := ParseRow(r, minLinksInRow).value.0;
      var ts := ParseRow(r, minLinksInRow).value.1;
      && g != [] && StrippedBy(g, IsSpace) && !IsYearRun(g)
      && g == NormalizeGroupName(Some(cells[0].text)).value
      && |LinkedTitles(cells[1].hrefs)| >= minLinksInRow
      && NoDup(ts)
      && (forall t :: t in ts <==> t in LinkedTitles(cells[1].hrefs))
      && (forall t | t in ts ::
            t != [] && !IsReservedTitle(t)
            && exists i | 0 <= i < |cells[1].hrefs| :: DecodeTitleFromHref(cells[1].hrefs[i]) == Some(t))
  {
    var cells := ParserCells(r);
    if ParseRow(r, minLinksInRow).Some? {
      NormalizeGroupNameShape(Some(cells[0].text));
      var titles := LinkedTitles(cells[1].hrefs);
      DedupNoDup(titles);
      DedupElements(titles);
      LinkedTitlesSound(cells[1].hrefs);
    }
  }

  /** An accepted row lists its titles in the order of their first links in the second cell. */
  lemma ParseRowOrder(r: Row, minLinksInRow: int)
    requires ParseRow(r, minLinksInRow).Some?
    ensures var all := LinkedTitles(ParserCells(r)[1].hrefs);
      var ts := ParseRow(r, minLinksInRow).value.1;
      forall i, j | 0 <= i < j < |ts| :: ts[i] in all && ts[j] in all && FirstIndex(all, ts[i]) < FirstIndex(all, ts[j])
  {
    var cells := ParserCells(r);
    var all := LinkedTitles(cells[1].hrefs);
    var ts := ParseRow(r, minLinksInRow).value.1;
    assert ts == Dedup(all);
    DedupFirstOccurrenceOrder(all);
    forall i, j | 0 <= i < j < |ts|
      ensures ts[i] in all && ts[j] in all && FirstIndex(all, ts[i]) < FirstIndex(all, ts[j])
    {
      assert ts[i] == Dedup(all)[i] && ts[j] == Dedup(all)[j];
    }
  }

  /**
   * A row linking one article three times passes a minimum of three, yet
   * yields a single title: `g` is any label cell text whose label is no year
   * run (`LabelA` gives one), and `h` any link whose title is kept.
   */
  lemma ParseRowMinimumBeforeDedup(g: string, name: string, h: string)
    requires NormalizeGroupName(Some(g)) == Some(name) && !IsYearRun(name)
    requires TitleOf(h) != []
    ensures var r := Row([Cell(false, g, []), Cell(false, "", [h, h, h])]);
      ParseRow(r, 3) == Some((name, TitleOf(h)))
  {
    var r := Row([Cell(false, g, []), Cell(false, "", [h, h, h])]);
    ThriceRowCells(g, h);
    var t := TitleOf(h)[0];
    assert LinkedTitles([h, h, h]) == [t, t, t] by {
      assert TitleOf(h) == [t];
      ThriceLinked(h);
    }
    DedupThrice(t);
    ParseRowAccepts(r, 3, name);
  }

  /** Both cells of the row are data cells, so the parser reads them both. */
  lemma ThriceRowCells(g: string, h: string)
    ensures var r := Row([Cell(false, g, []), Cell(false, "", [h, h, h])]);
      ParserCells(r) == r.cells
  {
    var c1 := Cell(false, "", [h, h, h]);
    var r := Row([Cell(false, g, []), c1]);
    assert r.cells[1..] == [c1] && [c1][1..] == [];
    assert DataCells([c1]) == [c1];
  }

  /** A row with two usable cells, a label that is no year run and enough linked titles is accepted. */
  lemma ParseRowAccepts(r: Row, minLinksInRow: int, g: string)
    requires |ParserCells(r)| >= 2
    requires NormalizeGroupName(Some(ParserCells(r)[0].text)) == Some(g) && !IsYearRun(g)
    requires |LinkedTitles(ParserCells(r)[1].hrefs)| >= minLinksInRow
    ensures ParseRow(r, minLinksInRow) == Some((g, Dedup(LinkedTitles(ParserCells(r)[1].hrefs))))
  {
  }

  /** The label cell `a` normalises to the label `a`, which is no year run. */
  lemma LabelA()
    ensures NormalizeGroupName(Some("a")) == Some("a") && !IsYearRun("a")
  {
    assert SubRuns("a", IsSpace, " ") == "a";
    assert CollapseStrip("a") == "a";
    assert ReplaceAll("a", FoldMarker, "") == "a";
    assert YearGroups("a") == None;
  }

  lemma ThriceLinked(h: string)
    ensures LinkedTitles([h, h, h]) == TitleOf(h) + TitleOf(h) + TitleOf(h)
  {
    var hs := [h, h, h];
    var h1: seq<string> := [h];
    var h2: seq<string> := [h, h];
    assert h1[..0] == [];
    assert LinkedTitles(h1) == TitleOf(h);
    assert h2[..1] == h1;
    assert LinkedTitles(h2) == TitleOf(h) + TitleOf(h);
    assert hs[..2] == h2;
  }

  lemma DedupThrice<T>(x: T)
    ensures Dedup([x, x, x]) == [x]
  {
    var x1 := [x];
    var x2 := [x, x];
    assert x1[..0] == [];
    assert Dedup(x1) == [x];
    assert x2[..1] == x1;
    assert Dedup(x2) == [x];
    assert [x, x, x][..2] == x2;
  }

  /** The crawler's order-preserving de-duplication: keep each element the first time it is met. */
  method DedupInOrder<T(==)>(xs: seq<T>) returns (out: seq<T>)
    ensures out == Dedup(xs)
  {
    var seen: set<T> := {};
    out := [];
    for i := 0 to |xs|
      invariant out == Dedup(xs[..i])
      invariant forall x :: x in seen <==> x in out
    {
      DedupSnoc(xs[..i], xs[i]);
      assert xs[..i + 1] == xs[..i] + [xs[i]];
      if xs[i] in seen {
        continue;
      }
      seen := seen + {xs[i]};
      out := out + [xs[i]];
    }
    assert xs[..|xs|] == xs;
  }

  /** The link loop of `_row_to_group_and_titles`: decode each `/w/` link, skipping failures and reserved namespaces. */
  method CollectTitles(hrefs: seq<string>) returns (titles: seq<string>)
    ensures titles == LinkedTitles(hrefs)
  {
    titles := [];
    for i := 0 to |hrefs|
      invariant titles == LinkedTitles(hrefs[..i])
    {
      assert LinkedTitles(hrefs[..i + 1]) == titles + TitleOf(hrefs[i]) by {
        assert hrefs[..i + 1][..i] == hrefs[..i];
      }
      var title := DecodeTitleFromHref(hrefs[i]);
      if title.None? || title.value == [] {
        continue;
      }
      if IsReservedTitle(title.value) {
        continue;
      }
      titles := titles + [title.value];
    }
    assert hrefs[..|hrefs|] == hrefs;
  }

  /** `_row_to_group_and_titles(tr, min_links_in_row)`. */
  method RowToGroupAndTitles(r: Row, minLinksInRow: int) returns (parsed: Option<Parsed>)
    ensures parsed == ParseRow(r, minLinksInRow)
  {
    var tds := DataCells(r.cells);
    if |tds| < 2 {
      tds := r.cells;
      if |tds| < 2 {
        return None;
      }
    }
    var left, right := tds[0], tds[1];
    var group := NormalizeGroupName(Some(left.text));
    if group.None? {
      return None;
    }
    if IsYearRun(group.value) {
      return None;
    }
    var titles := CollectTitles(right.hrefs);
    if |titles| < minLinksInRow {
      return None;
    }
    var deduped := DedupInOrder(titles);
    return Some((group.value, deduped));
  }

  // ---------------------------------------------------------------------------
  // The aggregation loop of collect_grouped_titles_from_seed
  // ---------------------------------------------------------------------------

  type Groups = seq<(string, seq<string>)>

  predicate DistinctKeys(g: Groups) {
    forall i, j | 0 <= i < j < |g| :: g[i].0 != g[j].0
  }

  /** `grouped.setdefault(k, []).extend(xs)`: extend the list under `k`, or add `k` at the end. */
  function SetDefaultExtend(g: Groups, k: string, xs: seq<string>): Groups {
    if |g| == 0 then [(k, xs)]
    else if g[0].0 == k then [(k, g[0].1 + xs)] + g[1..]
    else [g[0]] + SetDefaultExtend(g[1..], k, xs)
  }

  predicate HasKey(g: Groups, k: string) {
    exists i | 0 <= i < |g| :: g[i].0 == k
  }

  /** An existing label keeps its place and gains `xs`; a new label is appended with `xs`. */
  lemma {:induction false} SetDefaultExtendSpec(g: Groups, k: string, xs: seq<string>)
    requires DistinctKeys(g)
    ensures var r := SetDefaultExtend(g, k, xs);
      && (HasKey(g, k) ==> |r| == |g|)
      && (!HasKey(g, k) ==> r == g + [(k, xs)])
      && (forall i | 0 <= i < |g| :: r[i].0 == g[i].0 && r[i].1 == if g[i].0 == k then g[i].1 + xs else g[i].1)
  {
    if |g| > 0 && g[0].0 != k {
      assert DistinctKeys(g[1..]) by {
        forall i, j | 0 <= i < j < |g[1..]|
          ensures g[1..][i].0 != g[1..][j].0
        {
          assert g[1..][i] == g[i + 1] && g[1..][j] == g[j + 1];
        }
      }
      SetDefaultExtendSpec(g[1..], k, xs);
      var r := SetDefaultExtend(g, k, xs);
      forall i | 0 <= i < |g|
        ensures r[i].0 == g[i].0 && r[i].1 == if g[i].0 == k then g[i].1 + xs else g[i].1
      {
        if i > 0 {
          assert r[i] == SetDefaultExtend(g[1..], k, xs)[i - 1];
          assert g[i] == g[1..][i - 1];
        }
      }
      if !HasKey(g, k) {
        assert !HasKey(g[1..], k) by {
          forall i | 0 <= i < |g[1..]|
            ensures g[1..][i].0 != k
          {
            assert g[1..][i] == g[i + 1];
          }
        }
      } else {
        var i :| 0 <= i < |g| && g[i].0 == k;
        assert g[1..][i - 1].0 == k;
      }
    } else if |g| > 0 {
      var r := SetDefaultExtend(g, k, xs);
      assert r == [(k, g[0].1 + xs)] + g[1..];
      assert HasKey(g, k) by {
        assert g[0].0 == k;
      }
      forall i | 0 <= i < |g|
        ensures r[i].0 == g[i].0 && r[i].1 == if g[i].0 == k then g[i].1 + xs else g[i].1
      {
        if i > 0 {
          assert r[i] == g[i];
          assert g[i].0 != g[0].0;
        }
      }
    }
  }

  /** The parsed rows of a table, in row order; rows that do not parse are skipped. */
  function ParsedRows(rows: seq<Row>, minLinksInRow: int): seq<Parsed> {
    if |rows| == 0 then []
    else
      var p := ParseRow(rows[|rows| - 1], minLinksInRow);
      ParsedRows(rows[..|rows| - 1], minLinksInRow) + (if p.Some? then [p.value] else [])
  }

  /** The parsed rows of all tables, table by table. */
  function ParsedTables(tables: seq<Table>, minLinksInRow: int): seq<Parsed> {
    if |tables| == 0 then []
    else ParsedTables(tables[..|tables| - 1], minLinksInRow) + ParsedRows(tables[|tables| - 1].rows, minLinksInRow)
  }

  lemma ParsedRowsSnoc(rows: seq<Row>, j: nat, minLinksInRow: int)
    requires j < |rows|
    ensures ParsedRows(rows[..j + 1], minLinksInRow) == ParsedRows(rows[..j], minLinksInRow) +
      (if ParseRow(rows[j], minLinksInRow).Some? then [ParseRow(rows[j], minLinksInRow).value] else [])
  {
    assert rows[..j + 1][..j] == rows[..j];
  }

  lemma ParsedTablesSnoc(tables: seq<Table>, i: nat, minLinksInRow: int)
    requires i < |tables|
    ensures ParsedTables(tables[..i + 1], minLinksInRow) ==
      ParsedTables(tables[..i], minLinksInRow) + ParsedRows(tables[i].rows, minLinksInRow)
  {
    assert tables[..i + 1][..i] == tables[..i];
  }

  /** The label of the first parsed row that lists `t`: the group that `t` ends up in. */
  function FirstOwner(rows: seq<Parsed>, t: string): Option<string> {
    if |rows| == 0 then None
    else if t in rows[0].1 then Some(rows[0].0)
    else FirstOwner(rows[1..], t)
  }

  lemma {:induction false} FirstOwnerSnoc(rows: seq<Parsed>, r: Parsed, t: string)
    ensures FirstOwner(rows + [r], t) ==
      if FirstOwner(rows, t).Some? then FirstOwner(rows, t) else if t in r.1 then Some(r.0) else None
  {
    if |rows| > 0 {
      assert (rows + [r])[1..] == rows[1..] + [r];
      FirstOwnerSnoc(rows[1..], r, t);
    }
  }

  /** A title's owner is the label of a parsed row that lists the title. */
  lemma {:induction false} FirstOwnerSound(rows: seq<Parsed>, t: string)
    requires FirstOwner(rows, t).Some?
    ensures exists i | 0 <= i < |rows| :: rows[i].0 == FirstOwner(rows, t).value && t in rows[i].1
  {
    if t !in rows[0].1 {
      FirstOwnerSound(rows[1..], t);
      var i :| 0 <= i < |rows[1..]| && rows[1..][i].0 == FirstOwner(rows, t).value && t in rows[1..][i].1;
      assert rows[i + 1] == rows[1..][i];
    }
  }

  /** Every title listed by some parsed row has an owner. */
  lemma {:induction false} FirstOwnerComplete(rows: seq<Parsed>, i: nat, t: string)
    requires i < |rows| && t in rows[i].1
    ensures FirstOwner(rows, t).Some?
  {
    if t !in rows[0].1 {
      assert rows[1..][i - 1] == rows[i];
      FirstOwnerComplete(rows[1..], i - 1, t);
    }
  }

  /** A title the group mapping may hold: non-empty and outside the reserved namespaces. */
  predicate ValidTitle(t: string) {
    t != [] && !IsReservedTitle(t)
  }

  /** Every title a parsed row lists is valid. */
  predicate ValidTitles(rows: seq<Parsed>) {
    forall i, t | 0 <= i < |rows| && t in rows[i].1 :: ValidTitle(t)
  }

  lemma {:induction false} ParsedRowsValid(rows: seq<Row>, minLinksInRow: int)
    ensures ValidTitles(ParsedRows(rows, minLinksInRow))
  {
    if |rows| > 0 {
      ParsedRowsValid(rows[..|rows| - 1], minLinksInRow);
      ParseRowSpec(rows[|rows| - 1], minLinksInRow);
    }
  }

  lemma ValidTitlesAppend(a: seq<Parsed>, b: seq<Parsed>)
    requires ValidTitles(a) && ValidTitles(b)
    ensures ValidTitles(a + b)
  {
    forall i, t | 0 <= i < |a + b| && t in (a + b)[i].1
      ensures ValidTitle(t)
    {
      if i < |a| {
        assert (a + b)[i] == a[i];
      } else {
        assert (a + b)[i] == b[i - |a|];
      }
    }
  }

  lemma {:induction false} ParsedTablesValid(tables: seq<Table>, minLinksInRow: int)
    ensures ValidTitles(ParsedTables(tables, minLinksInRow))
  {
    if |tables| > 0 {
      ParsedTablesValid(tables[..|tables| - 1], minLinksInRow);
      ParsedRowsValid(tables[|tables| - 1].rows, minLinksInRow);
      ValidTitlesAppend(ParsedTables(tables[..|tables| - 1], minLinksInRow), ParsedRows(tables[|tables| - 1].rows, minLinksInRow));
    }
  }

  /** A title that some row of the selected tables lists is non-empty and outside the reserved namespaces. */
  lemma OwnedTitleValid(tables: seq<Table>, minLinksInRow: int, t: string)
    requires FirstOwner(ParsedTables(tables, minLinksInRow), t).Some?
    ensures t != [] && !IsReservedTitle(t)
  {
    var rows := ParsedTables(tables, minLinksInRow);
    ParsedTablesValid(tables, minLinksInRow);
    FirstOwnerSound(rows, t);
    var i :| 0 <= i < |rows| && rows[i].0 == FirstOwner(rows, t).value && t in rows[i].1;
    assert ValidTitle(t);
  }

  /**
   * The state of the aggregation after the parsed rows `done`: labels are
   * distinct, lists are non-empty and duplicate-free, `seen` holds the
   * titles listed so far, and each listed title sits exactly under the label
   * of the first row that listed it.
   */
  ghost predicate AggregateInv(grouped: Groups, seen: set<string>, done: seq<Parsed>) {
    InvLists(grouped) && InvSeen(seen, done) && InvOwners(grouped, done) && InvCovered(grouped, seen)
  }

  ghost predicate InvLists(grouped: Groups) {
    && DistinctKeys(grouped)
    && (forall k | 0 <= k < |grouped| :: grouped[k].1 != [] && NoDup(grouped[k].1))
  }

  ghost predicate InvSeen(seen: set<string>, done: seq<Parsed>) {
    forall t :: t in seen <==> FirstOwner(done, t).Some?
  }

  ghost predicate InvOwners(grouped: Groups, done: seq<Parsed>) {
    forall k, t | 0 <= k < |grouped| :: t in grouped[k].1 <==> FirstOwner(done, t) == Some(grouped[k].0)
  }

  ghost predicate InvCovered(grouped: Groups, seen: set<string>) {
    forall t | t in seen :: exists k | 0 <= k < |grouped| :: t in grouped[k].1
  }

  /** The titles of `ts` not in `seen`, in order. */
  function Unseen(ts: seq<string>, seen: set<string>): seq<string> {
    if |ts| == 0 then []
    else Unseen(ts[..|ts| - 1], seen) + (if ts[|ts| - 1] in seen then [] else [ts[|ts| - 1]])
  }

  lemma {:induction false} UnseenSpec(ts: seq<string>, seen: set<string>)
    requires NoDup(ts)
    ensures NoDup(Unseen(ts, seen))
    ensures forall t :: t in Unseen(ts, seen) <==> t in ts && t !in seen
  {
    if |ts| > 0 {
      var p := ts[..|ts| - 1];
      UnseenSpec(p, seen);
      assert ts == p + [ts[|ts| - 1]];
      assert ts[|ts| - 1] !in p;
    }
  }

  /** One row of the aggregation keeps the invariant. */
  lemma AggregateStep(grouped: Groups, seen: set<string>, done: seq<Parsed>, group: string, titles: seq<string>)
    requires AggregateInv(grouped, seen, done)
    requires NoDup(titles)
    ensures var filtered := Unseen(titles, seen);
      AggregateInv(if filtered == [] then grouped else SetDefaultExtend(grouped, group, filtered),
                   seen + (set t | t in titles), done + [(group, titles)])
  {
    var filtered := Unseen(titles, seen);
    UnseenSpec(titles, seen);
    var done' := done + [(group, titles)];
    forall t
      ensures FirstOwner(done', t) ==
        if FirstOwner(done, t).Some? then FirstOwner(done, t) else if t in titles then Some(group) else None
    {
      FirstOwnerSnoc(done, (group, titles), t);
    }
    if filtered == [] {
      forall t | t in titles
        ensures t in seen
      {
        assert t !in filtered;
      }
    } else {
      AggregateExtend(grouped, seen, done, group, titles, filtered);
    }
  }

  /** The owner of a listed title is one of the labels. */
  lemma OwnersAreKeys(grouped: Groups, seen: set<string>, done: seq<Parsed>, t: string)
    requires AggregateInv(grouped, seen, done)
    requires FirstOwner(done, t).Some?
    ensures exists k | 0 <= k < |grouped| :: grouped[k].0 == FirstOwner(done, t).value && t in grouped[k].1
  {
    assert t in seen;
    var k :| 0 <= k < |grouped| && t in grouped[k].1;
  }

  /** The step of a row that contributes at least one new title. */
  lemma AggregateExtend(grouped: Groups, seen: set<string>, done: seq<Parsed>, group: string,
                        titles: seq<string>, filtered: seq<string>)
    requires AggregateInv(grouped, seen, done)
    requires filtered != [] && NoDup(filtered)
    requires forall t :: t in filtered <==> t in titles && t !in seen
    requires forall t :: (FirstOwner(done + [(group, titles)], t) ==
      if FirstOwner(done, t).Some? then FirstOwner(done, t) else if t in titles then Some(group) else None)
    ensures AggregateInv(SetDefaultExtend(grouped, group, filtered), seen + (set t | t in titles), done + [(group, titles)])
  {
    var done' := done + [(group, titles)];
    var seen' := seen + (set t | t in titles);
    var g' := SetDefaultExtend(grouped, group, filtered);
    var m := ExtendedPlace(grouped, group, filtered);
    ExtendLists(grouped, seen, done, g', m, group, filtered);
    ExtendOwners(grouped, seen, done, g', m, group, titles, filtered);
    ExtendCovered(grouped, seen, seen', g', m, titles, filtered);
    assert InvSeen(seen', done') by {
      forall t
        ensures t in seen' <==> FirstOwner(done', t).Some?
      {
      }
    }
  }

  /** Where `SetDefaultExtend` puts the extended list. */
  lemma ExtendedPlace(grouped: Groups, group: string, filtered: seq<string>) returns (m: nat)
    requires DistinctKeys(grouped)
    ensures ExtendedAt(grouped, SetDefaultExtend(grouped, group, filtered), m, group, filtered)
  {
    var g' := SetDefaultExtend(grouped, group, filtered);
    SetDefaultExtendSpec(grouped, group, filtered);
    if HasKey(grouped, group) {
      m :| m < |grouped| && grouped[m].0 == group;
      assert |g'| == |grouped|;
    } else {
      m := |grouped|;
      assert g' == grouped + [(group, filtered)];
    }
  }

  /** `g'` is `grouped` with `filtered` appended under `group`, which sits at index `m`. */
  ghost predicate ExtendedAt(grouped: Groups, g': Groups, m: nat, group: string, filtered: seq<string>) {
    && m < |g'| && g'[m].0 == group
    && g'[m].1 == (if m < |grouped| then grouped[m].1 + filtered else filtered)
    && (m == |grouped| ==> !HasKey(grouped, group))
    && (m < |grouped| ==> grouped[m].0 == group)
    && |g'| == (if m < |grouped| then |grouped| else |grouped| + 1)
    && (forall k | 0 <= k < |g'| && k != m :: k < |grouped| && g'[k] == grouped[k])
  }

  lemma ExtendLists(grouped: Groups, seen: set<string>, done: seq<Parsed>, g': Groups, m: nat,
                    group: string, filtered: seq<string>)
    requires AggregateInv(grouped, seen, done)
    requires ExtendedAt(grouped, g', m, group, filtered)
    requires filtered != [] && NoDup(filtered)
    requires forall t | t in filtered :: t !in seen
    ensures InvLists(g')
  {
    forall i, j | 0 <= i < j < |g'|
      ensures g'[i].0 != g'[j].0
    {
      if i != m && j != m {
        assert g'[i] == grouped[i] && g'[j] == grouped[j];
      } else if m == |grouped| {
        assert j == m;
        assert grouped[i].0 != group by {
          assert !HasKey(grouped, group);
        }
      } else if i == m {
        assert g'[j] == grouped[j];
      } else {
        assert g'[i] == grouped[i];
      }
    }
    forall k | 0 <= k < |g'|
      ensures g'[k].1 != [] && NoDup(g'[k].1)
    {
      if k == m && m < |grouped| {
        forall t | t in grouped[m].1
          ensures t !in filtered
        {
          assert FirstOwner(done, t) == Some(grouped[m].0);
          assert t in seen;
        }
        NoDupAppend(grouped[m].1, filtered);
      } else if k != m {
        assert g'[k] == grouped[k];
      }
    }
  }

  lemma ExtendOwners(grouped: Groups, seen: set<string>, done: seq<Parsed>, g': Groups, m: nat,
                     group: string, titles: seq<string>, filtered: seq<string>)
    requires AggregateInv(grouped, seen, done)
    requires ExtendedAt(grouped, g', m, group, filtered)
    requires InvLists(g')
    requires forall t :: t in filtered <==> t in titles && t !in seen
    requires forall t :: (FirstOwner(done + [(group, titles)], t) ==
      if FirstOwner(done, t).Some? then FirstOwner(done, t) else if t in titles then Some(group) else None)
    ensures InvOwners(g', done + [(group, titles)])
  {
    var done' := done + [(group, titles)];
    forall k, t | 0 <= k < |g'|
      ensures t in g'[k].1 <==> FirstOwner(done', t) == Some(g'[k].0)
    {
      if k != m {
        assert g'[k] == grouped[k];
        assert t in grouped[k].1 <==> FirstOwner(done, t) == Some(grouped[k].0);
        if FirstOwner(done, t).None? {
          assert t !in grouped[k].1;
          OwnerIsNotKey(grouped, g', m, group, filtered, k);
        }
      } else if FirstOwner(done, t).Some? {
        OwnersAreKeys(grouped, seen, done, t);
        assert t !in filtered;
        if m == |grouped| {
          var l :| 0 <= l < |grouped| && grouped[l].0 == FirstOwner(done, t).value && t in grouped[l].1;
          assert grouped[l].0 != group by {
            assert !HasKey(grouped, group);
          }
        } else {
          assert t in grouped[m].1 <==> FirstOwner(done, t) == Some(grouped[m].0);
        }
      } else {
        assert t !in seen;
        if m < |grouped| {
          assert t !in grouped[m].1 by {
            assert t in grouped[m].1 <==> FirstOwner(done, t) == Some(grouped[m].0);
          }
        }
      }
    }
  }

  lemma OwnerIsNotKey(grouped: Groups, g': Groups, m: nat, group: string, filtered: seq<string>, k: nat)
    requires InvLists(g')
    requires ExtendedAt(grouped, g', m, group, filtered)
    requires k < |g'| && k != m
    ensures g'[k].0 != group
  {
    if k < m {
      assert g'[k].0 != g'[m].0;
    } else {
      assert g'[m].0 != g'[k].0;
    }
  }

  lemma ExtendCovered(grouped: Groups, seen: set<string>, seen': set<string>, g': Groups, m: nat,
                      titles: seq<string>, filtered: seq<string>)
    requires InvCovered(grouped, seen)
    requires seen' == seen + (set t | t in titles)
    requires m < |g'| && g'[m].1 == (if m < |grouped| then grouped[m].1 + filtered else filtered)
    requires forall k | 0 <= k < |g'| && k != m :: k < |grouped| && g'[k] == grouped[k]
    requires |g'| >= |grouped|
    requires forall t :: t in filtered <==> t in titles && t !in seen
    ensures InvCovered(g', seen')
  {
    forall t | t in seen'
      ensures exists k | 0 <= k < |g'| :: t in g'[k].1
    {
      if t in seen {
        var k :| 0 <= k < |grouped| && t in grouped[k].1;
        if k == m {
          assert t in g'[m].1;
        } else {
          assert t in g'[k].1;
        }
      } else {
        assert t in filtered;
        assert t in g'[m].1;
      }
    }
  }

  lemma NoDupAppend(a: seq<string>, b: seq<string>)
    requires NoDup(a) && NoDup(b)
    requires forall t | t in a :: t !in b
    ensures NoDup(a + b)
  {
    forall i, j | 0 <= i < j < |a + b|
      ensures (a + b)[i] != (a + b)[j]
    {
      if i < |a| && j >= |a| {
        assert (a + b)[i] in a && (a + b)[j] == b[j - |a|];
      }
    }
  }

  /** One parsed row folded into the state `(grouped, seen)`: the step `AddRow` performs. */
  function Step(state: (Groups, set<string>), row: Parsed): (Groups, set<string>) {
    var filtered := Unseen(row.1, state.1);
    (if filtered == [] then state.0 else SetDefaultExtend(state.0, row.0, filtered), state.1 + (set t | t in row.1))
  }

  /** The parsed rows folded one after another into `state`. */
  function Fold(state: (Groups, set<string>), rows: seq<Parsed>): (Groups, set<string>) {
    if |rows| == 0 then state else Step(Fold(state, rows[..|rows| - 1]), rows[|rows| - 1])
  }

  /** The aggregation of the parsed rows from an empty mapping and an empty `seen` set. */
  function Aggregate(rows: seq<Parsed>): (Groups, set<string>) {
    Fold(([], {}), rows)
  }

  /** Folding two runs of rows is folding the second into the result of the first. */
  lemma {:induction false} FoldAppend(state: (Groups, set<string>), a: seq<Parsed>, b: seq<Parsed>)
    ensures Fold(state, a + b) == Fold(Fold(state, a), b)
    decreases |b|
  {
    if |b| == 0 {
      assert a + b == a;
    } else {
      assert (a + b)[..|a + b| - 1] == a + b[..|b| - 1];
      assert (a + b)[|a + b| - 1] == b[|b| - 1];
      FoldAppend(state, a, b[..|b| - 1]);
    }
  }

  /** Folding the parsed rows of one more table row applies one more step, if that row parses. */
  lemma FoldRowsSnoc(state: (Groups, set<string>), rows: seq<Row>, j: nat, minLinksInRow: int)
    requires j < |rows|
    ensures var before := Fold(state, ParsedRows(rows[..j], minLinksInRow));
      var p := ParseRow(rows[j], minLinksInRow);
      Fold(state, ParsedRows(rows[..j + 1], minLinksInRow)) == if p.Some? then Step(before, p.value) else before
  {
    ParsedRowsSnoc(rows, j, minLinksInRow);
    var before := ParsedRows(rows[..j], minLinksInRow);
    var p := ParseRow(rows[j], minLinksInRow);
    if p.Some? {
      assert (before + [p.value])[..|before|] == before;
    } else {
      assert before + [] == before;
    }
  }

  /**
   * The fold keeps the aggregation invariant: after any duplicate-free parsed
   * rows, each title sits exactly under the label of the first row listing it.
   */
  lemma {:induction false} AggregateKeepsInv(rows: seq<Parsed>)
    requires forall i | 0 <= i < |rows| :: NoDup(rows[i].1)
    ensures AggregateInv(Aggregate(rows).0, Aggregate(rows).1, rows)
  {
    if |rows| > 0 {
      var p := rows[..|rows| - 1];
      var r := rows[|rows| - 1];
      assert rows == p + [(r.0, r.1)];
      AggregateKeepsInv(p);
      var (grouped, seen) := Aggregate(p);
      AggregateStep(grouped, seen, p, r.0, r.1);
      assert Aggregate(rows) == Step((grouped, seen), r);
    }
  }

  /**
   * The body of the aggregation loop for one parsed row: the titles not yet
   * seen, in order, are marked seen and appended under the row's label; a row
   * with no new title leaves the mapping as it is.
   */
  method AddRow(grouped: Groups, seen: set<string>, group: string, titles: seq<string>)
    returns (grouped': Groups, seen': set<string>)
    requires NoDup(titles)
    ensures seen' == seen + (set t | t in titles)
    ensures grouped' == if Unseen(titles, seen) == [] then grouped else SetDefaultExtend(grouped, group, Unseen(titles, seen))
    ensures (grouped', seen') == Step((grouped, seen), (group, titles))
  {
    seen' := seen;
    var filtered: seq<string> := [];
    for k := 0 to |titles|
      invariant filtered == Unseen(titles[..k], seen)
      invariant seen' == seen + (set t | t in titles[..k])
    {
      assert titles[..k + 1][..k] == titles[..k];
      assert titles[k] !in titles[..k];
      if titles[k] in seen' {
        continue;
      }
      seen' := seen' + {titles[k]};
      filtered := filtered + [titles[k]];
    }
    assert titles[..|titles|] == titles;
    grouped' := grouped;
    if filtered != [] {
      grouped' := SetDefaultExtend(grouped, group, filtered);
    }
  }

  /** The final per-group pass of the aggregation: every list de-duplicated in order, labels and their order kept. */
  method DedupGroups(grouped: Groups) returns (r: Groups)
    ensures |r| == |grouped|
    ensures forall k | 0 <= k < |r| :: r[k] == (grouped[k].0, Dedup(grouped[k].1))
  {
    r := grouped;
    for k := 0 to |r|
      invariant |r| == |grouped|
      invariant forall l | 0 <= l < k :: r[l] == (grouped[l].0, Dedup(grouped[l].1))
      invariant forall l | k <= l < |r| :: r[l] == grouped[l]
    {
      var deduped := DedupInOrder(r[k].1);
      r := r[k := (r[k].0, deduped)];
    }
  }

  /** On duplicate-free lists the final pass changes nothing. */
  lemma DedupGroupsNoop(grouped: Groups, r: Groups)
    requires forall k | 0 <= k < |grouped| :: NoDup(grouped[k].1)
    requires |r| == |grouped| && forall k | 0 <= k < |r| :: r[k] == (grouped[k].0, Dedup(grouped[k].1))
    ensures r == grouped
  {
    forall k | 0 <= k < |r|
      ensures r[k] == grouped[k]
    {
      DedupOfNoDup(grouped[k].1);
    }
  }

  /**
   * The aggregation loop of `collect_grouped_titles_from_seed` over the
   * selected tables: rows in table-then-row order, each parsed row's titles
   * filtered against the global `seen` set, the survivors appended under the
   * row's label, and a final per-group de-duplication.
   */
  method AggregateGroups(tables: seq<Table>, minLinksInRow: int) returns (grouped: Groups)
    ensures DistinctKeys(grouped)
    ensures forall k | 0 <= k < |grouped| :: grouped[k].1 != [] && NoDup(grouped[k].1)
    ensures forall k, t | 0 <= k < |grouped| ::
      t in grouped[k].1 <==> FirstOwner(ParsedTables(tables, minLinksInRow), t) == Some(grouped[k].0)
    ensures forall t | FirstOwner(ParsedTables(tables, minLinksInRow), t).Some? ::
      exists k | 0 <= k < |grouped| :: t in grouped[k].1
    ensures forall k, l, t | 0 <= k < |grouped| && 0 <= l < |grouped| && t in grouped[k].1 && t in grouped[l].1 :: k == l
    ensures forall k, t | 0 <= k < |grouped| && t in grouped[k].1 :: ValidTitle(t)
    ensures grouped == Aggregate(ParsedTables(tables, minLinksInRow)).0
  {
    grouped := [];
    var seen: set<string> := {};
    ghost var done: seq<Parsed> := [];
    for i := 0 to |tables|
      invariant done == ParsedTables(tables[..i], minLinksInRow)
      invariant AggregateInv(grouped, seen, done)
      invariant (grouped, seen) == Aggregate(done)
    {
      ParsedTablesSnoc(tables, i, minLinksInRow);
      ghost var before := done;
      grouped, seen, done := AggregateTable(grouped, seen, done, tables[i].rows, minLinksInRow);
      FoldAppend(([], {}), before, ParsedRows(tables[i].rows, minLinksInRow));
    }
    assert tables[..|tables|] == tables;
    AggregateInvDisjoint(grouped, seen, done);
    var deduped := DedupGroups(grouped);
    DedupGroupsNoop(grouped, deduped);
    grouped := deduped;
    forall k, t | 0 <= k < |grouped| && t in grouped[k].1
      ensures ValidTitle(t)
    {
      OwnedTitleValid(tables, minLinksInRow, t);
    }
  }

  /** The rows of one selected table, in order, folded into the mapping. */
  method AggregateTable(grouped: Groups, seen: set<string>, ghost done: seq<Parsed>, rows: seq<Row>, minLinksInRow: int)
    returns (grouped': Groups, seen': set<string>, ghost done': seq<Parsed>)
    requires AggregateInv(grouped, seen, done)
    ensures done' == done + ParsedRows(rows, minLinksInRow)
    ensures AggregateInv(grouped', seen', done')
    ensures (grouped', seen') == Fold((grouped, seen), ParsedRows(rows, minLinksInRow))
  {
    grouped', seen', done' := grouped, seen, done;
    for j := 0 to |rows|
      invariant done' == done + ParsedRows(rows[..j], minLinksInRow)
      invariant AggregateInv(grouped', seen', done')
      invariant (grouped', seen') == Fold((grouped, seen), ParsedRows(rows[..j], minLinksInRow))
    {
      ParsedRowsSnoc(rows, j, minLinksInRow);
      FoldRowsSnoc((grouped, seen), rows, j, minLinksInRow);
      grouped', seen', done' := AggregateRow(grouped', seen', done', rows[j], minLinksInRow);
      assert done' == done + ParsedRows(rows[..j + 1], minLinksInRow) by {
        var opt := if ParseRow(rows[j], minLinksInRow).Some? then [ParseRow(rows[j], minLinksInRow).value] else [];
        assert done + ParsedRows(rows[..j], minLinksInRow) + opt == done + (ParsedRows(rows[..j], minLinksInRow) + opt);
      }
    }
    assert rows[..|rows|] == rows;
  }

  /** One row: parsed, and its new titles added under its label. */
  method AggregateRow(grouped: Groups, seen: set<string>, ghost done: seq<Parsed>, row: Row, minLinksInRow: int)
    returns (grouped': Groups, seen': set<string>, ghost done': seq<Parsed>)
    requires AggregateInv(grouped, seen, done)
    ensures done' == done + (if ParseRow(row, minLinksInRow).Some? then [ParseRow(row, minLinksInRow).value] else [])
    ensures AggregateInv(grouped', seen', done')
    ensures (grouped', seen') ==
      if ParseRow(row, minLinksInRow).Some? then Step((grouped, seen), ParseRow(row, minLinksInRow).value) else (grouped, seen)
  {
    grouped', seen', done' := grouped, seen, done;
    var parsed := RowToGroupAndTitles(row, minLinksInRow);
    if parsed.None? {
      return;
    }
    ParseRowSpec(row, minLinksInRow);
    AggregateStep(grouped, seen, done, parsed.value.0, parsed.value.1);
    grouped', seen' := AddRow(grouped, seen, parsed.value.0, parsed.value.1);
    done' := done + [parsed.value];
  }

  lemma KeyIndexUnique(g: Groups, k: nat, l: nat)
    requires DistinctKeys(g) && k < |g| && l < |g| && g[k].0 == g[l].0
    ensures k == l
  {
  }

  /** Under the invariant no title sits in two groups, and every owned title sits in some group. */
  lemma AggregateInvDisjoint(grouped: Groups, seen: set<string>, done: seq<Parsed>)
    requires AggregateInv(grouped, seen, done)
    ensures forall k, l, t | 0 <= k < |grouped| && 0 <= l < |grouped| && t in grouped[k].1 && t in grouped[l].1 :: k == l
    ensures forall t | FirstOwner(done, t).Some? :: exists k | 0 <= k < |grouped| :: t in grouped[k].1
  {
    forall k, l, t | 0 <= k < |grouped| && 0 <= l < |grouped| && t in grouped[k].1 && t in grouped[l].1
      ensures k == l
    {
      assert FirstOwner(done, t) == Some(grouped[k].0);
      assert FirstOwner(done, t) == Some(grouped[l].0);
      KeyIndexUnique(grouped, k, l);
    }
    forall t | FirstOwner(done, t).Some?
      ensures exists k | 0 <= k < |grouped| :: t in grouped[k].1
    {
      assert t in seen;
    }
  }

  // ---------------------------------------------------------------------------
  // flatten_grouped_titles
  // ---------------------------------------------------------------------------

  /** All titles of the mapping, group after group in insertion order. */
  function AllTitles(g: Groups): seq<string> {
    if |g| == 0 then [] else AllTitles(g[..|g| - 1]) + g[|g| - 1].1
  }

  lemma {:induction false} AllTitlesElements(g: Groups)
    ensures forall t :: t in AllTitles(g) <==> exists k | 0 <= k < |g| :: t in g[k].1
  {
    if |g| > 0 {
      var p := g[..|g| - 1];
      AllTitlesElements(p);
      forall t | t in AllTitles(g)
        ensures exists k | 0 <= k < |g| :: t in g[k].1
      {
        if t in AllTitles(p) {
          var k :| 0 <= k < |p| && t in p[k].1;
          assert g[k] == p[k];
        } else {
          assert t in g[|g| - 1].1;
        }
      }
      forall t, k | 0 <= k < |g| && t in g[k].1
        ensures t in AllTitles(g)
      {
        if k < |g| - 1 {
          assert p[k] == g[k];
        }
      }
    }
  }

  /** The flat title list: every title once, at its first occurrence over the groups. */
  function Flattened(g: Groups): seq<string> {
    Dedup(AllTitles(g))
  }

  /** `flatten_grouped_titles(grouped)`. */
  method FlattenGroupedTitles(grouped: Groups) returns (out: seq<string>)
    ensures out == Flattened(grouped)
  {
    out := [];
    var seen: set<string> := {};
    for i := 0 to |grouped|
      invariant out == Dedup(AllTitles(grouped[..i]))
      invariant forall t :: t in seen <==> t in out
    {
      assert grouped[..i + 1][..i] == grouped[..i];
      out, seen := FlattenGroup(out, seen, AllTitles(grouped[..i]), grouped[i].1);
    }
    assert grouped[..|grouped|] == grouped;
  }

  /** The inner loop of `flatten_grouped_titles`: appends the titles of one group not seen yet. */
  method FlattenGroup(out: seq<string>, seen: set<string>, ghost before: seq<string>, titles: seq<string>)
    returns (out': seq<string>, seen': set<string>)
    requires out == Dedup(before)
    requires forall t :: t in seen <==> t in out
    ensures out' == Dedup(before + titles)
    ensures forall t :: t in seen' <==> t in out'
  {
    out', seen' := out, seen;
    ghost var prefix := before;
    assert before + titles[..0] == before;
    for j := 0 to |titles|
      invariant prefix == before + titles[..j]
      invariant out' == Dedup(prefix)
      invariant forall t :: t in seen' <==> t in out'
    {
      var t := titles[j];
      assert before + titles[..j + 1] == prefix + [t];
      if t in seen' {
        assert Dedup(prefix + [t]) == out' by { DedupSnoc(prefix, t); }
      } else {
        assert Dedup(prefix + [t]) == out' + [t] by { DedupSnoc(prefix, t); }
        seen' := seen' + {t};
        out' := out' + [t];
      }
      prefix := prefix + [t];
    }
    assert titles[..|titles|] == titles;
  }

  /**
   * The flat list is duplicate-free, holds exactly the titles of the groups,
   * and lists them in the order of their first occurrence.
   */
  lemma FlattenedSpec(g: Groups)
    ensures NoDup(Flattened(g))
    ensures forall t :: t in Flattened(g) <==> exists k | 0 <= k < |g| :: t in g[k].1
    ensures forall i, j | 0 <= i < j < |Flattened(g)| ::
      Flattened(g)[i] in AllTitles(g) && Flattened(g)[j] in AllTitles(g)
      && FirstIndex(AllTitles(g), Flattened(g)[i]) < FirstIndex(AllTitles(g), Flattened(g)[j])
  {
    DedupNoDup(AllTitles(g));
    DedupElements(AllTitles(g));
    AllTitlesElements(g);
    DedupFirstOccurrenceOrder(AllTitles(g));
  }

  /** Flattening a one-group mapping of a flat list gives that list back. */
  lemma FlattenedIdempotent(g: Groups, name: string)
    ensures Flattened([(name, Flattened(g))]) == Flattened(g)
  {
    var one: Groups := [(name, Flattened(g))];
    assert one[..0] == [];
    assert AllTitles(one) == Flattened(g);
    DedupIdempotent(AllTitles(g));
  }

  // ---------------------------------------------------------------------------
  // build_title_to_groups
  // ---------------------------------------------------------------------------

  function Count(xs: seq<string>, t: string): nat {
    if |xs| == 0 then 0 else Count(xs[..|xs| - 1], t) + (if xs[|xs| - 1] == t then 1 else 0)
  }

  function Repeat(x: string, n: nat): seq<string> {
    if n == 0 then [] else Repeat(x, n - 1) + [x]
  }

  /** The labels `build_title_to_groups` lists under `t`: one per occurrence of `t`, groups in insertion order. */
  function GroupsOf(g: Groups, t: string): seq<string> {
    if |g| == 0 then [] else GroupsOf(g[..|g| - 1], t) + Repeat(g[|g| - 1].0, Count(g[|g| - 1].1, t))
  }

  function Lookup(m: map<string, seq<string>>, t: string): seq<string> {
    if t in m then m[t] else []
  }

  /** The entry `build_title_to_groups` holds for `t` after the groups `done` and the first titles `ts` of group `g`. */
  function Expected(done: Groups, g: string, ts: seq<string>, t: string): seq<string> {
    GroupsOf(done, t) + Repeat(g, Count(ts, t))
  }

  ghost predicate IndexOf(m: map<string, seq<string>>, done: Groups, g: string, ts: seq<string>) {
    forall t :: (t in m <==> Expected(done, g, ts, t) != []) && Lookup(m, t) == Expected(done, g, ts, t)
  }

  lemma IndexStep(m: map<string, seq<string>>, done: Groups, g: string, ts: seq<string>, x: string)
    requires IndexOf(m, done, g, ts)
    ensures IndexOf(m[x := Lookup(m, x) + [g]], done, g, ts + [x])
  {
    var m' := m[x := Lookup(m, x) + [g]];
    forall t
      ensures (t in m' <==> Expected(done, g, ts + [x], t) != []) && Lookup(m', t) == Expected(done, g, ts + [x], t)
    {
      ExpectedSnoc(done, g, ts, x, t);
    }
  }

  lemma ExpectedSnoc(done: Groups, g: string, ts: seq<string>, x: string, t: string)
    ensures Expected(done, g, ts + [x], t) ==
      if t == x then Expected(done, g, ts, t) + [g] else Expected(done, g, ts, t)
  {
    assert (ts + [x])[..|ts|] == ts;
  }

  /** `build_title_to_groups(grouped)`; the key order of the returned dict is not modelled. */
  method BuildTitleToGroups(grouped: Groups) returns (m: map<string, seq<string>>)
    ensures forall t :: t in m <==> GroupsOf(grouped, t) != []
    ensures forall t :: Lookup(m, t) == GroupsOf(grouped, t)
  {
    m := map[];
    for i := 0 to |grouped|
      invariant IndexOf(m, grouped[..i], "", [])
    {
      assert grouped[..i + 1][..i] == grouped[..i];
      var g, titles := grouped[i].0, grouped[i].1;
      assert IndexOf(m, grouped[..i], g, titles[..0]) by {
        assert titles[..0] == [];
        assert forall t :: Expected(grouped[..i], g, [], t) == Expected(grouped[..i], "", [], t);
      }
      for j := 0 to |titles|
        invariant IndexOf(m, grouped[..i], g, titles[..j])
      {
        IndexStep(m, grouped[..i], g, titles[..j], titles[j]);
        assert titles[..j + 1] == titles[..j] + [titles[j]];
        m := m[titles[j] := Lookup(m, titles[j]) + [g]];
      }
      assert titles[..|titles|] == titles;
      assert forall t :: Expected(grouped[..i], g, titles, t) == Expected(grouped[..i + 1], "", [], t);
    }
    assert grouped[..|grouped|] == grouped;
    assert forall t :: Expected(grouped, "", [], t) == GroupsOf(grouped, t);
  }

  lemma {:induction false} CountZero(xs: seq<string>, t: string)
    ensures Count(xs, t) == 0 <==> t !in xs
    ensures NoDup(xs) ==> Count(xs, t) <= 1
  {
    if |xs| > 0 {
      var p := xs[..|xs| - 1];
      CountZero(p, t);
      assert xs == p + [xs[|xs| - 1]];
      if NoDup(xs) {
        assert NoDup(p);
      }
    }
  }

  /**
   * For a mapping with distinct labels and duplicate-free lists (what the
   * aggregator produces): `g` is listed under `t` exactly when `t` is in the
   * list of `g`, each label at most once, and `t` has an entry exactly when
   * some group lists it.
   */
  lemma {:induction false} GroupsOfSpec(grouped: Groups, t: string)
    requires DistinctKeys(grouped)
    requires forall k | 0 <= k < |grouped| :: NoDup(grouped[k].1)
    ensures forall g :: g in GroupsOf(grouped, t) <==> exists k | 0 <= k < |grouped| :: grouped[k].0 == g && t in grouped[k].1
    ensures NoDup(GroupsOf(grouped, t))
    ensures GroupsOf(grouped, t) != [] <==> t in AllTitles(grouped)
  {
    AllTitlesElements(grouped);
    if |grouped| > 0 {
      var p := grouped[..|grouped| - 1];
      var last := grouped[|grouped| - 1];
      assert DistinctKeys(p);
      GroupsOfSpec(p, t);
      CountZero(last.1, t);
      var rep := Repeat(last.0, Count(last.1, t));
      assert Repeat(last.0, 1) == [last.0];
      assert rep == [] || rep == [last.0];
      forall g
        ensures g in GroupsOf(grouped, t) <==> exists k | 0 <= k < |grouped| :: grouped[k].0 == g && t in grouped[k].1
      {
        if g in GroupsOf(p, t) {
          var k :| 0 <= k < |p| && p[k].0 == g && t in p[k].1;
          assert grouped[k] == p[k];
        }
        if exists k | 0 <= k < |grouped| :: grouped[k].0 == g && t in grouped[k].1 {
          var k :| 0 <= k < |grouped| && grouped[k].0 == g && t in grouped[k].1;
          if k < |p| {
            assert p[k] == grouped[k];
          }
        }
      }
      if rep != [] {
        forall g | g in GroupsOf(p, t)
          ensures g != last.0
        {
          var k :| 0 <= k < |p| && p[k].0 == g && t in p[k].1;
          assert grouped[k] == p[k];
        }
        NoDupAppend(GroupsOf(p, t), rep);
      } else {
        assert GroupsOf(grouped, t) == GroupsOf(p, t);
      }
      AllTitlesElements(p);
    }
  }

  /** The labels of the mapping, in insertion order. */
  function Labels(g: Groups): seq<string> {
    if |g| == 0 then [] else Labels(g[..|g| - 1]) + [g[|g| - 1].0]
  }

  /** With duplicate-free lists, the labels under `t` come in the mapping's insertion order. */
  lemma {:induction false} GroupsOfInOrder(grouped: Groups, t: string)
    requires forall k | 0 <= k < |grouped| :: NoDup(grouped[k].1)
    ensures IsSubsequence(GroupsOf(grouped, t), Labels(grouped))
  {
    if |grouped| > 0 {
      var p := grouped[..|grouped| - 1];
      var last := grouped[|grouped| - 1];
      assert forall k | 0 <= k < |p| :: p[k] == grouped[k];
      GroupsOfInOrder(p, t);
      CountZero(last.1, t);
      assert Labels(grouped) == Labels(p) + [last.0];
      assert GroupsOf(grouped, t) == GroupsOf(p, t) + Repeat(last.0, Count(last.1, t));
      if Count(last.1, t) == 0 {
        assert GroupsOf(p, t) + Repeat(last.0, 0) == GroupsOf(p, t);
        IsSubsequenceSkip(GroupsOf(p, t), Labels(p), last.0);
      } else {
        assert Repeat(last.0, 1) == [last.0];
        IsSubsequenceKeep(GroupsOf(p, t), Labels(p), last.0);
      }
    }
  }
}
