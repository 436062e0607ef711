/**
 * The seed page seen as tables, and the selector that picks the link-dense
 * navigation tables out of it.
 *
 * HTML is abstract here: a table is the sequence of its rows in document
 * order, a row the sequence of its direct cells, and a cell its kind, its
 * text and the targets of its anchors in document order.
 */
module NavTables {
  import opened Strings
  import opened NamuwikiHelpers

  datatype Cell = Cell(isHeader: bool, text: string, hrefs: seq<string>)

  datatype Row = Row(cells: seq<Cell>)

  datatype Table = Table(rows: seq<Row>)

  /** `len(el.select('a[href^="/w/"]'))` over a list of anchor targets. */
  function WikiLinkCount(hrefs: seq<string>): nat {
    if |hrefs| == 0 then 0
    else (if StartsWith(hrefs[0], WikiPrefix) then 1 else 0) + WikiLinkCount(hrefs[1..])
  }

  function CellsLinkCount(cells: seq<Cell>): nat {
    if |cells| == 0 then 0 else WikiLinkCount(cells[0].hrefs) + CellsLinkCount(cells[1..])
  }

  function RowLinkCount(r: Row): nat {
    CellsLinkCount(r.cells)
  }

  function RowsLinkCount(rows: seq<Row>): nat {
    if |rows| == 0 then 0 else RowLinkCount(rows[0]) + RowsLinkCount(rows[1..])
  }

  function TableLinkCount(t: Table): nat {
    RowsLinkCount(t.rows)
  }

  /** The number of "rich" rows: rows with at least `richRowLinks` wiki links. */
  function RichRowCount(rows: seq<Row>, richRowLinks: int): nat {
    if |rows| == 0 then 0
    else (if RowLinkCount(rows[0]) >= richRowLinks then 1 else 0) + RichRowCount(rows[1..], richRowLinks)
  }

  /** The shape test a navigation table passes: enough links overall and enough rich rows. */
  predicate IsNavTable(t: Table, minLinksInTable: int, minRichRows: int, richRowLinks: int) {
    TableLinkCount(t) >= minLinksInTable && RichRowCount(t.rows, richRowLinks) >= minRichRows
  }

  /** The most tables the selector returns. */
  const MaxNavTables: nat := 5

  /** A candidate: its link count and its position among the page's tables. */
  type Scored = (nat, nat)

  /** `a` is ranked before `b`: more links, or as many links and earlier in the page. */
  predicate Ahead(a: Scored, b: Scored) {
    a.0 > b.0 || (a.0 == b.0 && a.1 < b.1)
  }

  predicate Ranked(s: seq<Scored>) {
    forall i, j | 0 <= i < j < |s| :: Ahead(s[i], s[j])
  }

  predicate IncreasingPositions(s: seq<Scored>) {
    forall i, j | 0 <= i < j < |s| :: s[i].1 < s[j].1
  }

  /** Puts `x` before the first element whose score is not above its own. */
  function InsertByScore(x: Scored, s: seq<Scored>): seq<Scored> {
    if |s| == 0 || s[0].0 <= x.0 then [x] + s else [s[0]] + InsertByScore(x, s[1..])
  }

  /** `list.sort(key=score, reverse=True)`: a stable sort on the score alone, here by insertion. */
  function SortByScore(s: seq<Scored>): seq<Scored> {
    if |s| == 0 then [] else InsertByScore(s[0], SortByScore(s[1..]))
  }

  lemma {:induction false} InsertByScorePermutes(x: Scored, s: seq<Scored>)
    ensures multiset(InsertByScore(x, s)) == multiset(s) + multiset{x}
  {
    if |s| > 0 && s[0].0 > x.0 {
      InsertByScorePermutes(x, s[1..]);
      assert s == [s[0]] + s[1..];
    }
  }

  lemma {:induction false} InsertByScoreRanked(x: Scored, s: seq<Scored>)
    requires Ranked(s)
    requires forall k | 0 <= k < |s| :: x.1 < s[k].1
    ensures Ranked(InsertByScore(x, s))
  {
    if |s| > 0 && s[0].0 > x.0 {
      InsertByScoreRanked(x, s[1..]);
      InsertByScorePermutes(x, s[1..]);
      var r := InsertByScore(x, s[1..]);
      forall j | 0 < j < |r| + 1
        ensures Ahead(s[0], ([s[0]] + r)[j])
      {
        var y := r[j - 1];
        assert y in multiset(r);
        if y != x {
          assert y in multiset(s[1..]);
          var k :| 0 <= k < |s[1..]| && s[1..][k] == y;
          assert y == s[k + 1];
        }
      }
    }
  }

  /**
   * Sorting a list whose positions increase yields the list ranked by score
   * with ties in their original order, and nothing is lost or added.
   */
  lemma SortByScoreSpec(s: seq<Scored>)
    requires IncreasingPositions(s)
    ensures Ranked(SortByScore(s))
    ensures multiset(SortByScore(s)) == multiset(s)
  {
    SortByScoreRanked(s);
    SortByScorePermutes(s);
  }

  lemma {:induction false} SortByScorePermutes(s: seq<Scored>)
    ensures multiset(SortByScore(s)) == multiset(s)
  {
    if |s| > 0 {
      SortByScorePermutes(s[1..]);
      InsertByScorePermutes(s[0], SortByScore(s[1..]));
      assert s == [s[0]] + s[1..];
    }
  }

  lemma {:induction false} SortByScoreRanked(s: seq<Scored>)
    requires IncreasingPositions(s)
    ensures Ranked(SortByScore(s))
  {
    if |s| > 0 {
      var rest := s[1..];
      assert IncreasingPositions(rest) by {
        forall i, j | 0 <= i < j < |rest|
          ensures rest[i].1 < rest[j].1
        {
          assert rest[i] == s[i + 1] && rest[j] == s[j + 1];
        }
      }
      SortByScoreRanked(rest);
      var t := SortByScore(rest);
      SortByScorePermutes(rest);
      LaterPositions(s, t);
      InsertByScoreRanked(s[0], t);
    }
  }

  /** Every element of a rearrangement of the tail sits later in the page than the head. */
  lemma LaterPositions(s: seq<Scored>, t: seq<Scored>)
    requires |s| > 0 && IncreasingPositions(s) && multiset(t) == multiset(s[1..])
    ensures forall k | 0 <= k < |t| :: s[0].1 < t[k].1
  {
    var rest := s[1..];
    forall k | 0 <= k < |t|
      ensures s[0].1 < t[k].1
    {
      assert t[k] in multiset(rest);
      var m :| 0 <= m < |rest| && rest[m] == t[k];
      assert rest[m] == s[m + 1];
    }
  }

  /** `scored` lists, in page order, every table among the first `i` that passes the shape test. */
  ghost predicate ScoresPrefix(tables: seq<Table>, scored: seq<Scored>, i: nat,
                               minLinksInTable: int, minRichRows: int, richRowLinks: int)
  {
    && IncreasingPositions(scored)
    && (forall k | 0 <= k < |scored| ::
          scored[k].1 < i && scored[k].1 < |tables| && scored[k].0 == TableLinkCount(tables[scored[k].1])
          && IsNavTable(tables[scored[k].1], minLinksInTable, minRichRows, richRowLinks))
    && (forall j | 0 <= j < i && j < |tables| && IsNavTable(tables[j], minLinksInTable, minRichRows, richRowLinks) ::
          (TableLinkCount(tables[j]), j) in scored)
  }

  /** The page positions of the first five ranked candidates. */
  function TopPositions(ranked: seq<Scored>): (picked: seq<nat>)
    ensures |picked| == if |ranked| < MaxNavTables then |ranked| else MaxNavTables
  {
    var n := if |ranked| < MaxNavTables then |ranked| else MaxNavTables;
    seq(n, k requires 0 <= k < n => ranked[k].1)
  }

  /** Every ranked candidate is one of the scored ones. */
  lemma RankedFromScored(scored: seq<Scored>, ranked: seq<Scored>)
    requires multiset(ranked) == multiset(scored)
    ensures forall k | 0 <= k < |ranked| :: ranked[k] in scored
  {
    forall k | 0 <= k < |ranked|
      ensures ranked[k] in scored
    {
      assert ranked[k] in multiset(scored);
    }
  }

  /** A candidate outside the first five is ranked after each of them, and there are five of them. */
  lemma TopPositionsBeat(ranked: seq<Scored>, x: Scored)
    requires Ranked(ranked) && x in ranked && x.1 !in TopPositions(ranked)
    ensures |TopPositions(ranked)| == MaxNavTables
    ensures forall k | 0 <= k < MaxNavTables :: Ahead(ranked[k], x)
  {
    var picked := TopPositions(ranked);
    var p :| 0 <= p < |ranked| && ranked[p] == x;
    assert forall k | 0 <= k < |picked| :: ranked[k].1 == picked[k] != x.1;
    assert p >= |picked|;
  }

  /** The first five of the ranked candidates are the five best navigation tables of the page. */
  lemma TopPositionsSpec(tables: seq<Table>, scored: seq<Scored>,
                         minLinksInTable: int, minRichRows: int, richRowLinks: int)
    requires ScoresPrefix(tables, scored, |tables|, minLinksInTable, minRichRows, richRowLinks)
    ensures var picked := TopPositions(SortByScore(scored));
      && (forall k | 0 <= k < |picked| ::
            picked[k] < |tables| && IsNavTable(tables[picked[k]], minLinksInTable, minRichRows, richRowLinks))
      && (forall k, l | 0 <= k < l < |picked| ::
            Ahead((TableLinkCount(tables[picked[k]]), picked[k]), (TableLinkCount(tables[picked[l]]), picked[l])))
      && (forall j | 0 <= j < |tables| && IsNavTable(tables[j], minLinksInTable, minRichRows, richRowLinks) && j !in picked ::
            |picked| == MaxNavTables
            && forall k | 0 <= k < |picked| :: Ahead((TableLinkCount(tables[picked[k]]), picked[k]), (TableLinkCount(tables[j]), j)))
  {
    var ranked := SortByScore(scored);
    SortByScoreSpec(scored);
    RankedFromScored(scored, ranked);
    var picked := TopPositions(ranked);
    forall k | 0 <= k < |picked|
      ensures ranked[k] == (TableLinkCount(tables[picked[k]]), picked[k])
    {
      assert ranked[k] in scored;
    }
    forall j | 0 <= j < |tables| && IsNavTable(tables[j], minLinksInTable, minRichRows, richRowLinks) && j !in picked
      ensures |picked| == MaxNavTables
      ensures forall k | 0 <= k < |picked| :: Ahead((TableLinkCount(tables[picked[k]]), picked[k]), (TableLinkCount(tables[j]), j))
    {
      var x := (TableLinkCount(tables[j]), j);
      assert x in scored;
      assert x in multiset(ranked);
      TopPositionsBeat(ranked, x);
    }
  }

  /**
   * `_select_nav_tables`: scores each table of the page that passes the shape
   * test by its link count, sorts the scores in decreasing order (ties keep
   * page order) and returns the first five tables. `picked` names the page
   * position of each selected table.
   */
  method SelectNavTables(tables: seq<Table>, minLinksInTable: int, minRichRows: int, richRowLinks: int)
    returns (selected: seq<Table>, ghost picked: seq<nat>)
    ensures |selected| == |picked| <= MaxNavTables
    ensures forall k | 0 <= k < |picked| ::
      picked[k] < |tables| && selected[k] == tables[picked[k]]
      && IsNavTable(selected[k], minLinksInTable, minRichRows, richRowLinks)
    ensures forall k, l | 0 <= k < l < |picked| ::
      Ahead((TableLinkCount(selected[k]), picked[k]), (TableLinkCount(selected[l]), picked[l]))
    ensures forall j | 0 <= j < |tables| && IsNavTable(tables[j], minLinksInTable, minRichRows, richRowLinks) && j !in picked ::
      |picked| == MaxNavTables
      && forall k | 0 <= k < |picked| :: Ahead((TableLinkCount(selected[k]), picked[k]), (TableLinkCount(tables[j]), j))
    ensures forall k | 0 <= k < |selected| ::
      selected[k] in tables && IsNavTable(selected[k], minLinksInTable, minRichRows, richRowLinks)
    ensures forall k, l | 0 <= k < l < |selected| :: TableLinkCount(selected[k]) >= TableLinkCount(selected[l])
    ensures |selected| < MaxNavTables ==>
      forall j | 0 <= j < |tables| && IsNavTable(tables[j], minLinksInTable, minRichRows, richRowLinks) :: tables[j] in selected
  {
    var scored: seq<Scored> := [];
    for i := 0 to |tables|
      invariant ScoresPrefix(tables, scored, i, minLinksInTable, minRichRows, richRowLinks)
    {
      var allLinks := TableLinkCount(tables[i]);
      if allLinks < minLinksInTable {
        continue;
      }
      var richRows := RichRowCount(tables[i].rows, richRowLinks);
      if richRows < minRichRows {
        continue;
      }
      scored := scored + [(allLinks, i)];
    }
    var ranked := SortByScore(scored);
    TopPositionsSpec(tables, scored, minLinksInTable, minRichRows, richRowLinks);
    var top := TopPositions(ranked);
    selected := seq(|top|, k requires 0 <= k < |top| => tables[top[k]]);
    picked := top;
    PickedTables(tables, selected, picked, minLinksInTable, minRichRows, richRowLinks);
  }

  /** The selection stated without positions: page tables that qualify, by descending link count, all of them when fewer than five. */
  lemma PickedTables(tables: seq<Table>, selected: seq<Table>, picked: seq<nat>,
                     minLinksInTable: int, minRichRows: int, richRowLinks: int)
    requires |selected| == |picked| <= MaxNavTables
    requires forall k | 0 <= k < |picked| ::
      picked[k] < |tables| && selected[k] == tables[picked[k]]
      && IsNavTable(selected[k], minLinksInTable, minRichRows, richRowLinks)
    requires forall k, l | 0 <= k < l < |picked| ::
      Ahead((TableLinkCount(selected[k]), picked[k]), (TableLinkCount(selected[l]), picked[l]))
    requires forall j | 0 <= j < |tables| && IsNavTable(tables[j], minLinksInTable, minRichRows, richRowLinks) && j !in picked ::
      |picked| == MaxNavTables
    ensures forall k | 0 <= k < |selected| ::
      selected[k] in tables && IsNavTable(selected[k], minLinksInTable, minRichRows, richRowLinks)
    ensures forall k, l | 0 <= k < l < |selected| :: TableLinkCount(selected[k]) >= TableLinkCount(selected[l])
    ensures |selected| < MaxNavTables ==>
      forall j | 0 <= j < |tables| && IsNavTable(tables[j], minLinksInTable, minRichRows, richRowLinks) :: tables[j] in selected
  {
    forall j | 0 <= j < |tables| && j in picked
      ensures tables[j] in selected
    {
      var k :| 0 <= k < |picked| && picked[k] == j;
      assert selected[k] == tables[j];
    }
  }

}
