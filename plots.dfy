/**
 * The data side of the charts drawn from a yearly table: per-category scores, the
 * top and bottom categories by score, the rows kept for those categories, the bar
 * values, and the wrapped bar labels. Drawing is not part of the model.
 */
module Plots {
  import opened Tables
  import opened Sequences
  import opened Compounding
  import opened Grouping
  import opened Sorting
  import opened Aggregate

  /** A category with the score it is ranked or drawn by. */
  datatype Scored = Scored(name: string, score: real)

  /** Each row's category paired with its compounded return. */
  function Pairs(rows: seq<YearlyReturn>): (pairs: seq<(string, real)>)
    ensures |pairs| == |rows|
    ensures forall i :: 0 <= i < |rows| ==> pairs[i] == (rows[i].category, rows[i].compounded)
  {
    Map(rows, (r: YearlyReturn) => (r.category, r.compounded))
  }

  /** The compounded returns of category `c`, in row order. */
  function CategoryReturns(rows: seq<YearlyReturn>, c: string): seq<real> {
    ValuesOf(Pairs(rows), c)
  }

  /** The categories of the table, each once, in order of first appearance. */
  function Categories(rows: seq<YearlyReturn>): seq<string> {
    Keys(Pairs(rows))
  }

  /** `group_by(category).agg(agg(Compounded Return))`: one score per category. */
  function GroupScores(rows: seq<YearlyReturn>, agg: seq<real> -> real): (gs: seq<Scored>)
    ensures |gs| == |Categories(rows)|
    ensures forall j :: 0 <= j < |gs| ==>
      gs[j] == Scored(Categories(rows)[j], agg(CategoryReturns(rows, Categories(rows)[j])))
  {
    var ks := Categories(rows);
    seq(|ks|, j requires 0 <= j < |ks| => Scored(ks[j], agg(CategoryReturns(rows, ks[j]))))
  }

  /** The mean of a group's values; a group is never empty, so the null of an empty mean does not arise. */
  function GroupMean(xs: seq<real>): real {
    match Mean(xs)
    case Some(m) => m
    case None => 0.0
  }

  function Names(gs: seq<Scored>): (names: seq<string>)
    ensures |names| == |gs|
    ensures forall j :: 0 <= j < |gs| ==> names[j] == gs[j].name
  {
    Map(gs, (g: Scored) => g.name)
  }

  function Scores(gs: seq<Scored>): (scores: seq<real>)
    ensures |scores| == |gs|
    ensures forall j :: 0 <= j < |gs| ==> scores[j] == gs[j].score
  {
    Map(gs, (g: Scored) => g.score)
  }

  /** The position of a name in a list of scored rows. */
  lemma NamedAt(gs: seq<Scored>, c: string) returns (j: nat)
    requires c in Names(gs)
    ensures j < |gs| && gs[j].name == c
  {
    j :| 0 <= j < |gs| && Names(gs)[j] == c;
  }

  /** The scored rows are named by the categories, in order. */
  lemma GroupScoresNames(rows: seq<YearlyReturn>, agg: seq<real> -> real)
    ensures Names(GroupScores(rows, agg)) == Categories(rows)
  {
  }

  /** A category of the table is exactly a category some row has. */
  lemma CategoryOccurs(rows: seq<YearlyReturn>, c: string)
    ensures c in Categories(rows) <==> exists i :: 0 <= i < |rows| && rows[i].category == c
  {
    var pairs := Pairs(rows);
    if c in Categories(rows) {
      var j :| 0 <= j < |Categories(rows)| && Categories(rows)[j] == c;
      var i := KeyWitness(pairs, j);
      assert rows[i].category == c;
    }
    if exists i :: 0 <= i < |rows| && rows[i].category == c {
      var i :| 0 <= i < |rows| && rows[i].category == c;
      var j := KeyPosition(pairs, i);
    }
  }

  /** A category of the table has at least one compounded return. */
  lemma GroupNonEmpty(rows: seq<YearlyReturn>, c: string)
    requires c in Categories(rows)
    ensures |CategoryReturns(rows, c)| > 0
  {
    CategoryOccurs(rows, c);
    var i :| 0 <= i < |rows| && rows[i].category == c;
    assert Pairs(rows)[i].0 == c;
    ValuesOfNonEmpty(Pairs(rows), c);
  }

  /** Each category of the table is scored, by the aggregate of its returns. */
  lemma ScoreOf(rows: seq<YearlyReturn>, agg: seq<real> -> real, c: string) returns (j: nat)
    requires c in Categories(rows)
    ensures j < |GroupScores(rows, agg)| && GroupScores(rows, agg)[j] == Scored(c, agg(CategoryReturns(rows, c)))
  {
    j :| 0 <= j < |Categories(rows)| && Categories(rows)[j] == c;
  }

  /** Each scored row is a category of the table with the aggregate of its returns. */
  lemma ScoredCategory(rows: seq<YearlyReturn>, agg: seq<real> -> real, g: Scored)
    requires g in GroupScores(rows, agg)
    ensures g.name in Categories(rows) && g.score == agg(CategoryReturns(rows, g.name))
  {
    var j :| 0 <= j < |GroupScores(rows, agg)| && GroupScores(rows, agg)[j] == g;
  }

  /** Each category's scored row names that category with that category's aggregate, and no category is scored twice. */
  lemma GroupScoresSpec(rows: seq<YearlyReturn>, agg: seq<real> -> real)
    ensures Distinct(Names(GroupScores(rows, agg)))
    ensures forall c :: c in Names(GroupScores(rows, agg)) <==> exists i :: 0 <= i < |rows| && rows[i].category == c
    ensures forall j :: 0 <= j < |GroupScores(rows, agg)| ==>
      |CategoryReturns(rows, GroupScores(rows, agg)[j].name)| > 0 &&
      GroupScores(rows, agg)[j].score == agg(CategoryReturns(rows, GroupScores(rows, agg)[j].name))
  {
    var gs := GroupScores(rows, agg);
    GroupScoresNames(rows, agg);
    forall c ensures c in Names(gs) <==> exists i :: 0 <= i < |rows| && rows[i].category == c {
      CategoryOccurs(rows, c);
    }
    forall j | 0 <= j < |gs| ensures |CategoryReturns(rows, gs[j].name)| > 0 {
      GroupNonEmpty(rows, gs[j].name);
    }
  }

  // ---------------------------------------------------------------------------
  // Top and bottom k
  // ---------------------------------------------------------------------------

  predicate ScoreGe(a: Scored, b: Scored) {
    a.score >= b.score
  }

  predicate ScoreLe(a: Scored, b: Scored) {
    a.score <= b.score
  }

  function Min(a: nat, b: nat): nat {
    if a < b then a else b
  }

  /**
   * `sel` is a choice of `min(k, |all|)` of the rows of `all` whose scores are all at
   * least (`highest`) or at most (not `highest`) those of every row left out. Rows of
   * equal score may be chosen either way.
   */
  ghost predicate IsExtremeK(sel: seq<Scored>, all: seq<Scored>, k: nat, highest: bool) {
    && |sel| == Min(k, |all|)
    && multiset(sel) <= multiset(all)
    && forall x, y :: x in multiset(sel) && y in multiset(all) - multiset(sel) ==>
         if highest then x.score >= y.score else x.score <= y.score
  }

  lemma ScoreOrders()
    ensures TotalPreorder(ScoreGe) && TotalPreorder(ScoreLe)
  {
  }

  /** The first `min(k, |all|)` rows of a sort by descending score are a top-k choice. */
  lemma SortedHeadHighest(all: seq<Scored>, k: nat)
    ensures IsExtremeK(SortBy(all, ScoreGe)[..Min(k, |all|)], all, k, true)
  {
    var m := Min(k, |all|);
    var sel := SortBy(all, ScoreGe)[..m];
    ScoreOrders();
    SortedHead(all, ScoreGe, m);
    forall x: Scored, y: Scored | x in multiset(sel) && y in multiset(all) - multiset(sel)
      ensures x.score >= y.score
    {
      assert ScoreGe(x, y);
    }
  }

  /** The first `min(k, |all|)` rows of a sort by ascending score are a bottom-k choice. */
  lemma SortedHeadLowest(all: seq<Scored>, k: nat)
    ensures IsExtremeK(SortBy(all, ScoreLe)[..Min(k, |all|)], all, k, false)
  {
    var m := Min(k, |all|);
    var sel := SortBy(all, ScoreLe)[..m];
    ScoreOrders();
    SortedHead(all, ScoreLe, m);
    forall x: Scored, y: Scored | x in multiset(sel) && y in multiset(all) - multiset(sel)
      ensures x.score <= y.score
    {
      assert ScoreLe(x, y);
    }
  }

  /** `top_k(k, by=score)`: the `k` highest-scoring rows (all rows when there are fewer). */
  function TopK(all: seq<Scored>, k: nat): (sel: seq<Scored>)
    ensures IsExtremeK(sel, all, k, true)
  {
    SortedHeadHighest(all, k);
    SortBy(all, ScoreGe)[..Min(k, |all|)]
  }

  /** `bottom_k(k, by=score)`: the `k` lowest-scoring rows (all rows when there are fewer). */
  function BottomK(all: seq<Scored>, k: nat): (sel: seq<Scored>)
    ensures IsExtremeK(sel, all, k, false)
  {
    SortedHeadLowest(all, k);
    SortBy(all, ScoreLe)[..Min(k, |all|)]
  }

  /** `Scored(name, score)` is a row of `all` exactly when it appears in the multiset of `all`. */
  lemma SelectedFrom(sel: seq<Scored>, all: seq<Scored>, g: Scored)
    requires multiset(sel) <= multiset(all) && g in sel
    ensures g in all
  {
    assert g in multiset(sel);
  }

  /**
   * Every category absent from an extreme choice is ranked no higher (`highest`) or no
   * lower than every category in it.
   */
  lemma ExtremeRanks(sel: seq<Scored>, all: seq<Scored>, k: nat, highest: bool, x: Scored, y: Scored)
    requires IsExtremeK(sel, all, k, highest)
    requires x in sel && y in all && y.name !in Names(sel)
    ensures if highest then x.score >= y.score else x.score <= y.score
  {
    assert x in multiset(sel);
    assert y !in sel;
    assert y in multiset(all) - multiset(sel);
  }

  /** When `k` covers every row, the choice holds every row. */
  lemma ExtremeAll(sel: seq<Scored>, all: seq<Scored>, k: nat, highest: bool)
    requires IsExtremeK(sel, all, k, highest) && |all| <= k
    ensures multiset(sel) == multiset(all)
  {
    var rest := multiset(all) - multiset(sel);
    assert multiset(all) == multiset(sel) + rest;
    assert |rest| == 0;
  }

  // ---------------------------------------------------------------------------
  // filter_top_bot
  // ---------------------------------------------------------------------------

  /** A row of the yearly table with the `Total Return` column added. */
  datatype TotalRow = TotalRow(row: YearlyReturn, total: real)

  /** Ten years of a yearly return compounded: `(1 + r) ** 10 - 1`. */
  function WithTotal(r: YearlyReturn): TotalRow {
    TotalRow(r, Pow(1.0 + r.compounded, 10) - 1.0)
  }

  /** The mean compounded return of every category, as `filter_top_bot` ranks them. */
  function Averages(rows: seq<YearlyReturn>): seq<Scored> {
    GroupScores(rows, GroupMean)
  }

  /** The categories named by the top `k` then the bottom `k` averages. */
  function Chosen(rows: seq<YearlyReturn>, k: nat): seq<string> {
    Names(TopK(Averages(rows), k)) + Names(BottomK(Averages(rows), k))
  }

  /** Whether a row's category is among the chosen ones (`is_in`). */
  function Flags(rows: seq<YearlyReturn>, chosen: seq<string>): (keep: seq<bool>)
    ensures |keep| == |rows|
    ensures forall i :: 0 <= i < |rows| ==> (keep[i] <==> rows[i].category in chosen)
  {
    Map(rows, (r: YearlyReturn) => r.category in chosen)
  }

  /** `filter_top_bot(df, k)`: add `Total Return`, keep the rows of the chosen categories. */
  function FilterTopBot(rows: seq<YearlyReturn>, k: nat): (out: seq<TotalRow>)
    ensures |out| <= |rows|
  {
    Select(Map(rows, WithTotal), Flags(rows, Chosen(rows, k)))
  }

  /**
   * The output is the input in order, each row with `Total Return` equal to ten years of
   * compounding its yearly return, restricted to exactly the rows whose category is chosen.
   */
  lemma FilterTopBotRows(rows: seq<YearlyReturn>, k: nat) returns (idx: seq<nat>)
    ensures |idx| == |FilterTopBot(rows, k)|
    ensures forall j, l :: 0 <= j < l < |idx| ==> idx[j] < idx[l]
    ensures forall j :: 0 <= j < |idx| ==>
      idx[j] < |rows| && rows[idx[j]].category in Chosen(rows, k) &&
      FilterTopBot(rows, k)[j].row == rows[idx[j]] &&
      FilterTopBot(rows, k)[j].total == Compound(seq(10, _ => rows[idx[j]].compounded))
    ensures forall i :: 0 <= i < |rows| && rows[i].category in Chosen(rows, k) ==> i in idx
  {
    var keep := Flags(rows, Chosen(rows, k));
    idx := SelectIndices(Map(rows, WithTotal), keep);
    forall j | 0 <= j < |idx|
      ensures FilterTopBot(rows, k)[j].total == Compound(seq(10, _ => rows[idx[j]].compounded))
    {
      PowIsCompounding(rows[idx[j]].compounded, 10);
    }
  }

  /** The mean compounded return of category `c` (its group is never empty). */
  function MeanOf(rows: seq<YearlyReturn>, c: string): real {
    GroupMean(CategoryReturns(rows, c))
  }

  /** The top (`highest`) or bottom `k` categories by average. */
  function Side(rows: seq<YearlyReturn>, k: nat, highest: bool): seq<Scored> {
    if highest then TopK(Averages(rows), k) else BottomK(Averages(rows), k)
  }

  /** A name on a choice from `all` is a name in `all`. */
  lemma SelectedName(sel: seq<Scored>, all: seq<Scored>, c: string)
    requires multiset(sel) <= multiset(all) && c in Names(sel)
    ensures c in Names(all)
  {
    var j :| 0 <= j < |sel| && Names(sel)[j] == c;
    SelectedFrom(sel, all, sel[j]);
    var l :| 0 <= l < |all| && all[l] == sel[j];
    assert Names(all)[l] == c;
  }

  /** A chosen category is a category of the table. */
  lemma ChosenOccurs(rows: seq<YearlyReturn>, k: nat, c: string)
    requires c in Chosen(rows, k)
    ensures exists i :: 0 <= i < |rows| && rows[i].category == c
  {
    var all := Averages(rows);
    if c in Names(TopK(all, k)) {
      SelectedName(TopK(all, k), all, c);
    } else {
      SelectedName(BottomK(all, k), all, c);
    }
    GroupScoresNames(rows, GroupMean);
    CategoryOccurs(rows, c);
  }

  /**
   * A category on the top side has a mean at least that of every category of the table
   * left off the top side; on the bottom side, at most that of every category left off it.
   */
  lemma ChosenRanks(rows: seq<YearlyReturn>, k: nat, highest: bool, c: string, d: string)
    requires c in Names(Side(rows, k, highest)) && d !in Names(Side(rows, k, highest))
    requires exists i :: 0 <= i < |rows| && rows[i].category == d
    ensures if highest then MeanOf(rows, c) >= MeanOf(rows, d) else MeanOf(rows, c) <= MeanOf(rows, d)
  {
    var all := Averages(rows);
    var side := Side(rows, k, highest);
    assert IsExtremeK(side, all, k, highest);
    var j := NamedAt(side, c);
    SelectedFrom(side, all, side[j]);
    ScoredCategory(rows, GroupMean, side[j]);
    CategoryOccurs(rows, d);
    var l := ScoreOf(rows, GroupMean, d);
    ExtremeRanks(side, all, k, highest, side[j], all[l]);
  }

  /** `MeanOf` is the mean of the category's returns, which exists for every category of the table. */
  lemma MeanOfSpec(rows: seq<YearlyReturn>, c: string)
    requires exists i :: 0 <= i < |rows| && rows[i].category == c
    ensures Mean(CategoryReturns(rows, c)) == Some(MeanOf(rows, c))
  {
    CategoryOccurs(rows, c);
    GroupNonEmpty(rows, c);
  }

  /** With at most `k` categories, every category is chosen and every row is kept. */
  lemma FilterTopBotKeepsAll(rows: seq<YearlyReturn>, k: nat)
    requires |Categories(rows)| <= k
    ensures FilterTopBot(rows, k) == Map(rows, WithTotal)
  {
    var all := Averages(rows);
    var top := TopK(all, k);
    ExtremeAll(top, all, k, true);
    var keep := Flags(rows, Chosen(rows, k));
    forall i | 0 <= i < |keep| ensures keep[i] {
      var c := rows[i].category;
      CategoryOccurs(rows, c);
      var j := ScoreOf(rows, GroupMean, c);
      assert all[j] in multiset(top);
      var l :| 0 <= l < |top| && top[l] == all[j];
      assert Names(top)[l] == c;
    }
    SelectAll(Map(rows, WithTotal), keep);
  }

  // ---------------------------------------------------------------------------
  // compound_bar_chart
  // ---------------------------------------------------------------------------

  /** Each category's ten-year return: the product of its growth factors, less one. */
  function TenYearTotals(rows: seq<YearlyReturn>): seq<Scored> {
    GroupScores(rows, Compound)
  }

  /** The bars of `compound_bar_chart`: the top five then the bottom five by ten-year return. */
  function CompoundBarChart(rows: seq<YearlyReturn>): seq<Scored> {
    TopK(TenYearTotals(rows), 5) + BottomK(TenYearTotals(rows), 5)
  }

  /**
   * There are `2 * min(5, n)` bars for `n` categories (the halves are not deduplicated);
   * the first half are the five highest totals, the second the five lowest.
   */
  lemma CompoundBarChartSides(rows: seq<YearlyReturn>)
    ensures |CompoundBarChart(rows)| == 2 * Min(5, |Categories(rows)|)
    ensures IsExtremeK(CompoundBarChart(rows)[..Min(5, |Categories(rows)|)], TenYearTotals(rows), 5, true)
    ensures IsExtremeK(CompoundBarChart(rows)[Min(5, |Categories(rows)|)..], TenYearTotals(rows), 5, false)
  {
    var top, bottom := TopK(TenYearTotals(rows), 5), BottomK(TenYearTotals(rows), 5);
    assert CompoundBarChart(rows)[..|top|] == top;
    assert CompoundBarChart(rows)[|top|..] == bottom;
  }

  /** Each bar is a category of the table whose height compounds all of that category's yearly returns. */
  lemma CompoundBarChartHeights(rows: seq<YearlyReturn>, b: Scored)
    requires b in CompoundBarChart(rows)
    ensures exists i :: 0 <= i < |rows| && rows[i].category == b.name
    ensures b.score == Compound(CategoryReturns(rows, b.name))
  {
    var all := TenYearTotals(rows);
    var top, bottom := TopK(all, 5), BottomK(all, 5);
    if b in top { SelectedFrom(top, all, b); } else { SelectedFrom(bottom, all, b); }
    ScoredCategory(rows, Compound, b);
    CategoryOccurs(rows, b.name);
  }

  // ---------------------------------------------------------------------------
  // average_bar_chart
  // ---------------------------------------------------------------------------

  /**
   * The bars of `average_bar_chart`, one mean per category sorted ascending, and the
   * reference line: the mean of the bar heights (null when there are no bars).
   */
  function AverageBarChart(rows: seq<YearlyReturn>): (chart: (seq<Scored>, Option<real>))
  {
    ScoreOrders();
    var bars := SortBy(Averages(rows), ScoreLe);
    (bars, Mean(Scores(bars)))
  }

  /**
   * The bars are the per-category means in ascending order, one per category; the
   * reference line is the mean of those means whatever order they are taken in, and is
   * null exactly when the table is empty.
   */
  lemma AverageBarChartSpec(rows: seq<YearlyReturn>)
    ensures TotalPreorder(ScoreLe)
    ensures multiset(AverageBarChart(rows).0) == multiset(Averages(rows))
    ensures SortedBy(AverageBarChart(rows).0, ScoreLe)
    ensures Distinct(Names(AverageBarChart(rows).0))
    ensures forall b :: b in AverageBarChart(rows).0 ==> Mean(CategoryReturns(rows, b.name)) == Some(b.score)
    ensures AverageBarChart(rows).1 == Mean(Scores(Averages(rows)))
    ensures AverageBarChart(rows).1.None? <==> rows == []
  {
    ScoreOrders();
    AverageBarsOrder(rows);
    AverageBarsMeans(rows);
    AverageLine(rows);
  }

  /** The bars are the per-category means, one per category, in ascending order. */
  lemma AverageBarsOrder(rows: seq<YearlyReturn>)
    ensures multiset(AverageBarChart(rows).0) == multiset(Averages(rows))
    ensures SortedBy(AverageBarChart(rows).0, ScoreLe)
    ensures Distinct(Names(AverageBarChart(rows).0))
  {
    ScoreOrders();
    var all, bars := Averages(rows), AverageBarChart(rows).0;
    GroupScoresNames(rows, GroupMean);
    MapPermutation(all, bars, (g: Scored) => g.name);
    DistinctPermutation(Names(all), Names(bars));
  }

  /** Each bar's height is the mean of its category's compounded returns. */
  lemma AverageBarsMeans(rows: seq<YearlyReturn>)
    ensures forall b :: b in AverageBarChart(rows).0 ==> Mean(CategoryReturns(rows, b.name)) == Some(b.score)
  {
    ScoreOrders();
    var all, bars := Averages(rows), AverageBarChart(rows).0;
    forall b | b in bars ensures Mean(CategoryReturns(rows, b.name)) == Some(b.score) {
      assert b in multiset(all);
      ScoredCategory(rows, GroupMean, b);
      GroupNonEmpty(rows, b.name);
    }
  }

  /** The reference line is the mean of the means in any order, null exactly for an empty table. */
  lemma AverageLine(rows: seq<YearlyReturn>)
    ensures AverageBarChart(rows).1 == Mean(Scores(Averages(rows)))
    ensures AverageBarChart(rows).1.None? <==> rows == []
  {
    ScoreOrders();
    var all, bars := Averages(rows), AverageBarChart(rows).0;
    MapPermutation(all, bars, (g: Scored) => g.score);
    MeanPermutation(Scores(all), Scores(bars));
    if rows != [] {
      CategoryOccurs(rows, rows[0].category);
    }
  }

  // ---------------------------------------------------------------------------
  // yearly_bar_chart
  // ---------------------------------------------------------------------------

  predicate CompoundedLe(a: YearlyReturn, b: YearlyReturn) {
    a.compounded <= b.compounded
  }

  /** The bars of one year's chart: that year's rows, sorted by compounded return. */
  function YearBars(rows: seq<YearlyReturn>, year: int): seq<YearlyReturn> {
    assert TotalPreorder(CompoundedLe);
    SortBy(Select(rows, Map(rows, (r: YearlyReturn) => r.year == year)), CompoundedLe)
  }

  /** A row occurs among a year's bars as often as in the table when it is of that year, and otherwise not at all. */
  lemma YearBarsCount(rows: seq<YearlyReturn>, year: int, r: YearlyReturn)
    ensures multiset(YearBars(rows, year))[r] == if r.year == year then multiset(rows)[r] else 0
  {
    assert TotalPreorder(CompoundedLe);
    SelectWhereCount(rows, (r: YearlyReturn) => r.year == year, r);
  }

  /**
   * A year's bars are exactly the rows of that year, each as often as it occurs, in
   * ascending order of compounded return.
   */
  lemma YearBarsSpec(rows: seq<YearlyReturn>, year: int)
    ensures TotalPreorder(CompoundedLe)
    ensures SortedBy(YearBars(rows, year), CompoundedLe)
    ensures forall r :: r in YearBars(rows, year) <==> r in rows && r.year == year
    ensures forall r :: multiset(YearBars(rows, year))[r] == if r.year == year then multiset(rows)[r] else 0
  {
    assert TotalPreorder(CompoundedLe);
    var bars := YearBars(rows, year);
    forall r
      ensures r in bars <==> r in rows && r.year == year
      ensures multiset(bars)[r] == if r.year == year then multiset(rows)[r] else 0
    {
      YearBarsCount(rows, year, r);
      assert r in bars <==> r in multiset(bars);
      assert r in rows <==> r in multiset(rows);
    }
  }

  // ---------------------------------------------------------------------------
  // Label wrapping
  // ---------------------------------------------------------------------------

  /** `label.replace(' ', '\n')`: every space becomes a line break. */
  function WrapLabel(s: string): (r: string)
    ensures |r| == |s|
  {
    if s == [] then []
    else [if s[0] == ' ' then '\n' else s[0]] + WrapLabel(s[1..])
  }

  /** Wrapping keeps the length, turns each space into a line break and keeps every other character. */
  lemma {:induction false} WrapLabelSpec(s: string)
    ensures forall i :: 0 <= i < |s| ==> WrapLabel(s)[i] == if s[i] == ' ' then '\n' else s[i]
  {
    if s != [] {
      WrapLabelSpec(s[1..]);
    }
  }

  /** A wrapped label has no spaces, has a line break where the label had a space or a line break, and wraps to itself. */
  lemma WrapLabelProperties(s: string)
    ensures ' ' !in WrapLabel(s)
    ensures forall i :: 0 <= i < |s| ==> (WrapLabel(s)[i] == '\n' <==> s[i] == ' ' || s[i] == '\n')
    ensures WrapLabel(WrapLabel(s)) == WrapLabel(s)
  {
    WrapLabelSpec(s);
    WrapLabelSpec(WrapLabel(s));
  }

  /**
   * The wrapped labels of a chart's bars, one per bar: each is as long as its bar's name,
   * has a line break wherever the name had a space and the name's character elsewhere,
   * and has no space left.
   */
  function Labels(bars: seq<Scored>): (labels: seq<string>)
    ensures |labels| == |bars|
    ensures forall j :: 0 <= j < |bars| ==>
      && |labels[j]| == |bars[j].name|
      && ' ' !in labels[j]
      && forall i :: 0 <= i < |bars[j].name| ==> labels[j][i] == if bars[j].name[i] == ' ' then '\n' else bars[j].name[i]
  {
    var labels := Map(bars, (b: Scored) => WrapLabel(b.name));
    assert forall j :: 0 <= j < |bars| ==> labels[j] == WrapLabel(bars[j].name);
    forall j | 0 <= j < |bars|
      ensures ' ' !in labels[j]
      ensures forall i :: 0 <= i < |bars[j].name| ==> labels[j][i] == if bars[j].name[i] == ' ' then '\n' else bars[j].name[i]
    {
      WrapLabelSpec(bars[j].name);
      WrapLabelProperties(bars[j].name);
    }
    labels
  }
}
