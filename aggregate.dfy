/**
 * The aggregation stage: adding the daily return and year columns to the concatenated
 * master table, and compounding the daily returns of each (year, category) group.
 *
 * The master table is typed here: every master file has the same columns, and its
 * price columns were checked non-null when the file was loaded.
 */
module Aggregate {
  import opened Tables
  import opened Sequences
  import opened Compounding
  import opened Grouping
  import opened Sorting

  /** One row of the concatenated master files. */
  datatype MasterRow = MasterRow(
    date: Date, open: real, high: real, low: real, close: real, volume: real,
    ticker: string, sector: Option<string>, subIndustry: Option<string>)

  /** A master row with the two added columns: its daily return and its year. */
  datatype ReturnRow = ReturnRow(master: MasterRow, dailyReturn: real, year: int)

  /** The category column the yearly returns are grouped by. */
  datatype Category = Sector | SubIndustry

  function CategoryOf(r: MasterRow, col: Category): Option<string> {
    match col
    case Sector => r.sector
    case SubIndustry => r.subIndustry
  }

  predicate NonZeroCloses(rows: seq<MasterRow>) {
    forall i :: 0 <= i < |rows| ==> rows[i].close != 0.0
  }

  // ---------------------------------------------------------------------------
  // Daily returns
  // ---------------------------------------------------------------------------

  /** The index of the last row of ticker `t`, if there is one. */
  function LastIndexOf(rows: seq<MasterRow>, t: string): (p: Option<nat>)
    ensures p.Some? ==> p.value < |rows| && rows[p.value].ticker == t
  {
    if rows == [] then None
    else if rows[|rows| - 1].ticker == t then Some(|rows| - 1)
    else LastIndexOf(rows[..|rows| - 1], t)
  }

  /** `LastIndexOf` finds the last row of the ticker, and finds nothing only when the ticker has no row. */
  lemma {:induction false} LastIndexOfSpec(rows: seq<MasterRow>, t: string)
    ensures LastIndexOf(rows, t).None? <==> forall q :: 0 <= q < |rows| ==> rows[q].ticker != t
    ensures LastIndexOf(rows, t).Some? ==> forall q :: LastIndexOf(rows, t).value < q < |rows| ==> rows[q].ticker != t
  {
    if rows != [] && rows[|rows| - 1].ticker != t {
      var init := rows[..|rows| - 1];
      LastIndexOfSpec(init, t);
      assert forall q :: 0 <= q < |init| ==> init[q] == rows[q];
    }
  }

  /**
   * The daily return of row `i`, as a reference: the change of its close over the close
   * of the previous row of its ticker, divided by that close; zero for a ticker's first row.
   */
  function ReturnAt(rows: seq<MasterRow>, i: nat): real
    requires i < |rows| && NonZeroCloses(rows)
  {
    match LastIndexOf(rows[..i], rows[i].ticker)
    case None => 0.0
    case Some(p) => (rows[i].close - rows[p].close) / rows[p].close
  }

  /** The last close of each ticker among `rows`. */
  function LastCloses(rows: seq<MasterRow>): (last: map<string, real>)
    ensures NonZeroCloses(rows) ==> forall t :: t in last ==> last[t] != 0.0
  {
    if rows == [] then map[]
    else
      var init := rows[..|rows| - 1];
      assert NonZeroCloses(rows) ==> NonZeroCloses(init);
      LastCloses(init)[rows[|rows| - 1].ticker := rows[|rows| - 1].close]
  }

  /**
   * `pct_change().over("Ticker").fill_null(0)` on the closes: one pass over the rows,
   * remembering the last close of each ticker in `last`.
   */
  function PctChangeOver(rows: seq<MasterRow>, last: map<string, real>): (changes: seq<real>)
    requires NonZeroCloses(rows) && forall t :: t in last ==> last[t] != 0.0
    ensures |changes| == |rows|
    decreases |rows|
  {
    if rows == [] then []
    else
      var r := rows[0];
      var change := if r.ticker in last then (r.close - last[r.ticker]) / last[r.ticker] else 0.0;
      assert NonZeroCloses(rows[1..]);
      [change] + PctChangeOver(rows[1..], last[r.ticker := r.close])
  }

  /**
   * Adds the daily return and the year of the date to every row. The rows keep their
   * order and their cells.
   */
  function AddColumns(rows: seq<MasterRow>): (out: seq<ReturnRow>)
    requires NonZeroCloses(rows)
    ensures |out| == |rows|
    ensures forall i :: 0 <= i < |rows| ==> out[i].master == rows[i] && out[i].year == rows[i].date.year
  {
    var changes := PctChangeOver(rows, map[]);
    seq(|rows|, i requires 0 <= i < |rows| => ReturnRow(rows[i], changes[i], rows[i].date.year))
  }

  /** A ticker has a remembered close exactly when it has a row, and the close is its last row's. */
  lemma {:induction false} LastClosesIndex(rows: seq<MasterRow>, t: string)
    ensures t in LastCloses(rows) <==> LastIndexOf(rows, t).Some?
    ensures t in LastCloses(rows) ==> LastCloses(rows)[t] == rows[LastIndexOf(rows, t).value].close
  {
    if rows != [] && rows[|rows| - 1].ticker != t {
      var init := rows[..|rows| - 1];
      LastClosesIndex(init, t);
    }
  }

  /** A suffix of rows with non-zero closes has non-zero closes. */
  lemma NonZeroClosesSuffix(rows: seq<MasterRow>, k: nat)
    requires k <= |rows| && NonZeroCloses(rows)
    ensures NonZeroCloses(rows[k..])
  {
    assert forall j :: 0 <= j < |rows| - k ==> rows[k..][j] == rows[k + j];
  }

  /**
   * One step of the pass: at row `k`, with the closes remembered from the rows before it,
   * the pass emits the reference return of row `k` and goes on remembering row `k` too.
   */
  lemma PctChangeStep(rows: seq<MasterRow>, k: nat)
    requires k < |rows| && NonZeroCloses(rows)
    ensures NonZeroCloses(rows[k..]) && NonZeroCloses(rows[k + 1..])
    ensures PctChangeOver(rows[k..], LastCloses(rows[..k])) ==
      [ReturnAt(rows, k)] + PctChangeOver(rows[k + 1..], LastCloses(rows[..k + 1]))
  {
    NonZeroClosesSuffix(rows, k);
    NonZeroClosesSuffix(rows, k + 1);
    var r := rows[k];
    var last := LastCloses(rows[..k]);
    LastClosesIndex(rows[..k], r.ticker);
    assert rows[..k + 1][..k] == rows[..k];
    assert LastCloses(rows[..k + 1]) == last[r.ticker := r.close];
    assert rows[k..][0] == r && rows[k..][1..] == rows[k + 1..];
    match LastIndexOf(rows[..k], r.ticker)
    case None =>
    case Some(p) =>
      assert rows[..k][p] == rows[p];
  }

  /** The pass from row `k` emits the pass from row `k + 1` after its first value. */
  lemma PctChangeShift(rows: seq<MasterRow>, k: nat, j: nat)
    requires 0 < j && k + j < |rows| && NonZeroCloses(rows)
    ensures NonZeroCloses(rows[k..]) && NonZeroCloses(rows[k + 1..])
    ensures PctChangeOver(rows[k..], LastCloses(rows[..k]))[j] ==
      PctChangeOver(rows[k + 1..], LastCloses(rows[..k + 1]))[j - 1]
  {
    PctChangeStep(rows, k);
  }

  /** The pass from row `k` emits the reference return of row `k` first. */
  lemma PctChangeHead(rows: seq<MasterRow>, k: nat)
    requires k < |rows| && NonZeroCloses(rows)
    ensures NonZeroCloses(rows[k..])
    ensures PctChangeOver(rows[k..], LastCloses(rows[..k]))[0] == ReturnAt(rows, k)
  {
    PctChangeStep(rows, k);
  }

  /**
   * The pass from row `k` on, started with the closes remembered from the rows before it,
   * computes the reference return of every later row: here, of row `k + j`.
   */
  lemma {:induction false} PctChangeOverFrom(rows: seq<MasterRow>, k: nat, j: nat)
    requires k + j < |rows| && NonZeroCloses(rows)
    ensures NonZeroCloses(rows[k..])
    ensures PctChangeOver(rows[k..], LastCloses(rows[..k]))[j] == ReturnAt(rows, k + j)
    decreases j
  {
    if j == 0 {
      PctChangeHead(rows, k);
    } else {
      PctChangeShift(rows, k, j);
      PctChangeOverFrom(rows, k + 1, j - 1);
    }
  }

  /** Each added daily return is the reference return of its row. */
  lemma AddColumnsReturns(rows: seq<MasterRow>)
    requires NonZeroCloses(rows)
    ensures forall i :: 0 <= i < |rows| ==> AddColumns(rows)[i].dailyReturn == ReturnAt(rows, i)
  {
    assert rows[0..] == rows && rows[..0] == [] && LastCloses([]) == map[];
    forall i | 0 <= i < |rows| ensures AddColumns(rows)[i].dailyReturn == ReturnAt(rows, i) {
      PctChangeOverFrom(rows, 0, i);
    }
  }

  /**
   * The first row of a ticker gets a daily return of 0; any later row gets
   * `(close - previous) / previous`, where `previous` is the close of the nearest
   * earlier row of the same ticker.
   */
  lemma DailyReturnOfRow(rows: seq<MasterRow>, i: nat)
    requires NonZeroCloses(rows) && i < |rows|
    ensures (forall q :: 0 <= q < i ==> rows[q].ticker != rows[i].ticker) ==> AddColumns(rows)[i].dailyReturn == 0.0
    ensures forall p :: 0 <= p < i && rows[p].ticker == rows[i].ticker && (forall q :: p < q < i ==> rows[q].ticker != rows[i].ticker) ==>
      AddColumns(rows)[i].dailyReturn == (rows[i].close - rows[p].close) / rows[p].close
  {
    var t := rows[i].ticker;
    var before := rows[..i];
    assert AddColumns(rows)[i].dailyReturn == ReturnAt(rows, i) by {
      AddColumnsReturns(rows);
    }
    LastIndexOfSpec(before, t);
    assert forall q :: 0 <= q < i ==> before[q].ticker == rows[q].ticker;
    var last := LastIndexOf(before, t);
    if last.Some? {
      var p := last.value;
      assert ReturnAt(rows, i) == (rows[i].close - rows[p].close) / rows[p].close;
      assert rows[p].ticker == t;
      forall p' | 0 <= p' < i && rows[p'].ticker == t && (forall q :: p' < q < i ==> rows[q].ticker != t)
        ensures p' == p
      {
      }
    } else {
      assert ReturnAt(rows, i) == 0.0;
    }
  }

  // ---------------------------------------------------------------------------
  // Compounded yearly returns
  // ---------------------------------------------------------------------------

  /** A row of the yearly table: a year, a category, and the compounded return of its rows. */
  datatype YearlyReturn = YearlyReturn(year: int, category: string, compounded: real)

  /** A group key: a year and a possibly-null category. */
  type Key = (int, Option<string>)

  function KeyOf(r: ReturnRow, col: Category): Key {
    (r.year, CategoryOf(r.master, col))
  }

  /** Each row's group key paired with its daily return. */
  function Keyed(rows: seq<ReturnRow>, col: Category): (pairs: seq<(Key, real)>)
    ensures |pairs| == |rows|
    ensures forall i :: 0 <= i < |rows| ==> pairs[i] == (KeyOf(rows[i], col), rows[i].dailyReturn)
  {
    Map(rows, (r: ReturnRow) => (KeyOf(r, col), r.dailyReturn))
  }

  /** The daily returns of the rows of year `y` and category `c`, across all tickers, in row order. */
  function GroupReturns(rows: seq<ReturnRow>, col: Category, y: int, c: string): seq<real> {
    ValuesOf(Keyed(rows, col), (y, Some(c)))
  }

  /** `((1 + Daily Return).cum_prod().last() - 1)` of one group: its compounded return, null for no rows. */
  function GroupCompound(changes: seq<real>): (r: Option<real>)
    ensures r == if changes == [] then None else Some(Compound(changes))
  {
    LastOfCumProd(Growths(changes));
    match Last(CumProd(Growths(changes)))
    case None => None
    case Some(p) => Some(p - 1.0)
  }

  /** One aggregated row per group, in order of first appearance. */
  function Aggregated(rows: seq<ReturnRow>, col: Category): (groups: seq<(Key, Option<real>)>)
    ensures |groups| == |Keys(Keyed(rows, col))|
    ensures forall j :: 0 <= j < |groups| ==>
      groups[j] == (Keys(Keyed(rows, col))[j], GroupCompound(ValuesOf(Keyed(rows, col), Keys(Keyed(rows, col))[j])))
  {
    var gs := GroupBy(Keyed(rows, col));
    seq(|gs|, j requires 0 <= j < |gs| => (gs[j].0, GroupCompound(gs[j].1)))
  }

  /** `drop_nulls()`: the aggregated rows whose category and compounded return are both present. */
  function DropNulls(groups: seq<(Key, Option<real>)>): (out: seq<YearlyReturn>)
    ensures |out| <= |groups|
  {
    if groups == [] then []
    else
      var n := |groups| - 1;
      var g := groups[n];
      DropNulls(groups[..n]) +
        if g.0.1.Some? && g.1.Some? then [YearlyReturn(g.0.0, g.0.1.value, g.1.value)] else []
  }

  /** The sort order of the yearly table: by year, then by category. */
  predicate YearCategoryLe(a: YearlyReturn, b: YearlyReturn) {
    a.year < b.year || (a.year == b.year && StrLe(a.category, b.category))
  }

  /** Strictly before in that order. */
  predicate YearCategoryLt(a: YearlyReturn, b: YearlyReturn) {
    a.year < b.year || (a.year == b.year && StrLt(a.category, b.category))
  }

  lemma YearCategoryLeTotal()
    ensures TotalPreorder(YearCategoryLe)
  {
    forall a, b ensures YearCategoryLe(a, b) || YearCategoryLe(b, a) {
      if a.category != b.category {
        StrLtTotal(a.category, b.category);
      }
    }
    forall a, b, c | YearCategoryLe(a, b) && YearCategoryLe(b, c) ensures YearCategoryLe(a, c) {
      if StrLt(a.category, b.category) && StrLt(b.category, c.category) {
        StrLtTransitive(a.category, b.category, c.category);
      }
    }
  }

  /**
   * `group_by([Year, col]).agg(...).drop_nulls().sort([Year, col])`: the compounded
   * return of every (year, category) group, without the null-category groups, in
   * (year, category) order.
   */
  function CompoundedYearlyReturns(rows: seq<ReturnRow>, col: Category): (out: seq<YearlyReturn>)
    ensures multiset(out) == multiset(DropNulls(Aggregated(rows, col)))
  {
    YearCategoryLeTotal();
    SortBy(DropNulls(Aggregated(rows, col)), YearCategoryLe)
  }

  /** Every row is strictly before the later ones. */
  predicate StrictlyAscending(s: seq<YearlyReturn>) {
    forall i, j :: 0 <= i < j < |s| ==> YearCategoryLt(s[i], s[j])
  }

  /** No two rows share a (year, category) key. */
  predicate UniqueKeys(s: seq<YearlyReturn>) {
    forall i, j :: 0 <= i < j < |s| ==> (s[i].year, s[i].category) != (s[j].year, s[j].category)
  }

  /** A kept row comes from an aggregated row with a category and a compounded return. */
  lemma {:induction false} DropNullsSource(groups: seq<(Key, Option<real>)>, e: YearlyReturn) returns (j: nat)
    requires e in DropNulls(groups)
    ensures j < |groups| && groups[j] == ((e.year, Some(e.category)), Some(e.compounded))
  {
    var n := |groups| - 1;
    var init := groups[..n];
    if e in DropNulls(init) {
      j := DropNullsSource(init, e);
      assert init[j] == groups[j];
    } else {
      j := n;
    }
  }

  /** An aggregated row with a category and a compounded return is kept. */
  lemma {:induction false} DropNullsKeeps(groups: seq<(Key, Option<real>)>, j: nat)
    requires j < |groups| && groups[j].0.1.Some? && groups[j].1.Some?
    ensures YearlyReturn(groups[j].0.0, groups[j].0.1.value, groups[j].1.value) in DropNulls(groups)
  {
    var n := |groups| - 1;
    if j < n {
      DropNullsKeeps(groups[..n], j);
    }
  }

  /** A kept row is exactly an aggregated row with a category and a compounded return. */
  lemma DropNullsMembers(groups: seq<(Key, Option<real>)>, e: YearlyReturn)
    ensures e in DropNulls(groups) <==>
      exists j :: 0 <= j < |groups| && groups[j] == ((e.year, Some(e.category)), Some(e.compounded))
  {
    if e in DropNulls(groups) {
      var j := DropNullsSource(groups, e);
    }
    if exists j :: 0 <= j < |groups| && groups[j] == ((e.year, Some(e.category)), Some(e.compounded)) {
      var j :| 0 <= j < |groups| && groups[j] == ((e.year, Some(e.category)), Some(e.compounded));
      DropNullsKeeps(groups, j);
    }
  }

  /** Dropping rows keeps the keys apart. */
  lemma {:induction false} DropNullsUnique(groups: seq<(Key, Option<real>)>)
    requires forall i, j :: 0 <= i < j < |groups| ==> groups[i].0 != groups[j].0
    ensures UniqueKeys(DropNulls(groups))
  {
    if groups != [] {
      var n := |groups| - 1;
      var init := groups[..n];
      DropNullsUnique(init);
      var g := groups[n];
      if g.0.1.Some? && g.1.Some? {
        var prev := DropNulls(init);
        var out := DropNulls(groups);
        assert out == prev + [YearlyReturn(g.0.0, g.0.1.value, g.1.value)];
        forall i | 0 <= i < |prev| ensures (prev[i].year, prev[i].category) != (g.0.0, g.0.1.value) {
          DropNullsMembers(init, prev[i]);
          assert prev[i] in prev;
        }
      }
    }
  }

  /** Reordering rows keeps the keys apart. */
  lemma UniqueKeysPermutation(s: seq<YearlyReturn>, t: seq<YearlyReturn>)
    requires multiset(s) == multiset(t) && UniqueKeys(s)
    ensures UniqueKeys(t)
  {
    assert Distinct(s);
    forall i, j | 0 <= i < j < |t| ensures (t[i].year, t[i].category) != (t[j].year, t[j].category) {
      if t[i] == t[j] {
        DistinctPermutation(s, t);
      } else {
        assert t[i] in multiset(s) && t[j] in multiset(s);
        var a :| 0 <= a < |s| && s[a] == t[i];
        var b :| 0 <= b < |s| && s[b] == t[j];
      }
    }
  }

  /** The aggregated groups have distinct keys, and every group has rows. */
  lemma AggregatedKeys(rows: seq<ReturnRow>, col: Category)
    ensures forall i, j :: 0 <= i < j < |Aggregated(rows, col)| ==> Aggregated(rows, col)[i].0 != Aggregated(rows, col)[j].0
    ensures UniqueKeys(DropNulls(Aggregated(rows, col)))
  {
    DropNullsUnique(Aggregated(rows, col));
  }

  /** The yearly table is strictly ascending by (year, category): one row per key. */
  lemma CompoundedYearlyReturnsAscending(rows: seq<ReturnRow>, col: Category)
    ensures StrictlyAscending(CompoundedYearlyReturns(rows, col))
  {
    var out := CompoundedYearlyReturns(rows, col);
    YearCategoryLeTotal();
    assert SortedBy(out, YearCategoryLe);
    AggregatedKeys(rows, col);
    UniqueKeysPermutation(DropNulls(Aggregated(rows, col)), out);
  }

  /** An aggregated row is a key that some row has, with that key's compounded return. */
  lemma AggregatedMember(rows: seq<ReturnRow>, col: Category, k: Key, v: Option<real>)
    ensures (exists j :: 0 <= j < |Aggregated(rows, col)| && Aggregated(rows, col)[j] == (k, v)) <==>
      && (exists r :: 0 <= r < |rows| && KeyOf(rows[r], col) == k)
      && v == GroupCompound(ValuesOf(Keyed(rows, col), k))
  {
    var pairs := Keyed(rows, col);
    var ks := Keys(pairs);
    var groups := Aggregated(rows, col);
    if exists r :: 0 <= r < |rows| && KeyOf(rows[r], col) == k {
      var r :| 0 <= r < |rows| && KeyOf(rows[r], col) == k;
      var j := KeyPosition(pairs, r);
      assert groups[j] == (k, GroupCompound(ValuesOf(pairs, k)));
    }
    if exists j :: 0 <= j < |groups| && groups[j] == (k, v) {
      var j :| 0 <= j < |groups| && groups[j] == (k, v);
      var r := KeyWitness(pairs, j);
      assert KeyOf(rows[r], col) == k;
    }
  }

  /**
   * A row of the yearly table is a (year, category) pair that some input row has, with
   * the compounded return of all that pair's daily returns.
   */
  lemma CompoundedYearlyReturnsMember(rows: seq<ReturnRow>, col: Category, e: YearlyReturn)
    ensures e in CompoundedYearlyReturns(rows, col) <==>
      && (exists r :: 0 <= r < |rows| && rows[r].year == e.year && CategoryOf(rows[r].master, col) == Some(e.category))
      && e.compounded == Compound(GroupReturns(rows, col, e.year, e.category))
  {
    var k: Key := (e.year, Some(e.category));
    var groups := Aggregated(rows, col);
    assert e in CompoundedYearlyReturns(rows, col) <==> e in DropNulls(groups) by {
      assert e in CompoundedYearlyReturns(rows, col) <==> e in multiset(CompoundedYearlyReturns(rows, col));
    }
    DropNullsMembers(groups, e);
    AggregatedMember(rows, col, k, Some(e.compounded));
    ValuesOfNonEmpty(Keyed(rows, col), k);
    assert (exists r :: 0 <= r < |rows| && KeyOf(rows[r], col) == k) <==>
      (exists r :: 0 <= r < |rows| && rows[r].year == e.year && CategoryOf(rows[r].master, col) == Some(e.category));
    assert (exists r :: 0 <= r < |rows| && KeyOf(rows[r], col) == k) ==> GroupReturns(rows, col, e.year, e.category) != [] by {
      if exists r :: 0 <= r < |rows| && KeyOf(rows[r], col) == k {
        var r :| 0 <= r < |rows| && KeyOf(rows[r], col) == k;
        assert Keyed(rows, col)[r].0 == k;
      }
    }
  }

  /** Strictly before is irreflexive and asymmetric. */
  lemma YearCategoryLtAsymmetric(a: YearlyReturn, b: YearlyReturn)
    ensures YearCategoryLt(a, b) ==> !YearCategoryLt(b, a) && a != b
  {
    StrLtIrreflexive(a.category);
    if StrLt(a.category, b.category) {
      StrLtAsymmetric(a.category, b.category);
    }
  }

  /** Two strictly ascending tables with the same rows are the same table. */
  lemma {:induction false} StrictlyAscendingUnique(s: seq<YearlyReturn>, t: seq<YearlyReturn>)
    requires StrictlyAscending(s) && StrictlyAscending(t)
    requires forall e :: e in s <==> e in t
    ensures s == t
  {
    assert |s| == 0 || s[0] in t;
    assert |t| == 0 || t[0] in s;
    if s != [] && t != [] {
      assert s[0] == t[0] by {
        YearCategoryLtAsymmetric(s[0], t[0]);
        YearCategoryLtAsymmetric(t[0], s[0]);
      }
      forall e ensures e in s[1..] <==> e in t[1..] {
        YearCategoryLtAsymmetric(s[0], e);
        assert e in s[1..] <==> e in s && YearCategoryLt(s[0], e) by {
          assert forall i :: 0 < i < |s| ==> s[i] == s[1..][i - 1];
        }
        assert e in t[1..] <==> e in t && YearCategoryLt(t[0], e) by {
          assert forall i :: 0 < i < |t| ==> t[i] == t[1..][i - 1];
        }
      }
      StrictlyAscendingUnique(s[1..], t[1..]);
      assert s == [s[0]] + s[1..] && t == [t[0]] + t[1..];
    }
  }

  /** A permutation of the rows has a row of each (year, category) the rows have. */
  lemma SameGroups(rows: seq<ReturnRow>, others: seq<ReturnRow>, col: Category, y: int, c: string)
    requires multiset(rows) == multiset(others)
    ensures (exists r :: 0 <= r < |rows| && rows[r].year == y && CategoryOf(rows[r].master, col) == Some(c)) ==>
      (exists q :: 0 <= q < |others| && others[q].year == y && CategoryOf(others[q].master, col) == Some(c))
  {
    if exists r :: 0 <= r < |rows| && rows[r].year == y && CategoryOf(rows[r].master, col) == Some(c) {
      var r :| 0 <= r < |rows| && rows[r].year == y && CategoryOf(rows[r].master, col) == Some(c);
      assert rows[r] in multiset(others);
      var q :| 0 <= q < |others| && others[q] == rows[r];
    }
  }

  /** A permutation of the rows gives a yearly table with the same rows. */
  lemma SameYearlyRows(rows: seq<ReturnRow>, others: seq<ReturnRow>, col: Category, e: YearlyReturn)
    requires multiset(rows) == multiset(others)
    ensures e in CompoundedYearlyReturns(rows, col) <==> e in CompoundedYearlyReturns(others, col)
  {
    CompoundedYearlyReturnsMember(rows, col, e);
    CompoundedYearlyReturnsMember(others, col, e);
    MapPermutation(rows, others, (r: ReturnRow) => (KeyOf(r, col), r.dailyReturn));
    ValuesOfPermutation(Keyed(rows, col), Keyed(others, col), (e.year, Some(e.category)));
    CompoundPermutation(GroupReturns(rows, col, e.year, e.category), GroupReturns(others, col, e.year, e.category));
    SameGroups(rows, others, col, e.year, e.category);
    SameGroups(others, rows, col, e.year, e.category);
  }

  /**
   * The yearly table does not depend on the order of the input rows: within a group the
   * compounded return is the full product, and the table is sorted by unique keys.
   */
  lemma CompoundedYearlyReturnsPermutation(rows: seq<ReturnRow>, others: seq<ReturnRow>, col: Category)
    requires multiset(rows) == multiset(others)
    ensures CompoundedYearlyReturns(rows, col) == CompoundedYearlyReturns(others, col)
  {
    forall e ensures e in CompoundedYearlyReturns(rows, col) <==> e in CompoundedYearlyReturns(others, col) {
      SameYearlyRows(rows, others, col, e);
    }
    CompoundedYearlyReturnsAscending(rows, col);
    CompoundedYearlyReturnsAscending(others, col);
    StrictlyAscendingUnique(CompoundedYearlyReturns(rows, col), CompoundedYearlyReturns(others, col));
  }
}
