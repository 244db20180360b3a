/**
 * Loading and validating the per-ticker price tables, projecting the company list,
 * and left-joining each price table with the company metadata.
 *
 * A table here is a frame: its column names in order, and its rows, each mapping
 * every column name to a cell (`None` is null). Reading the CSV files is not part
 * of the model: a file is given as its stem and the frame read from it.
 */
module Preprocess {
  import opened Tables
  import opened Sequences

  type Row = map<string, Option<Value>>

  datatype Frame = Frame(columns: seq<string>, rows: seq<Row>)

  function ColumnSet(columns: seq<string>): set<string> {
    set c | c in columns
  }

  /** Column names differ and every row has a cell for each column and nothing else. */
  predicate WellFormed(f: Frame) {
    && Distinct(f.columns)
    && forall i :: 0 <= i < |f.rows| ==> f.rows[i].Keys == ColumnSet(f.columns)
  }

  /** The cells of column `c`, top to bottom. */
  function Column(f: Frame, c: string): (cells: seq<Option<Value>>)
    requires WellFormed(f) && c in f.columns
    ensures |cells| == |f.rows|
    ensures forall i :: 0 <= i < |f.rows| ==> cells[i] == f.rows[i][c]
  {
    seq(|f.rows|, i requires 0 <= i < |f.rows| => f.rows[i][c])
  }

  // ---------------------------------------------------------------------------
  // Validation of one price table
  // ---------------------------------------------------------------------------

  const Required: seq<string> := ["Date", "Open", "High", "Low", "Close", "Volume", "Ticker"]

  /** Why a table was rejected, one reason per check, in the order the checks run. */
  datatype Invalid = MissingColumns | NoTickerValues | DateNotSorted | NullsFound(count: nat)

  predicate HasRequired(f: Frame) {
    forall c :: c in Required ==> c in f.columns
  }

  /** The number of distinct cells of a column, null counting as one value. */
  function NUnique(cells: seq<Option<Value>>): nat {
    |set c | c in cells|
  }

  /** Cell order of an ascending sort with nulls first. */
  predicate CellLe(a: Option<Value>, b: Option<Value>) {
    match (a, b)
    case (None, _) => true
    case (Some(_), None) => false
    case (Some(x), Some(y)) => ValueLe(x, y)
  }

  /** Every cell is at most the next one: equal neighbours are allowed. */
  predicate IsSorted(cells: seq<Option<Value>>) {
    forall i :: 0 < i < |cells| ==> CellLe(cells[i - 1], cells[i])
  }

  /** The number of null cells in a column. */
  function NullsIn(cells: seq<Option<Value>>): nat {
    if cells == [] then 0 else NullsIn(cells[..|cells| - 1]) + (if cells[|cells| - 1].None? then 1 else 0)
  }

  /** The per-column null counts of the listed columns, summed. */
  function NullCount(f: Frame, columns: seq<string>): nat
    requires WellFormed(f) && forall c :: c in columns ==> c in f.columns
  {
    if columns == [] then 0
    else NullCount(f, columns[..|columns| - 1]) + NullsIn(Column(f, columns[|columns| - 1]))
  }

  /** No cell of any column is null. */
  predicate NoNulls(f: Frame)
    requires WellFormed(f)
  {
    forall i, c :: 0 <= i < |f.rows| && c in f.columns ==> f.rows[i][c].Some?
  }

  /**
   * The checks run on a loaded table, in order: the required columns are present
   * (others may be too), the ticker column has a value, the dates ascend, and no
   * cell is null. The first failing check is the reason for the rejection.
   */
  function Validate(f: Frame): (o: Outcome<Invalid>)
    requires WellFormed(f)
    ensures o == Fail(MissingColumns) <==> exists c :: c in Required && c !in f.columns
    ensures o == Fail(NoTickerValues) <==> HasRequired(f) && |f.rows| == 0
    ensures o == Fail(DateNotSorted) <==> HasRequired(f) && |f.rows| > 0 && !IsSorted(Column(f, "Date"))
    ensures o.Fail? && o.error.NullsFound? <==> HasRequired(f) && |f.rows| > 0 && IsSorted(Column(f, "Date")) && !NoNulls(f)
    ensures o == Pass <==> HasRequired(f) && |f.rows| > 0 && IsSorted(Column(f, "Date")) && NoNulls(f)
  {
    if !HasRequired(f) then Fail(MissingColumns)
    else if NUnique(Column(f, "Ticker")) < 1 then
      NUniquePositive(Column(f, "Ticker"));
      Fail(NoTickerValues)
    else if !IsSorted(Column(f, "Date")) then
      NUniquePositive(Column(f, "Ticker"));
      Fail(DateNotSorted)
    else
      var nulls := NullCount(f, f.columns);
      NUniquePositive(Column(f, "Ticker"));
      NullCountZero(f, f.columns);
      if nulls != 0 then Fail(NullsFound(nulls)) else Pass
  }

  lemma NUniquePositive(cells: seq<Option<Value>>)
    ensures NUnique(cells) >= 1 <==> |cells| >= 1
  {
    var values := set c | c in cells;
    if |cells| >= 1 {
      assert cells[0] in values;
    } else {
      assert values == {};
    }
  }

  lemma {:induction false} NullsInZero(cells: seq<Option<Value>>)
    ensures NullsIn(cells) == 0 <==> forall i :: 0 <= i < |cells| ==> cells[i].Some?
  {
    if cells != [] {
      var init := cells[..|cells| - 1];
      NullsInZero(init);
      assert forall i :: 0 <= i < |init| ==> init[i] == cells[i];
    }
  }

  /** The summed null count is zero exactly when the listed columns have no null cell. */
  lemma {:induction false} NullCountZero(f: Frame, columns: seq<string>)
    requires WellFormed(f) && forall c :: c in columns ==> c in f.columns
    ensures NullCount(f, columns) == 0 <==>
      forall i, c :: 0 <= i < |f.rows| && c in columns ==> f.rows[i][c].Some?
  {
    if columns != [] {
      var init := columns[..|columns| - 1];
      var last := columns[|columns| - 1];
      assert forall c :: c in columns <==> c in init || c == last;
      NullCountZero(f, init);
      var cells := Column(f, last);
      NullsInZero(cells);
      if NullCount(f, columns) == 0 {
        forall i, c | 0 <= i < |f.rows| && c in columns ensures f.rows[i][c].Some? {
          if c == last {
            assert cells[i] == f.rows[i][last];
          } else {
            assert c in init;
          }
        }
      } else if NullCount(f, init) == 0 {
        var i :| 0 <= i < |cells| && cells[i].None?;
        assert f.rows[i][last].None? && last in columns;
      } else {
        var i, c :| 0 <= i < |f.rows| && c in init && f.rows[i][c].None?;
        assert c in columns;
      }
    }
  }

  /** Equal neighbouring dates pass the order check; a later date before an earlier one fails it. */
  lemma DateOrderRejected(f: Frame, i: nat)
    requires WellFormed(f) && HasRequired(f)
    requires 0 < i < |f.rows| && f.rows[i - 1]["Date"].Some? && f.rows[i]["Date"].Some?
    requires !ValueLe(f.rows[i - 1]["Date"].value, f.rows[i]["Date"].value)
    ensures Validate(f) == Fail(DateNotSorted)
  {
    assert !CellLe(Column(f, "Date")[i - 1], Column(f, "Date")[i]);
  }

  // ---------------------------------------------------------------------------
  // Loading the price tables
  // ---------------------------------------------------------------------------

  /** `f` with column `name` set to `v` in every row: replaced if present, appended otherwise. */
  function WithLiteral(f: Frame, name: string, v: Option<Value>): (g: Frame)
    requires WellFormed(f)
    ensures WellFormed(g)
    ensures g.columns == if name in f.columns then f.columns else f.columns + [name]
    ensures |g.rows| == |f.rows|
    ensures forall i :: 0 <= i < |g.rows| ==> g.rows[i][name] == v
    ensures forall i, c :: 0 <= i < |g.rows| && c in f.columns && c != name ==> g.rows[i][c] == f.rows[i][c]
  {
    var columns := if name in f.columns then f.columns else f.columns + [name];
    assert ColumnSet(columns) == ColumnSet(f.columns) + {name};
    Frame(columns, seq(|f.rows|, i requires 0 <= i < |f.rows| => f.rows[i][name := v]))
  }

  /** A price file: its name without extension, and the table read from it. */
  datatype TickerFile = TickerFile(stem: string, frame: Frame)

  predicate AllWellFormed(files: seq<TickerFile>) {
    forall i :: 0 <= i < |files| ==> WellFormed(files[i].frame)
  }

  /** The file's table with every row stamped with the file's stem as its ticker. */
  function Stamped(file: TickerFile): (g: Frame)
    requires WellFormed(file.frame)
    ensures WellFormed(g) && |g.rows| == |file.frame.rows| && "Ticker" in g.columns
    ensures forall i :: 0 <= i < |g.rows| ==> g.rows[i]["Ticker"] == Some(Text(file.stem))
  {
    WithLiteral(file.frame, "Ticker", Some(Text(file.stem)))
  }

  /** A file is kept when its table is not empty and the stamped table validates. */
  predicate Accepted(file: TickerFile)
    requires WellFormed(file.frame)
  {
    |file.frame.rows| > 0 && Validate(Stamped(file)) == Pass
  }

  /** Whether each file is kept. */
  function Verdicts(files: seq<TickerFile>): (ok: seq<bool>)
    requires AllWellFormed(files)
    ensures |ok| == |files|
    ensures forall i :: 0 <= i < |files| ==> ok[i] == Accepted(files[i])
  {
    seq(|files|, i requires 0 <= i < |files| => Accepted(files[i]))
  }

  /** Each file's table, stamped with the file's stem. */
  function StampedAll(files: seq<TickerFile>): (gs: seq<Frame>)
    requires AllWellFormed(files)
    ensures |gs| == |files|
    ensures forall i :: 0 <= i < |files| ==> gs[i] == Stamped(files[i])
  {
    seq(|files|, i requires 0 <= i < |files| => Stamped(files[i]))
  }

  /** Every table is well formed and has a ticker column. */
  predicate AllHaveTicker(frames: seq<Frame>) {
    forall j :: 0 <= j < |frames| ==> WellFormed(frames[j]) && "Ticker" in frames[j].columns
  }

  /** The stamped tables of the accepted files, in file order. */
  function LoadedFrames(files: seq<TickerFile>): (dfs: seq<Frame>)
    requires AllWellFormed(files)
    ensures AllHaveTicker(dfs)
  {
    if files == [] then []
    else
      var n := |files| - 1;
      LoadedFrames(files[..n]) + if Accepted(files[n]) then [Stamped(files[n])] else []
  }

  /** The loaded tables are the stamped tables selected by the files' verdicts. */
  lemma {:induction false} LoadedFramesAsSelect(files: seq<TickerFile>)
    requires AllWellFormed(files)
    ensures LoadedFrames(files) == Select(StampedAll(files), Verdicts(files))
  {
    if files != [] {
      var n := |files| - 1;
      var stamped, verdicts := StampedAll(files), Verdicts(files);
      LoadedFramesAsSelect(files[..n]);
      assert stamped[..n] == StampedAll(files[..n]) by {
        assert forall i :: 0 <= i < n ==> files[..n][i] == files[i];
      }
      assert verdicts[..n] == Verdicts(files[..n]) by {
        assert forall i :: 0 <= i < n ==> files[..n][i] == files[i];
      }
      assert Select(stamped, verdicts) == Select(stamped[..n], verdicts[..n]) + if verdicts[n] then [stamped[n]] else [];
    }
  }

  /** Reads each file in turn, skipping empty tables and tables that fail validation. */
  method LoadTickers(files: seq<TickerFile>) returns (dfs: seq<Frame>)
    requires AllWellFormed(files)
    ensures dfs == LoadedFrames(files)
  {
    dfs := [];
    for i := 0 to |files|
      invariant dfs == LoadedFrames(files[..i])
    {
      assert files[..i + 1][..i] == files[..i];
      var file := files[i];
      if |file.frame.rows| == 0 {
        continue;
      }
      var df := WithLiteral(file.frame, "Ticker", Some(Text(file.stem)));
      var outcome := Validate(df);
      if outcome.Fail? {
        continue;
      }
      dfs := dfs + [df];
    }
    assert files[..|files|] == files;
  }

  /**
   * The loaded tables are exactly the stamped tables of the accepted files, in file
   * order: `idx` lists the positions of the accepted files, ascending.
   */
  lemma LoadedFramesSelect(files: seq<TickerFile>) returns (idx: seq<nat>)
    requires AllWellFormed(files)
    ensures |idx| == |LoadedFrames(files)|
    ensures forall j :: 0 <= j < |idx| ==> idx[j] < |files| && Accepted(files[idx[j]])
    ensures forall j :: 0 <= j < |idx| ==> LoadedFrames(files)[j] == Stamped(files[idx[j]])
    ensures forall j, k :: 0 <= j < k < |idx| ==> idx[j] < idx[k]
    ensures forall i :: 0 <= i < |files| && Accepted(files[i]) ==> i in idx
  {
    LoadedFramesAsSelect(files);
    idx := SelectIndices(StampedAll(files), Verdicts(files));
  }

  /** Every loaded table is non-empty, passes validation, and carries its file's stem in every ticker cell. */
  lemma LoadedFramesValid(files: seq<TickerFile>)
    requires AllWellFormed(files)
    ensures forall j :: 0 <= j < |LoadedFrames(files)| ==>
      var g := LoadedFrames(files)[j];
      WellFormed(g) && |g.rows| > 0 && Validate(g) == Pass &&
      exists i :: 0 <= i < |files| && forall r :: 0 <= r < |g.rows| ==> g.rows[r]["Ticker"] == Some(Text(files[i].stem))
  {
    var idx := LoadedFramesSelect(files);
    forall j | 0 <= j < |LoadedFrames(files)|
      ensures var g := LoadedFrames(files)[j];
        WellFormed(g) && |g.rows| > 0 && Validate(g) == Pass &&
        exists i :: 0 <= i < |files| && forall r :: 0 <= r < |g.rows| ==> g.rows[r]["Ticker"] == Some(Text(files[i].stem))
    {
      var i := idx[j];
      assert Accepted(files[i]);
    }
  }

  // ---------------------------------------------------------------------------
  // Company metadata and the join
  // ---------------------------------------------------------------------------

  /** What a table operation can raise. */
  datatype Error = ColumnNotFound(name: string) | DuplicateColumn

  /** The company list's columns, and the names the projection gives them. */
  const InfoSources: seq<string> := ["Symbol", "GICS Sector", "GICS Sub-Industry"]
  const InfoColumns: seq<string> := ["Ticker", "Sector", "Sub-Industry"]

  /**
   * Selects the symbol, sector and sub-industry of the company list under the names
   * `Ticker`, `Sector` and `Sub-Industry`, one row per company row.
   */
  function CompanyInfo(list: Frame): (r: Result<Frame, Error>)
    requires WellFormed(list)
    ensures r.Failure? <==> exists c :: c in InfoSources && c !in list.columns
    ensures r.Success? ==> WellFormed(r.value) && r.value.columns == InfoColumns
    ensures r.Success? ==> |r.value.rows| == |list.rows|
    ensures r.Success? ==> forall i, j :: 0 <= i < |list.rows| && 0 <= j < 3 ==>
      r.value.rows[i][InfoColumns[j]] == list.rows[i][InfoSources[j]]
  {
    if "Symbol" !in list.columns then Failure(ColumnNotFound("Symbol"))
    else if "GICS Sector" !in list.columns then Failure(ColumnNotFound("GICS Sector"))
    else if "GICS Sub-Industry" !in list.columns then Failure(ColumnNotFound("GICS Sub-Industry"))
    else
      assert ColumnSet(InfoColumns) == {"Ticker", "Sector", "Sub-Industry"};
      Success(Frame(InfoColumns, seq(|list.rows|, i requires 0 <= i < |list.rows| =>
        map["Ticker" := list.rows[i]["Symbol"],
            "Sector" := list.rows[i]["GICS Sector"],
            "Sub-Industry" := list.rows[i]["GICS Sub-Industry"]])))
  }

  /** The right table's columns other than the key, in order. */
  function OtherColumns(columns: seq<string>, key: string): (r: seq<string>)
    ensures forall c :: c in r <==> (c in columns && c != key)
  {
    if columns == [] then []
    else
      var n := |columns| - 1;
      OtherColumns(columns[..n], key) + (if columns[n] == key then [] else [columns[n]])
  }

  /** The name a right column takes in the result: suffixed `_right` when the left table has it. */
  function JoinedName(left: Frame, c: string): string {
    if c in left.columns then c + "_right" else c
  }

  function JoinedNames(left: Frame, sources: seq<string>): (names: seq<string>)
    ensures |names| == |sources|
    ensures forall j :: 0 <= j < |sources| ==> names[j] == JoinedName(left, sources[j])
  {
    seq(|sources|, j requires 0 <= j < |sources| => JoinedName(left, sources[j]))
  }

  /** The right rows whose key cell equals `v`, in order; a null key matches nothing. */
  function Matches(right: Frame, key: string, v: Option<Value>): (ms: seq<Row>)
    requires WellFormed(right) && key in right.columns
    ensures forall m :: m in ms ==> m in right.rows && m.Keys == ColumnSet(right.columns) && m[key] == v
    ensures v.None? ==> ms == []
    ensures v.Some? ==> forall p :: 0 <= p < |right.rows| && right.rows[p][key] == v ==> right.rows[p] in ms
    decreases |right.rows|
  {
    if v.None? || right.rows == [] then []
    else
      var init := Frame(right.columns, right.rows[..|right.rows| - 1]);
      var last := right.rows[|right.rows| - 1];
      assert forall p :: 0 <= p < |init.rows| ==> init.rows[p] == right.rows[p];
      Matches(init, key, v) + if last[key] == v then [last] else []
  }

  /**
   * Every right row whose key cell is the non-null `v` is matched, as many times as it
   * occurs; no other row is.
   */
  lemma {:induction false} MatchesCount(right: Frame, key: string, v: Option<Value>, m: Row)
    requires WellFormed(right) && key in right.columns
    ensures multiset(Matches(right, key, v))[m] == if v.Some? && key in m && m[key] == v then multiset(right.rows)[m] else 0
    decreases |right.rows|
  {
    if v.Some? && right.rows != [] {
      var n := |right.rows| - 1;
      var init := Frame(right.columns, right.rows[..n]);
      var last := right.rows[n];
      var tail := if last[key] == v then [last] else [];
      MatchesCount(init, key, v, m);
      CountSnoc(right.rows, m);
      assert multiset(Matches(right, key, v)) == multiset(Matches(init, key, v)) + multiset(tail);
      assert multiset(tail)[m] == if m == last && key in m && m[key] == v then 1 else 0;
    }
  }

  /** Nothing matches a null key, or a key no right row has. */
  lemma {:induction false} MatchesNone(right: Frame, key: string, v: Option<Value>)
    requires WellFormed(right) && key in right.columns
    requires v.None? || forall p :: 0 <= p < |right.rows| ==> right.rows[p][key] != v
    ensures Matches(right, key, v) == [] && FirstMatch(right, key, v).None?
    decreases |right.rows|
  {
    if v.Some? && right.rows != [] {
      var n := |right.rows| - 1;
      var init := Frame(right.columns, right.rows[..n]);
      assert forall p :: 0 <= p < n ==> init.rows[p] == right.rows[p];
      MatchesNone(init, key, v);
      assert right.rows[n][key] != v;
    }
  }

  /** A non-null key that exactly one right row has matches that row only. */
  lemma {:induction false} MatchesSingle(right: Frame, key: string, v: Option<Value>, p: nat)
    requires WellFormed(right) && key in right.columns && v.Some?
    requires p < |right.rows| && right.rows[p][key] == v
    requires forall q :: 0 <= q < |right.rows| && right.rows[q][key] == v ==> q == p
    ensures Matches(right, key, v) == [right.rows[p]] && FirstMatch(right, key, v) == Some(right.rows[p])
    decreases |right.rows|
  {
    var n := |right.rows| - 1;
    var init := Frame(right.columns, right.rows[..n]);
    assert forall q :: 0 <= q < n ==> init.rows[q] == right.rows[q];
    if p == n {
      MatchesNone(init, key, v);
    } else {
      MatchesSingle(init, key, v, p);
    }
  }

  /** The cells a right row gives the result: `names[j]` holds its `sources[j]` cell, or null without a match. */
  function RightCells(names: seq<string>, sources: seq<string>, m: Option<Row>): (cells: Row)
    requires |names| == |sources| && Distinct(names)
    requires m.Some? ==> forall c :: c in sources ==> c in m.value
    ensures cells.Keys == ColumnSet(names)
    ensures forall j :: 0 <= j < |names| ==> cells[names[j]] == if m.Some? then m.value[sources[j]] else None
  {
    map j | 0 <= j < |names| :: names[j] := if m.Some? then m.value[sources[j]] else None
  }

  /** What the join needs of the right table: the key, the source columns, and distinct result names for them. */
  ghost predicate RightArgs(right: Frame, key: string, names: seq<string>, sources: seq<string>) {
    && WellFormed(right) && key in right.columns
    && |names| == |sources| && Distinct(names)
    && (forall c :: c in sources ==> c in right.columns)
  }

  /** What the join needs of a left row: a key cell, and none of the result names. */
  ghost predicate LeftRowArgs(l: Row, key: string, names: seq<string>) {
    key in l && forall c :: c in names ==> c !in l
  }

  ghost predicate JoinArgs(lefts: seq<Row>, right: Frame, key: string, names: seq<string>, sources: seq<string>) {
    RightArgs(right, key, names, sources) && forall i :: 0 <= i < |lefts| ==> LeftRowArgs(lefts[i], key, names)
  }

  /** The first right row whose key cell equals `v`, if any. */
  function FirstMatch(right: Frame, key: string, v: Option<Value>): (m: Option<Row>)
    requires WellFormed(right) && key in right.columns
    ensures m.None? <==> Matches(right, key, v) == []
    ensures m.Some? ==> m.value == Matches(right, key, v)[0] && m.value in right.rows && m.value[key] == v
    ensures m.Some? ==> m.value.Keys == ColumnSet(right.columns)
  {
    var ms := Matches(right, key, v);
    if ms == [] then None else assert ms[0] in ms; Some(ms[0])
  }

  /** Left row `l` extended by the cells of its first match, or by nulls when nothing matches. */
  function JoinedRow(l: Row, right: Frame, key: string, names: seq<string>, sources: seq<string>): Row
    requires RightArgs(right, key, names, sources) && LeftRowArgs(l, key, names)
  {
    l + RightCells(names, sources, FirstMatch(right, key, l[key]))
  }

  /** The result rows one left row contributes: one per match, or one with nulls when nothing matches. */
  function JoinBlock(l: Row, right: Frame, key: string, names: seq<string>, sources: seq<string>): (b: seq<Row>)
    requires RightArgs(right, key, names, sources) && LeftRowArgs(l, key, names)
    ensures |b| == if Matches(right, key, l[key]) == [] then 1 else |Matches(right, key, l[key])|
    ensures Matches(right, key, l[key]) == [] ==> b == [l + RightCells(names, sources, None)]
    ensures forall j :: 0 <= j < |Matches(right, key, l[key])| ==>
      b[j] == l + RightCells(names, sources, Some(Matches(right, key, l[key])[j]))
  {
    var ms := Matches(right, key, l[key]);
    if ms == [] then [l + RightCells(names, sources, None)]
    else seq(|ms|, j requires 0 <= j < |ms| => l + RightCells(names, sources, Some(ms[j])))
  }

  /** `JoinBlock` as a function of the left row. */
  function BlockOf(right: Frame, key: string, names: seq<string>, sources: seq<string>): Row --> seq<Row> {
    l requires RightArgs(right, key, names, sources) && LeftRowArgs(l, key, names) => JoinBlock(l, right, key, names, sources)
  }

  /** The blocks of all left rows, in left-row order. */
  function JoinRows(lefts: seq<Row>, right: Frame, key: string, names: seq<string>, sources: seq<string>): (rs: seq<Row>)
    requires JoinArgs(lefts, right, key, names, sources)
    ensures |rs| >= |lefts|
  {
    var f := BlockOf(right, key, names, sources);
    FlatMapLength(lefts, f);
    FlatMap(lefts, f)
  }

  /**
   * `left.join(right, on=key, how="left")`: the left rows in order, each followed by the
   * right table's other columns taken from each matching right row.
   */
  function LeftJoin(left: Frame, right: Frame, key: string): (r: Result<Frame, Error>)
    requires WellFormed(left) && WellFormed(right)
    ensures r.Failure? <==> (key !in left.columns || key !in right.columns ||
      !Distinct(left.columns + JoinedNames(left, OtherColumns(right.columns, key))))
    ensures r.Success? ==> WellFormed(r.value) && |r.value.rows| >= |left.rows|
    ensures r.Success? ==> r.value.columns == left.columns + JoinedNames(left, OtherColumns(right.columns, key))
  {
    if key !in left.columns || key !in right.columns then Failure(ColumnNotFound(key))
    else
      var sources := OtherColumns(right.columns, key);
      var names := JoinedNames(left, sources);
      var columns := left.columns + names;
      if !Distinct(columns) then Failure(DuplicateColumn)
      else
        JoinArgsHold(left, right, key);
        var rows := JoinRows(left.rows, right, key, names, sources);
        JoinRowsKeys(left, right, key, names, sources, left.rows);
        Success(Frame(columns, rows))
  }

  lemma JoinArgsHold(left: Frame, right: Frame, key: string)
    requires WellFormed(left) && WellFormed(right) && key in left.columns && key in right.columns
    requires Distinct(left.columns + JoinedNames(left, OtherColumns(right.columns, key)))
    ensures JoinArgs(left.rows, right, key, JoinedNames(left, OtherColumns(right.columns, key)), OtherColumns(right.columns, key))
  {
    var names := JoinedNames(left, OtherColumns(right.columns, key));
    DistinctConcat(left.columns, names);
  }

  lemma DistinctConcat(a: seq<string>, b: seq<string>)
    requires Distinct(a + b)
    ensures Distinct(b)
    ensures forall x :: x in a ==> x !in b
  {
    forall i, j | 0 <= i < |a| && 0 <= j < |b| ensures a[i] != b[j] {
      assert (a + b)[i] == a[i] && (a + b)[|a| + j] == b[j];
    }
    forall i, j | 0 <= i < j < |b| ensures b[i] != b[j] {
      assert (a + b)[|a| + i] == b[i] && (a + b)[|a| + j] == b[j];
    }
  }

  /** Every row of a left row's block has the left row's columns and the result names. */
  lemma JoinBlockKeys(l: Row, right: Frame, key: string, names: seq<string>, sources: seq<string>, r: Row)
    requires RightArgs(right, key, names, sources) && LeftRowArgs(l, key, names)
    requires r in JoinBlock(l, right, key, names, sources)
    ensures r.Keys == l.Keys + ColumnSet(names)
  {
  }

  lemma JoinRowsKeys(left: Frame, right: Frame, key: string, names: seq<string>, sources: seq<string>, lefts: seq<Row>)
    requires JoinArgs(lefts, right, key, names, sources)
    requires forall i :: 0 <= i < |lefts| ==> lefts[i].Keys == ColumnSet(left.columns)
    ensures forall r :: r in JoinRows(lefts, right, key, names, sources) ==> r.Keys == ColumnSet(left.columns + names)
  {
    assert ColumnSet(left.columns + names) == ColumnSet(left.columns) + ColumnSet(names);
    forall r | r in JoinRows(lefts, right, key, names, sources) ensures r.Keys == ColumnSet(left.columns + names) {
      var i := FlatMapMember(lefts, BlockOf(right, key, names, sources), r);
      JoinBlockKeys(lefts[i], right, key, names, sources, r);
    }
  }

  /** A left row's block starts with the row extended by a cell for each right column. */
  lemma JoinBlockHead(l: Row, right: Frame, key: string, names: seq<string>, sources: seq<string>) returns (extra: Row)
    requires RightArgs(right, key, names, sources) && LeftRowArgs(l, key, names)
    ensures extra.Keys == ColumnSet(names) && JoinBlock(l, right, key, names, sources)[0] == l + extra
  {
    extra := RightCells(names, sources, FirstMatch(right, key, l[key]));
  }

  /** Some result row of left row `i` extends it with a cell for each right column. */
  lemma JoinRowsPosition(lefts: seq<Row>, right: Frame, key: string, names: seq<string>, sources: seq<string>, i: nat)
    returns (p: nat, extra: Row)
    requires JoinArgs(lefts, right, key, names, sources) && i < |lefts|
    ensures p < |JoinRows(lefts, right, key, names, sources)|
    ensures extra.Keys == ColumnSet(names) && JoinRows(lefts, right, key, names, sources)[p] == lefts[i] + extra
  {
    extra := JoinBlockHead(lefts[i], right, key, names, sources);
    p := FlatMapFirst(lefts, BlockOf(right, key, names, sources), i);
  }

  /** The join keeps every left row: each one's cells appear, unchanged, in some result row. */
  lemma LeftJoinKeepsRows(left: Frame, right: Frame, key: string, i: nat)
    requires WellFormed(left) && WellFormed(right) && LeftJoin(left, right, key).Success? && i < |left.rows|
    ensures exists p :: (0 <= p < |LeftJoin(left, right, key).value.rows| &&
      forall c :: c in left.columns ==> LeftJoin(left, right, key).value.rows[p][c] == left.rows[i][c])
  {
    var sources := OtherColumns(right.columns, key);
    var names := JoinedNames(left, sources);
    JoinArgsHold(left, right, key);
    var p, extra := JoinRowsPosition(left.rows, right, key, names, sources, i);
    DistinctConcat(left.columns, names);
  }

  /** A successful join's rows are the blocks of the left rows. */
  lemma LeftJoinRows(left: Frame, right: Frame, key: string)
    requires WellFormed(left) && WellFormed(right) && LeftJoin(left, right, key).Success?
    ensures key in left.columns && key in right.columns
    ensures JoinArgs(left.rows, right, key, JoinedNames(left, OtherColumns(right.columns, key)), OtherColumns(right.columns, key))
    ensures forall c :: c in left.columns ==> c !in JoinedNames(left, OtherColumns(right.columns, key))
    ensures LeftJoin(left, right, key).value.rows ==
      JoinRows(left.rows, right, key, JoinedNames(left, OtherColumns(right.columns, key)), OtherColumns(right.columns, key))
  {
    JoinArgsHold(left, right, key);
    DistinctConcat(left.columns, JoinedNames(left, OtherColumns(right.columns, key)));
  }

  /** `LeftJoinOneMatch` in terms of the matches: each left row has its first match's cells, or nulls. */
  lemma LeftJoinAtMostOneMatch(left: Frame, right: Frame, key: string)
    requires WellFormed(left) && WellFormed(right) && LeftJoin(left, right, key).Success?
    requires forall i :: 0 <= i < |left.rows| ==> |Matches(right, key, left.rows[i][key])| <= 1
    ensures |LeftJoin(left, right, key).value.rows| == |left.rows|
    ensures forall i, c :: 0 <= i < |left.rows| && c in left.columns ==>
      LeftJoin(left, right, key).value.rows[i][c] == left.rows[i][c]
    ensures forall i, j :: 0 <= i < |left.rows| && 0 <= j < |OtherColumns(right.columns, key)| ==>
      var m := FirstMatch(right, key, left.rows[i][key]);
      LeftJoin(left, right, key).value.rows[i][JoinedName(left, OtherColumns(right.columns, key)[j])] ==
        if m.None? then None else m.value[OtherColumns(right.columns, key)[j]]
  {
    var sources := OtherColumns(right.columns, key);
    var names := JoinedNames(left, sources);
    LeftJoinRows(left, right, key);
    JoinRowsOneMatch(left.rows, right, key, names, sources);
    forall i, j | 0 <= i < |left.rows| && 0 <= j < |sources|
      ensures JoinedRow(left.rows[i], right, key, names, sources)[names[j]] ==
        var m := FirstMatch(right, key, left.rows[i][key]);
        if m.None? then None else m.value[sources[j]]
    {
      JoinedRowCells(left.rows[i], right, key, names, sources, j);
    }
    forall i, c | 0 <= i < |left.rows| && c in left.columns
      ensures JoinedRow(left.rows[i], right, key, names, sources)[c] == left.rows[i][c]
    {
      assert c in left.rows[i];
      JoinedRowKeeps(left.rows[i], right, key, names, sources, c);
    }
  }

  /**
   * When no two right rows share a non-null key of a left row, the result has the left
   * rows in order, one each. A row whose key is null or that no right row has gets
   * nulls in the right columns; a row whose key right row `p` has gets `p`'s cells.
   */
  lemma LeftJoinOneMatch(left: Frame, right: Frame, key: string)
    requires WellFormed(left) && WellFormed(right) && LeftJoin(left, right, key).Success?
    requires key in left.columns && key in right.columns
    requires forall i, p, q ::
      (0 <= i < |left.rows| && 0 <= p < |right.rows| && 0 <= q < |right.rows| && left.rows[i][key].Some? &&
       right.rows[p][key] == left.rows[i][key] && right.rows[q][key] == left.rows[i][key]) ==> p == q
    ensures |LeftJoin(left, right, key).value.rows| == |left.rows|
    ensures forall i, c :: 0 <= i < |left.rows| && c in left.columns ==>
      LeftJoin(left, right, key).value.rows[i][c] == left.rows[i][c]
    ensures forall i, j ::
      (0 <= i < |left.rows| && 0 <= j < |OtherColumns(right.columns, key)| &&
       (left.rows[i][key].None? || forall p :: 0 <= p < |right.rows| ==> right.rows[p][key] != left.rows[i][key])) ==>
      LeftJoin(left, right, key).value.rows[i][JoinedName(left, OtherColumns(right.columns, key)[j])] == None
    ensures forall i, j, p ::
      (0 <= i < |left.rows| && 0 <= j < |OtherColumns(right.columns, key)| && 0 <= p < |right.rows| &&
       left.rows[i][key].Some? && right.rows[p][key] == left.rows[i][key]) ==>
      LeftJoin(left, right, key).value.rows[i][JoinedName(left, OtherColumns(right.columns, key)[j])] ==
        right.rows[p][OtherColumns(right.columns, key)[j]]
  {
    forall i | 0 <= i < |left.rows| ensures |Matches(right, key, left.rows[i][key])| <= 1 {
      OneMatchOrNone(left, right, key, i);
    }
    LeftJoinAtMostOneMatch(left, right, key);
    forall i, p | 0 <= i < |left.rows| && 0 <= p < |right.rows| &&
      left.rows[i][key].Some? && right.rows[p][key] == left.rows[i][key]
      ensures FirstMatch(right, key, left.rows[i][key]) == Some(right.rows[p])
    {
      MatchesSingle(right, key, left.rows[i][key], p);
    }
    forall i | 0 <= i < |left.rows| &&
      (left.rows[i][key].None? || forall p :: 0 <= p < |right.rows| ==> right.rows[p][key] != left.rows[i][key])
      ensures FirstMatch(right, key, left.rows[i][key]).None?
    {
      MatchesNone(right, key, left.rows[i][key]);
    }
  }

  /** Under the uniqueness of right keys, each left row has at most one match. */
  lemma OneMatchOrNone(left: Frame, right: Frame, key: string, i: nat)
    requires WellFormed(left) && WellFormed(right) && key in left.columns && key in right.columns && i < |left.rows|
    requires forall i, p, q ::
      (0 <= i < |left.rows| && 0 <= p < |right.rows| && 0 <= q < |right.rows| && left.rows[i][key].Some? &&
       right.rows[p][key] == left.rows[i][key] && right.rows[q][key] == left.rows[i][key]) ==> p == q
    ensures |Matches(right, key, left.rows[i][key])| <= 1
  {
    var v := left.rows[i][key];
    if v.Some? && exists p :: 0 <= p < |right.rows| && right.rows[p][key] == v {
      var p :| 0 <= p < |right.rows| && right.rows[p][key] == v;
      MatchesSingle(right, key, v, p);
    } else {
      MatchesNone(right, key, v);
    }
  }

  /** Result name `names[j]` of a joined row holds source column `sources[j]` of the first match, or null. */
  lemma JoinedRowCells(l: Row, right: Frame, key: string, names: seq<string>, sources: seq<string>, j: nat)
    requires RightArgs(right, key, names, sources) && LeftRowArgs(l, key, names) && j < |names|
    ensures JoinedRow(l, right, key, names, sources)[names[j]] ==
      var m := FirstMatch(right, key, l[key]);
      if m.None? then None else m.value[sources[j]]
  {
    var m := FirstMatch(right, key, l[key]);
    var cells := RightCells(names, sources, m);
    assert names[j] in cells;
  }

  /** A joined row keeps the cells of the left row. */
  lemma JoinedRowKeeps(l: Row, right: Frame, key: string, names: seq<string>, sources: seq<string>, c: string)
    requires RightArgs(right, key, names, sources) && LeftRowArgs(l, key, names) && c in l
    ensures JoinedRow(l, right, key, names, sources)[c] == l[c]
  {
    var cells := RightCells(names, sources, FirstMatch(right, key, l[key]));
    assert c !in cells;
  }

  /** A left row with at most one match contributes exactly its joined row. */
  lemma JoinBlockOne(l: Row, right: Frame, key: string, names: seq<string>, sources: seq<string>)
    requires RightArgs(right, key, names, sources) && LeftRowArgs(l, key, names)
    requires |Matches(right, key, l[key])| <= 1
    ensures JoinBlock(l, right, key, names, sources) == [JoinedRow(l, right, key, names, sources)]
  {
  }

  lemma JoinRowsOneMatch(lefts: seq<Row>, right: Frame, key: string, names: seq<string>, sources: seq<string>)
    requires JoinArgs(lefts, right, key, names, sources)
    requires forall i :: 0 <= i < |lefts| ==> |Matches(right, key, lefts[i][key])| <= 1
    ensures |JoinRows(lefts, right, key, names, sources)| == |lefts|
    ensures forall i :: 0 <= i < |lefts| ==>
      JoinRows(lefts, right, key, names, sources)[i] == JoinedRow(lefts[i], right, key, names, sources)
  {
    forall i | 0 <= i < |lefts| ensures |JoinBlock(lefts[i], right, key, names, sources)| == 1 {
      JoinBlockOne(lefts[i], right, key, names, sources);
    }
    FlatMapSingles(lefts, BlockOf(right, key, names, sources));
    forall i | 0 <= i < |lefts|
      ensures JoinRows(lefts, right, key, names, sources)[i] == JoinedRow(lefts[i], right, key, names, sources)
    {
      JoinBlockOne(lefts[i], right, key, names, sources);
    }
  }

  // ---------------------------------------------------------------------------
  // Joining every loaded table with the company metadata
  // ---------------------------------------------------------------------------

  /** A written master file: the ticker it is named after, and its table. */
  datatype MasterFile = MasterFile(ticker: Option<Value>, frame: Frame)

  /** The first cell of column `c`, null when the table is empty. */
  function First(f: Frame, c: string): (cell: Option<Value>)
    requires WellFormed(f) && c in f.columns
    ensures |f.rows| == 0 ==> cell.None?
    ensures |f.rows| > 0 ==> cell == Column(f, c)[0]
  {
    if f.rows == [] then None else f.rows[0][c]
  }

  /**
   * The files the loop writes, in table order, and the error that ends it early: a
   * failing join raises, so the tables after it are never written.
   */
  function JoinAll(frames: seq<Frame>, info: Frame): (r: (seq<MasterFile>, Option<Error>))
    requires AllHaveTicker(frames) && WellFormed(info)
    ensures |r.0| <= |frames|
    ensures r.1.None? ==> |r.0| == |frames|
  {
    if frames == [] then ([], None)
    else
      var joined := LeftJoin(frames[0], info, "Ticker");
      if joined.Failure? then ([], Some(joined.error))
      else
        var rest := JoinAll(frames[1..], info);
        ([MasterFile(First(frames[0], "Ticker"), joined.value)] + rest.0, rest.1)
  }

  /** The loop of the join: joins each table with `info` and records the file written for it. */
  method SaveAll(tickerDfs: seq<Frame>, info: Frame) returns (saved: seq<MasterFile>, err: Option<Error>)
    requires AllHaveTicker(tickerDfs) && WellFormed(info)
    ensures saved == JoinAll(tickerDfs, info).0 && err == JoinAll(tickerDfs, info).1
  {
    saved, err := [], None;
    assert tickerDfs[0..] == tickerDfs && [] + JoinAll(tickerDfs, info).0 == JoinAll(tickerDfs, info).0;
    for i := 0 to |tickerDfs|
      invariant JoinAll(tickerDfs, info).0 == saved + JoinAll(tickerDfs[i..], info).0
      invariant JoinAll(tickerDfs, info).1 == JoinAll(tickerDfs[i..], info).1
      invariant err.None?
    {
      assert tickerDfs[i..][1..] == tickerDfs[i + 1..] && tickerDfs[i..][0] == tickerDfs[i];
      var df := tickerDfs[i];
      var ticker := First(df, "Ticker");
      var joined := LeftJoin(df, info, "Ticker");
      if joined.Failure? {
        assert JoinAll(tickerDfs[i..], info) == ([], Some(joined.error));
        return saved, Some(joined.error);
      }
      saved := saved + [MasterFile(ticker, joined.value)];
    }
    assert tickerDfs[|tickerDfs|..] == [];
  }

  /**
   * Loads the price tables, projects the company list, and joins each table with it,
   * producing one master file per table named after the table's first ticker.
   */
  method JoinAndSave(files: seq<TickerFile>, list: Frame) returns (saved: seq<MasterFile>, err: Option<Error>)
    requires AllWellFormed(files) && WellFormed(list)
    ensures CompanyInfo(list).Failure? ==> saved == [] && err == Some(CompanyInfo(list).error)
    ensures CompanyInfo(list).Success? ==>
      saved == JoinAll(LoadedFrames(files), CompanyInfo(list).value).0 && err == JoinAll(LoadedFrames(files), CompanyInfo(list).value).1
  {
    var tickerDfs := LoadTickers(files);
    var info := CompanyInfo(list);
    if info.Failure? {
      return [], Some(info.error);
    }
    saved, err := SaveAll(tickerDfs, info.value);
  }

  /**
   * The loop writes the tables' files in order until a join fails: it ends without an
   * error exactly when every join succeeds, and otherwise with the error of the first
   * failing join, having written the files of the tables before it.
   */
  lemma JoinAllStopsAtFirstError(frames: seq<Frame>, info: Frame)
    requires AllHaveTicker(frames) && WellFormed(info)
    ensures JoinAll(frames, info).1.None? <==> forall j :: 0 <= j < |frames| ==> LeftJoin(frames[j], info, "Ticker").Success?
    ensures forall j :: 0 <= j < |JoinAll(frames, info).0| ==>
      LeftJoin(frames[j], info, "Ticker").Success? &&
      JoinAll(frames, info).0[j] == MasterFile(First(frames[j], "Ticker"), LeftJoin(frames[j], info, "Ticker").value)
    ensures JoinAll(frames, info).1.Some? ==>
      |JoinAll(frames, info).0| < |frames| &&
      LeftJoin(frames[|JoinAll(frames, info).0|], info, "Ticker") == Failure(JoinAll(frames, info).1.value)
  {
    var r := JoinAll(frames, info);
    if r.1.Some? {
      JoinAllError(frames, info);
    }
    forall j | 0 <= j < |frames| && LeftJoin(frames[j], info, "Ticker").Failure? ensures r.1.Some? {
      JoinAllFails(frames, info, j);
    }
    forall j | 0 <= j < |r.0|
      ensures LeftJoin(frames[j], info, "Ticker").Success?
      ensures r.0[j] == MasterFile(First(frames[j], "Ticker"), LeftJoin(frames[j], info, "Ticker").value)
    {
      JoinAllSaved(frames, info, j);
    }
  }

  /** The `j`-th written file is the join of the `j`-th table, which succeeded. */
  lemma {:induction false} JoinAllSaved(frames: seq<Frame>, info: Frame, j: nat)
    requires AllHaveTicker(frames) && WellFormed(info) && j < |JoinAll(frames, info).0|
    ensures LeftJoin(frames[j], info, "Ticker").Success?
    ensures JoinAll(frames, info).0[j] == MasterFile(First(frames[j], "Ticker"), LeftJoin(frames[j], info, "Ticker").value)
  {
    var tail := frames[1..];
    assert AllHaveTicker(tail);
    if j > 0 {
      JoinAllSaved(tail, info, j - 1);
      assert tail[j - 1] == frames[j];
    }
  }

  /** A failing join ends the loop with an error. */
  lemma {:induction false} JoinAllFails(frames: seq<Frame>, info: Frame, j: nat)
    requires AllHaveTicker(frames) && WellFormed(info) && j < |frames|
    requires LeftJoin(frames[j], info, "Ticker").Failure?
    ensures JoinAll(frames, info).1.Some?
  {
    var tail := frames[1..];
    assert AllHaveTicker(tail);
    if j > 0 && LeftJoin(frames[0], info, "Ticker").Success? {
      assert tail[j - 1] == frames[j];
      JoinAllFails(tail, info, j - 1);
    }
  }

  /** An error is the error of the join of the table right after the written ones. */
  lemma {:induction false} JoinAllError(frames: seq<Frame>, info: Frame)
    requires AllHaveTicker(frames) && WellFormed(info) && JoinAll(frames, info).1.Some?
    ensures |JoinAll(frames, info).0| < |frames|
    ensures LeftJoin(frames[|JoinAll(frames, info).0|], info, "Ticker") == Failure(JoinAll(frames, info).1.value)
  {
    var tail := frames[1..];
    assert AllHaveTicker(tail);
    if LeftJoin(frames[0], info, "Ticker").Success? {
      JoinAllError(tail, info);
      var k := |JoinAll(tail, info).0|;
      assert |JoinAll(frames, info).0| == k + 1 && JoinAll(frames, info).1 == JoinAll(tail, info).1;
      assert tail[k] == frames[k + 1];
    }
  }

  /** The columns the price files are read with. */
  const PriceColumns: seq<string> := ["Date", "Close", "High", "Low", "Open", "Volume"]

  /** A stamped price table joins with the company metadata, gaining `Sector` and `Sub-Industry`. */
  lemma JoinPriceFrame(g: Frame, info: Frame)
    requires WellFormed(g) && "Ticker" in g.columns
    requires forall c :: c in g.columns ==> c in PriceColumns || c == "Ticker"
    requires WellFormed(info) && info.columns == InfoColumns
    ensures LeftJoin(g, info, "Ticker").Success?
    ensures LeftJoin(g, info, "Ticker").value.columns == g.columns + ["Sector", "Sub-Industry"]
  {
    var sources := OtherColumns(info.columns, "Ticker");
    assert sources == ["Sector", "Sub-Industry"] by {
      assert InfoColumns[..2] == ["Ticker", "Sector"] && InfoColumns[..2][..1] == ["Ticker"] && ["Ticker"][..0] == [];
      assert OtherColumns(["Ticker"], "Ticker") == [];
      assert OtherColumns(["Ticker", "Sector"], "Ticker") == ["Sector"];
    }
    assert JoinedNames(g, sources) == ["Sector", "Sub-Industry"];
    var columns := g.columns + ["Sector", "Sub-Industry"];
    forall a, b | 0 <= a < b < |columns| ensures columns[a] != columns[b] {
      if b >= |g.columns| {
        assert columns[b] in ["Sector", "Sub-Industry"];
        if a < |g.columns| {
          assert columns[a] in g.columns;
        }
      }
    }
  }

  /**
   * When the company list has its three columns and every price table has only price
   * columns, no join fails: there is one master file per loaded table, named after the
   * stem of an accepted file, holding that table's columns followed by `Sector` and
   * `Sub-Industry`.
   */
  lemma JoinAndSavePriceFiles(files: seq<TickerFile>, list: Frame)
    requires AllWellFormed(files) && WellFormed(list) && CompanyInfo(list).Success?
    requires forall i, c :: 0 <= i < |files| && c in files[i].frame.columns ==> c in PriceColumns
    ensures JoinAll(LoadedFrames(files), CompanyInfo(list).value).1.None?
    ensures |JoinAll(LoadedFrames(files), CompanyInfo(list).value).0| == |LoadedFrames(files)|
    ensures forall j :: 0 <= j < |LoadedFrames(files)| ==>
      var saved := JoinAll(LoadedFrames(files), CompanyInfo(list).value).0[j];
      && saved.frame.columns == LoadedFrames(files)[j].columns + ["Sector", "Sub-Industry"]
      && exists i :: 0 <= i < |files| && Accepted(files[i]) && saved.ticker == Some(Text(files[i].stem))
  {
    var frames := LoadedFrames(files);
    var info := CompanyInfo(list).value;
    var idx := LoadedFramesSelect(files);
    forall j | 0 <= j < |frames|
      ensures LeftJoin(frames[j], info, "Ticker").Success?
      ensures LeftJoin(frames[j], info, "Ticker").value.columns == frames[j].columns + ["Sector", "Sub-Industry"]
      ensures First(frames[j], "Ticker") == Some(Text(files[idx[j]].stem))
    {
      var file := files[idx[j]];
      assert frames[j] == Stamped(file);
      JoinPriceFrame(frames[j], info);
    }
    JoinAllStopsAtFirstError(frames, info);
  }
}
