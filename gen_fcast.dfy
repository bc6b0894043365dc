/**
 * The report-row builder of gen_fcast.py: the `LAST_N` offset table, pandas'
 * positional row selection `iloc`, and the loop over every symbol and period
 * that collects one record per pair into `dfs`.
 */
module GenFcast {
  import opened Wrappers
  import opened Calendar

  /** The three bar granularities, in the order of `PERIODS`. */
  datatype Period = Daily | Weekly | Monthly

  const Periods: seq<Period> := [Daily, Weekly, Monthly]

  /** The instrument kinds `FUNC_MAPPING` dispatches on. */
  datatype Kind = FundEtf | AStock | HkStock

  /** One `SYMBOLS` entry: code, kind and display name. */
  datatype Symbol = Symbol(code: string, kind: Kind, name: string)

  /** `SYMBOLS`, in insertion order. */
  const Symbols: seq<Symbol> := [
    Symbol("01810", HkStock, "小米集团-W"),
    Symbol("512890", FundEtf, "红利低波ETF"),
    Symbol("600519", AStock, "贵州茅台")
  ]

  /** `ADJUST`: forward-adjusted prices. */
  const Adjust: string := "qfq"

  /**
   * One row of a fetched series after the indicator has been added: its
   * date (日期), close (收盘) and KDJ J value (J值).
   */
  datatype Bar = Bar(date: string, close: real, j: real)

  /**
   * One output record, with the columns 代码, 名称, 日期, 周期, 复权, 收盘, J值
   * in that order.
   */
  datatype Record = Record(code: string, name: string, date: string, period: Period,
                           adjust: string, close: real, j: real)

  /**
   * The data provider chosen by kind (`FUNC_MAPPING[type]`) followed by the
   * KDJ computation: the series for a code and a period.
   */
  type Fetch = (Kind, string, Period) -> seq<Bar>

  /**
   * The exceptions that end the run: `iloc` found no row at the offset, or
   * `pd.concat` was given no rows at all.
   */
  datatype RunError =
    | IndexError(code: string, period: Period)
    | NoObjectsToConcatenate

  /** `LAST_N[period]`: which row from the end a period takes. */
  function LastN(p: Period, lastDayOfWeek: bool, lastDayOfMonth: bool): (n: int)
    ensures n == -1 || n == -2
  {
    match p
    case Daily => -1
    case Weekly => if lastDayOfWeek then -1 else -2
    case Monthly => if lastDayOfMonth then -1 else -2
  }

  /**
   * The offsets chosen on `today`: the daily row is always the last one; the
   * weekly row is the last one exactly from Friday to Sunday; the monthly row
   * is the last one exactly when the next workday opens a new month other
   * than January.
   */
  lemma LastNOnDay(today: Date, p: Period)
    requires Valid(today)
    ensures LastN(p, LastDayOfWeek(today), LastDayOfMonth(today)) == -1 <==>
              match p
              case Daily => true
              case Weekly => Weekday(today) >= 4
              case Monthly => today.month < 12 && NextWorkday(today).month != today.month
  {
    LastDayOfWeekIff(today);
    LastDayOfMonthIff(today);
  }

  /**
   * `series.iloc[i]`: a non-negative position counts from the front, a
   * negative one from the back; any other position raises.
   */
  function ILoc<T>(s: seq<T>, i: int): (r: Option<T>)
    ensures r.Some? <==> -|s| <= i < |s|
    ensures r.Some? ==> r.value in s
  {
    if 0 <= i < |s| then Some(s[i])
    else if -|s| <= i < 0 then Some(s[|s| + i])
    else None
  }

  /**
   * With an offset from `LAST_N`, the selected row exists exactly when the
   * series has that many rows, and then it is the last row (offset -1) or
   * the one before it (offset -2).
   */
  lemma SelectedRow(series: seq<Bar>, p: Period, lastDayOfWeek: bool, lastDayOfMonth: bool)
    ensures var n := LastN(p, lastDayOfWeek, lastDayOfMonth);
            var r := ILoc(series, n);
            && (r.Some? <==> |series| >= -n)
            && (r.Some? && n == -1 ==> r.value == series[|series| - 1])
            && (r.Some? && n == -2 ==> r.value == series[|series| - 2])
  {
  }

  /** The record for one symbol and period, built from the selected row. */
  function RecordOf(sym: Symbol, p: Period, row: Bar): Record {
    Record(sym.code, sym.name, row.date, p, Adjust, row.close, row.j)
  }

  /** The symbol and period handled at step `k` of the nested loop. */
  function PairAt(symbols: seq<Symbol>, k: nat): (Symbol, Period)
    requires k < 3 * |symbols|
  {
    (symbols[k / 3], Periods[k % 3])
  }

  /** The row chosen at step `k`, or None when `iloc` raises there. */
  function RowAt(symbols: seq<Symbol>, fetch: Fetch, week: bool, month: bool, k: nat): Option<Bar>
    requires k < 3 * |symbols|
  {
    var (sym, p) := PairAt(symbols, k);
    ILoc(fetch(sym.kind, sym.code, p), LastN(p, week, month))
  }

  predicate AllSelectable(symbols: seq<Symbol>, fetch: Fetch, week: bool, month: bool) {
    forall k: nat :: k < 3 * |symbols| ==> RowAt(symbols, fetch, week, month, k).Some?
  }

  /** The records of a run in which every selection succeeds, step by step. */
  function Records(symbols: seq<Symbol>, fetch: Fetch, week: bool, month: bool): seq<Record>
    requires AllSelectable(symbols, fetch, week, month)
  {
    seq(3 * |symbols|, k requires 0 <= k < 3 * |symbols| =>
      RecordOf(PairAt(symbols, k).0, PairAt(symbols, k).1,
               RowAt(symbols, fetch, week, month, k).value))
  }

  /**
   * The record table has three rows per symbol, symbol-major in `SYMBOLS`
   * order and period-minor in daily, weekly, monthly order; each carries its
   * symbol's code and name, the adjustment `qfq`, and the date, close and J
   * value of the last or second-to-last row of its series.
   */
  lemma RecordsLayout(symbols: seq<Symbol>, fetch: Fetch, week: bool, month: bool, i: nat, j: nat)
    requires AllSelectable(symbols, fetch, week, month)
    requires i < |symbols| && j < 3
    ensures var rs := Records(symbols, fetch, week, month);
            var s := symbols[i];
            var p := Periods[j];
            var series := fetch(s.kind, s.code, p);
            var n := LastN(p, week, month);
            && |rs| == 3 * |symbols|
            && |series| >= -n
            && rs[3 * i + j] == Record(s.code, s.name, series[|series| + n].date, p, "qfq",
                                       series[|series| + n].close, series[|series| + n].j)
  {
    var k := 3 * i + j;
    assert k / 3 == i && k % 3 == j;
    assert RowAt(symbols, fetch, week, month, k).Some?;
  }

  /** `dfs` holds the records of the first `n` steps, each of which selected a row. */
  predicate DoneUpTo(symbols: seq<Symbol>, fetch: Fetch, week: bool, month: bool,
                     dfs: seq<Record>, n: nat)
  {
    && n <= 3 * |symbols| && |dfs| == n
    && forall m: nat :: m < n ==>
         && RowAt(symbols, fetch, week, month, m).Some?
         && dfs[m] == RecordOf(PairAt(symbols, m).0, PairAt(symbols, m).1,
                               RowAt(symbols, fetch, week, month, m).value)
  }

  /** Appending the record of a step that selected a row extends the prefix by one. */
  lemma DoneUpToStep(symbols: seq<Symbol>, fetch: Fetch, week: bool, month: bool,
                     dfs: seq<Record>, n: nat, row: Bar)
    requires DoneUpTo(symbols, fetch, week, month, dfs, n) && n < 3 * |symbols|
    requires RowAt(symbols, fetch, week, month, n) == Some(row)
    ensures DoneUpTo(symbols, fetch, week, month,
                     dfs + [RecordOf(PairAt(symbols, n).0, PairAt(symbols, n).1, row)], n + 1)
  {
  }

  /** Once every step is done, all selections succeeded and `dfs` is the record table. */
  lemma DoneUpToAll(symbols: seq<Symbol>, fetch: Fetch, week: bool, month: bool, dfs: seq<Record>)
    requires DoneUpTo(symbols, fetch, week, month, dfs, 3 * |symbols|)
    ensures AllSelectable(symbols, fetch, week, month)
    ensures dfs == Records(symbols, fetch, week, month)
  {
  }

  /**
   * The module-level run of gen_fcast.py on `today`: derive the flags and
   * offsets, then for each symbol in order and each period in order fetch
   * the series, select its row and append the record. The first selection
   * that raises ends the run with no table, and so does concatenating an
   * empty list of records.
   */
  method GenerateRecords(today: Date, symbols: seq<Symbol>, fetch: Fetch)
    returns (r: Result<seq<Record>, RunError>)
    requires Valid(today)
    ensures var week, month := LastDayOfWeek(today), LastDayOfMonth(today);
            r.Ok? <==> |symbols| > 0 && AllSelectable(symbols, fetch, week, month)
    ensures var week, month := LastDayOfWeek(today), LastDayOfMonth(today);
            r.Ok? ==> AllSelectable(symbols, fetch, week, month) &&
                      r.value == Records(symbols, fetch, week, month)
    ensures var week, month := LastDayOfWeek(today), LastDayOfMonth(today);
            r.Err? ==> (r.error == NoObjectsToConcatenate <==> symbols == [])
    ensures var week, month := LastDayOfWeek(today), LastDayOfMonth(today);
            r.Err? && r.error.IndexError? ==> exists k: nat ::
              && k < 3 * |symbols|
              && RowAt(symbols, fetch, week, month, k).None?
              && (forall m: nat :: m < k ==> RowAt(symbols, fetch, week, month, m).Some?)
              && r.error == IndexError(PairAt(symbols, k).0.code, PairAt(symbols, k).1)
  {
    var next := NextWorkdayLoop(today);
    var lastDayOfWeek := Weekday(next) == 0;
    var lastDayOfMonth := next.month == today.month + 1;
    var dfs: seq<Record> := [];
    var i := 0;
    while i < |symbols|
      invariant 0 <= i <= |symbols|
      invariant DoneUpTo(symbols, fetch, lastDayOfWeek, lastDayOfMonth, dfs, 3 * i)
    {
      var sym := symbols[i];
      var j := 0;
      while j < 3
        invariant 0 <= j <= 3
        invariant DoneUpTo(symbols, fetch, lastDayOfWeek, lastDayOfMonth, dfs, 3 * i + j)
      {
        var period := Periods[j];
        var series := fetch(sym.kind, sym.code, period);
        var row := ILoc(series, LastN(period, lastDayOfWeek, lastDayOfMonth));
        assert (3 * i + j) / 3 == i && (3 * i + j) % 3 == j;
        assert row == RowAt(symbols, fetch, lastDayOfWeek, lastDayOfMonth, 3 * i + j);
        if row.None? {
          return Err(IndexError(sym.code, period));
        }
        DoneUpToStep(symbols, fetch, lastDayOfWeek, lastDayOfMonth, dfs, 3 * i + j, row.value);
        dfs := dfs + [RecordOf(sym, period, row.value)];
        j := j + 1;
      }
      i := i + 1;
    }
    DoneUpToAll(symbols, fetch, lastDayOfWeek, lastDayOfMonth, dfs);
    if dfs == [] {
      return Err(NoObjectsToConcatenate);
    }
    r := Ok(dfs);
  }
}
