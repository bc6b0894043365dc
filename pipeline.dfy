/**
 * The two scripts together: the records gen_fcast.py writes, read back and
 * pivoted by fcast2md.py.
 */
module Pipeline {
  import opened Wrappers
  import opened GenFcast
  import opened Fcast2Md

  predicate DistinctCodes(symbols: seq<Symbol>) {
    forall a, b :: 0 <= a < b < |symbols| ==> symbols[a].code != symbols[b].code
  }

  lemma SymbolsDistinct()
    ensures DistinctCodes(Symbols)
  {
  }

  /** Every third position is kept, and nothing else. */
  lemma {:induction false} SelectEveryThird(n: nat, keep: nat -> bool)
    requires forall k: nat :: k < n ==> (keep(k) <==> k % 3 == 0)
    ensures Select(n, keep) == seq((n + 2) / 3, a requires 0 <= a => 3 * a)
  {
    if n > 0 {
      SelectEveryThird(n - 1, keep);
    }
  }

  /** Records laid out symbol-major and period-minor over `symbols`. */
  predicate LaidOut(rows: seq<Record>, symbols: seq<Symbol>) {
    && |rows| == 3 * |symbols|
    && forall k :: 0 <= k < |rows| ==>
         Key(rows[k]) == (symbols[k / 3].code, symbols[k / 3].name) && rows[k].period == Periods[k % 3]
  }

  lemma RecordsLaidOut(symbols: seq<Symbol>, fetch: Fetch, week: bool, month: bool)
    requires AllSelectable(symbols, fetch, week, month)
    ensures LaidOut(Records(symbols, fetch, week, month), symbols)
  {
  }

  /** With distinct codes, no two laid-out records fill the same pivot cell. */
  lemma LaidOutNoDuplicates(rows: seq<Record>, symbols: seq<Symbol>)
    requires LaidOut(rows, symbols) && DistinctCodes(symbols)
    ensures !HasDuplicateEntries(rows)
  {
    forall i, j | 0 <= i < j < |rows| && Key(rows[i]) == Key(rows[j])
      ensures rows[i].period != rows[j].period
    {
      assert i / 3 == j / 3;
    }
  }

  /** With distinct codes, a symbol's daily record is its first one. */
  lemma LaidOutFirsts(rows: seq<Record>, symbols: seq<Symbol>)
    requires LaidOut(rows, symbols) && DistinctCodes(symbols)
    ensures FirstRows(rows) == seq(|symbols|, a requires 0 <= a => 3 * a)
  {
    forall k: nat | k < |rows|
      ensures KeepFirst(rows)(k) <==> k % 3 == 0
    {
      if k % 3 != 0 {
        assert Key(rows[k - k % 3]) == Key(rows[k]);
      } else {
        forall m | 0 <= m < k
          ensures Key(rows[m]) != Key(rows[k])
        {
          assert m / 3 < k / 3;
        }
      }
    }
    SelectEveryThird(|rows|, KeepFirst(rows));
  }

  /**
   * With distinct codes, the pivot of a run's records cannot fail and gives
   * exactly one wide row per symbol, in `SYMBOLS` order, with all three period
   * cells holding that symbol's selected close and coloured J value.
   */
  lemma ReportFollowsSymbols(symbols: seq<Symbol>, fetch: Fetch, week: bool, month: bool, fmt: Fixed2)
    requires AllSelectable(symbols, fetch, week, month)
    requires DistinctCodes(symbols)
    ensures var rows := Records(symbols, fetch, week, month);
            && Ordered(rows, fmt).Ok?
            && |Ordered(rows, fmt).value| == |symbols|
            && forall a :: 0 <= a < |symbols| ==>
                 var w := Ordered(rows, fmt).value[a];
                 && w.code == symbols[a].code && w.name == symbols[a].name
                 && w.daily == Some(Cell(rows[3 * a].close, WithColor(rows[3 * a].j, fmt(rows[3 * a].j))))
                 && w.weekly == Some(Cell(rows[3 * a + 1].close, WithColor(rows[3 * a + 1].j, fmt(rows[3 * a + 1].j))))
                 && w.monthly == Some(Cell(rows[3 * a + 2].close, WithColor(rows[3 * a + 2].j, fmt(rows[3 * a + 2].j))))
  {
    var rows := Records(symbols, fetch, week, month);
    RecordsLaidOut(symbols, fetch, week, month);
    LaidOutNoDuplicates(rows, symbols);
    LaidOutFirsts(rows, symbols);
    var ws := Ordered(rows, fmt).value;
    forall a | 0 <= a < |symbols|
      ensures ws[a].code == symbols[a].code && ws[a].name == symbols[a].name
      ensures ws[a].daily == Some(Cell(rows[3 * a].close, WithColor(rows[3 * a].j, fmt(rows[3 * a].j))))
      ensures ws[a].weekly == Some(Cell(rows[3 * a + 1].close, WithColor(rows[3 * a + 1].j, fmt(rows[3 * a + 1].j))))
      ensures ws[a].monthly == Some(Cell(rows[3 * a + 2].close, WithColor(rows[3 * a + 2].j, fmt(rows[3 * a + 2].j))))
    {
      assert FirstRows(rows)[a] == 3 * a;
      var key := (symbols[a].code, symbols[a].name);
      assert (3 * a) / 3 == a && (3 * a + 1) / 3 == a && (3 * a + 2) / 3 == a;
      assert (3 * a) % 3 == 0 && (3 * a + 1) % 3 == 1 && (3 * a + 2) % 3 == 2;
      CellForSpec(rows, fmt, key, Daily);
      CellForSpec(rows, fmt, key, Weekly);
      CellForSpec(rows, fmt, key, Monthly);
    }
  }
}
