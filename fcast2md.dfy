/**
 * The table reshaping of fcast2md.py: colouring of J values, the pivot of
 * the long record table into one wide row per instrument in order of first
 * appearance, and the "must-watch" selection of rows with a highlighted cell.
 */
module Fcast2Md {
  import opened Wrappers
  import opened GenFcast

  const DarkRed: string := "#E74C3C"
  const LightRed: string := "#FFCCCB"

  /** A J value text on a coloured background, in bold. */
  function Highlighted(color: string, text: string): string {
    "<span style=\"background-color: " + color + "\">**" + text + "**</span>"
  }

  /** Where the bold marker starts inside a highlighted text. */
  function MarkerPos(color: string): nat {
    |"<span style=\"background-color: "| + |color| + 2
  }

  lemma HighlightedShape(color: string, text: string)
    ensures var h := Highlighted(color, text);
            && |h| == MarkerPos(color) + |text| + 11
            && h[MarkerPos(color)] == '*' && h[MarkerPos(color) + 1] == '*'
  {
  }

  lemma ColorsDiffer(text: string)
    ensures Highlighted(DarkRed, text) != Highlighted(LightRed, text)
  {
    assert Highlighted(DarkRed, text)[32] == 'E';
    assert Highlighted(LightRed, text)[32] == 'F';
  }

  /**
   * `with_color(x)`, where `text` is `f"{x:.2f}"`: dark red below -5, light
   * red strictly between -5 and 0, and the bare text otherwise, so -5 itself
   * and every non-negative value stay plain.
   */
  function WithColor(x: real, text: string): (s: string)
    ensures s == Highlighted(DarkRed, text) <==> x < -5.0
    ensures s == Highlighted(LightRed, text) <==> -5.0 < x < 0.0
    ensures s == text <==> x >= 0.0 || x == -5.0
  {
    HighlightedShape(DarkRed, text);
    HighlightedShape(LightRed, text);
    ColorsDiffer(text);
    if x < -5.0 then Highlighted(DarkRed, text)
    else if x < 0.0 && x > -5.0 then Highlighted(LightRed, text)
    else text
  }

  /** `"**" in s`. */
  predicate HasMarker(s: string) {
    exists i :: 0 <= i < |s| - 1 && s[i] == '*' && s[i + 1] == '*'
  }

  /** A J value the report flags: negative, and not exactly -5. */
  predicate Flagged(x: real) {
    x < -5.0 || (-5.0 < x < 0.0)
  }

  /**
   * Only the two highlighted forms carry the bold marker, provided the
   * number's own text has no asterisk (no `.2f` rendering does).
   */
  lemma MarkerIffFlagged(x: real, text: string)
    requires '*' !in text
    ensures HasMarker(WithColor(x, text)) <==> Flagged(x)
  {
    var s := WithColor(x, text);
    if Flagged(x) {
      var color := if x < -5.0 then DarkRed else LightRed;
      HighlightedShape(color, text);
      assert s[MarkerPos(color)] == '*' && s[MarkerPos(color) + 1] == '*';
    }
  }

  /** The period labels the columns are renamed to. */
  function Label(p: Period): (l: string)
    ensures |l| == 2 && l[1] == '线'
  {
    match p
    case Daily => "日线"
    case Weekly => "周线"
    case Monthly => "月线"
  }

  lemma LabelsDistinct()
    ensures Label(Daily) != Label(Weekly) && Label(Weekly) != Label(Monthly) &&
            Label(Daily) != Label(Monthly)
  {
    assert Label(Daily)[0] == '日' && Label(Weekly)[0] == '周' && Label(Monthly)[0] == '月';
  }

  /** The close and the coloured J value one period contributes to a wide row. */
  datatype Cell = Cell(close: real, j: string)

  /**
   * One row of `df_ordered`: code, name and the three period cells; a
   * missing cell is NaN in pandas. The cell of period `p` stands for the
   * columns `ColumnName(p, "收盘")` and `ColumnName(p, "J值")`.
   */
  datatype WideRow = WideRow(code: string, name: string,
                             daily: Option<Cell>, weekly: Option<Cell>, monthly: Option<Cell>)

  /** The cell a wide row holds for period `p`. */
  function CellIn(w: WideRow, p: Period): Option<Cell> {
    match p
    case Daily => w.daily
    case Weekly => w.weekly
    case Monthly => w.monthly
  }

  /** The flattened pivot column of a measure and a period, label first: `日线_收盘`. */
  function ColumnName(p: Period, measure: string): string {
    Label(p) + "_" + measure
  }

  /**
   * Renaming the pivot's (measure, period) columns loses nothing: two
   * columns get the same name only when they are the same column, so each
   * period's close and J value are found again under their own names.
   */
  lemma ColumnNameInjective(p: Period, q: Period, m1: string, m2: string)
    ensures ColumnName(p, m1) == ColumnName(q, m2) <==> p == q && m1 == m2
  {
    if ColumnName(p, m1) == ColumnName(q, m2) {
      var c := ColumnName(p, m1);
      assert Label(p) == c[..2] == Label(q);
      assert m1 == c[3..] == m2;
      LabelsDistinct();
    }
  }

  /** The exception `df.pivot` raises when a cell would receive two values. */
  datatype PivotError = DuplicateEntries

  /** `{x:.2f}`: the two-decimal rendering of a number. */
  type Fixed2 = real -> string

  /** The pivot index of a record: (代码, 名称). */
  function Key(r: Record): (string, string) {
    (r.code, r.name)
  }

  /** The positions below `n` that `keep` accepts, in increasing order. */
  function Select(n: nat, keep: nat -> bool): seq<nat> {
    if n == 0 then [] else Select(n - 1, keep) + (if keep(n - 1) then [n - 1] else [])
  }

  lemma {:induction false} SelectSpec(n: nat, keep: nat -> bool)
    ensures var idx := Select(n, keep);
            && (forall a :: 0 <= a < |idx| ==> idx[a] < n)
            && (forall a, b :: 0 <= a < b < |idx| ==> idx[a] < idx[b])
            && (forall i: nat :: i < n ==> (keep(i) <==> i in idx))
  {
    if n > 0 {
      SelectSpec(n - 1, keep);
    }
  }

  /** Row `i` is the first with its key: what `drop_duplicates()` keeps. */
  predicate IsFirst(rows: seq<Record>, i: nat)
    requires i < |rows|
  {
    forall m :: 0 <= m < i ==> Key(rows[m]) != Key(rows[i])
  }

  function KeepFirst(rows: seq<Record>): nat -> bool {
    (i: nat) => i < |rows| && IsFirst(rows, i)
  }

  /** The rows `drop_duplicates()` keeps, by position. */
  function FirstRows(rows: seq<Record>): seq<nat> {
    Select(|rows|, KeepFirst(rows))
  }

  /** Every key has a first occurrence at or before any of its occurrences. */
  lemma {:induction false} FirstOccurrence(rows: seq<Record>, i: nat)
    requires i < |rows|
    ensures exists m: nat :: m <= i && IsFirst(rows, m) && Key(rows[m]) == Key(rows[i])
    decreases i
  {
    if !IsFirst(rows, i) {
      var m :| 0 <= m < i && Key(rows[m]) == Key(rows[i]);
      FirstOccurrence(rows, m);
    }
  }

  /** Two records that would fill the same pivot cell. */
  predicate HasDuplicateEntries(rows: seq<Record>) {
    exists i, j :: 0 <= i < j < |rows| && Key(rows[i]) == Key(rows[j]) && rows[i].period == rows[j].period
  }

  /** The cell of period `p` for `key`: that of the first record with both. */
  function CellFor(rows: seq<Record>, fmt: Fixed2, key: (string, string), p: Period): Option<Cell> {
    if rows == [] then None
    else if Key(rows[0]) == key && rows[0].period == p then
      Some(Cell(rows[0].close, WithColor(rows[0].j, fmt(rows[0].j))))
    else CellFor(rows[1..], fmt, key, p)
  }

  /**
   * A cell is present exactly when some record has that key and period, and
   * without duplicate entries it holds that record's close and coloured J.
   */
  lemma {:induction false} CellForSpec(rows: seq<Record>, fmt: Fixed2, key: (string, string), p: Period)
    ensures CellFor(rows, fmt, key, p).Some? <==>
              exists i :: 0 <= i < |rows| && Key(rows[i]) == key && rows[i].period == p
    ensures !HasDuplicateEntries(rows) ==>
              forall i :: 0 <= i < |rows| && Key(rows[i]) == key && rows[i].period == p ==>
                CellFor(rows, fmt, key, p) == Some(Cell(rows[i].close, WithColor(rows[i].j, fmt(rows[i].j))))
  {
    if rows != [] {
      CellForSpec(rows[1..], fmt, key, p);
      assert forall i :: 1 <= i < |rows| ==> rows[i] == rows[1..][i - 1];
      if !HasDuplicateEntries(rows) {
        assert !HasDuplicateEntries(rows[1..]);
      }
      if exists i :: 1 <= i < |rows| && Key(rows[i]) == key && rows[i].period == p {
        var i :| 1 <= i < |rows| && Key(rows[i]) == key && rows[i].period == p;
        assert Key(rows[1..][i - 1]) == key && rows[1..][i - 1].period == p;
      }
    }
  }

  /** The wide row of one key. */
  function WideRowFor(rows: seq<Record>, fmt: Fixed2, key: (string, string)): WideRow {
    WideRow(key.0, key.1, CellFor(rows, fmt, key, Daily), CellFor(rows, fmt, key, Weekly),
            CellFor(rows, fmt, key, Monthly))
  }

  /**
   * `df_ordered`: J values coloured, the table pivoted on (代码, 名称) by
   * period, then merged back onto the de-duplicated key columns so that the
   * rows follow the keys' first appearance.
   */
  function Ordered(rows: seq<Record>, fmt: Fixed2): Result<seq<WideRow>, PivotError> {
    if HasDuplicateEntries(rows) then Err(DuplicateEntries)
    else
      var firsts := FirstRows(rows);
      Ok(seq(|firsts|, a requires 0 <= a < |firsts| =>
        WideRowFor(rows, fmt, if firsts[a] < |rows| then Key(rows[firsts[a]]) else ("", ""))))
  }

  /**
   * The pivot fails exactly on duplicate entries. Otherwise it yields one
   * row per distinct (代码, 名称) pair and no other, in order of first
   * appearance, and a row's period cell is present exactly when a record
   * for that pair and period exists, holding its close and coloured J value.
   */
  lemma OrderedSpec(rows: seq<Record>, fmt: Fixed2)
    ensures Ordered(rows, fmt).Err? <==> HasDuplicateEntries(rows)
    ensures Ordered(rows, fmt).Ok? ==>
              var ws := Ordered(rows, fmt).value;
              var firsts := FirstRows(rows);
              && |ws| == |firsts|
              && (forall a, b :: 0 <= a < b < |firsts| ==> firsts[a] < firsts[b])
              && (forall a :: 0 <= a < |ws| ==>
                    firsts[a] < |rows| && IsFirst(rows, firsts[a]) &&
                    (ws[a].code, ws[a].name) == Key(rows[firsts[a]]))
              && (forall i :: 0 <= i < |rows| ==> exists a :: 0 <= a < |ws| && (ws[a].code, ws[a].name) == Key(rows[i]))
              && (forall a, b :: 0 <= a < b < |ws| ==> (ws[a].code, ws[a].name) != (ws[b].code, ws[b].name))
  {
    var firsts := FirstRows(rows);
    var keep := KeepFirst(rows);
    SelectSpec(|rows|, keep);
    if !HasDuplicateEntries(rows) {
      var ws := Ordered(rows, fmt).value;
      forall a | 0 <= a < |ws|
        ensures firsts[a] < |rows| && IsFirst(rows, firsts[a])
        ensures (ws[a].code, ws[a].name) == Key(rows[firsts[a]])
      {
        assert firsts[a] in firsts;
      }
      forall i | 0 <= i < |rows|
        ensures exists a :: 0 <= a < |ws| && (ws[a].code, ws[a].name) == Key(rows[i])
      {
        FirstOccurrence(rows, i);
        var m: nat :| m <= i && IsFirst(rows, m) && Key(rows[m]) == Key(rows[i]);
        assert keep(m);
        var a :| 0 <= a < |firsts| && firsts[a] == m;
        assert (ws[a].code, ws[a].name) == Key(rows[i]);
      }
      forall a, b | 0 <= a < b < |ws|
        ensures (ws[a].code, ws[a].name) != (ws[b].code, ws[b].name)
      {
        assert firsts[a] < firsts[b];
        assert IsFirst(rows, firsts[b]);
      }
    }
  }

  /** A wide row's cell for a period and what it holds. */
  lemma OrderedCells(rows: seq<Record>, fmt: Fixed2, a: nat, p: Period)
    requires Ordered(rows, fmt).Ok? && a < |Ordered(rows, fmt).value|
    ensures var w := Ordered(rows, fmt).value[a];
            var c := CellIn(w, p);
            && (c.Some? <==> exists i :: 0 <= i < |rows| && Key(rows[i]) == (w.code, w.name) && rows[i].period == p)
            && (forall i :: 0 <= i < |rows| && Key(rows[i]) == (w.code, w.name) && rows[i].period == p ==>
                  c == Some(Cell(rows[i].close, WithColor(rows[i].j, fmt(rows[i].j)))))
  {
    OrderedSpec(rows, fmt);
    var w := Ordered(rows, fmt).value[a];
    CellForSpec(rows, fmt, (w.code, w.name), p);
  }

  predicate CellMarked(c: Option<Cell>) {
    c.Some? && HasMarker(c.value.j)
  }

  /**
   * The filter's row test: some string cell contains `**`. The code, the
   * name and the coloured J values are strings; closes and missing cells
   * are floats and never match.
   */
  predicate MustWatch(w: WideRow) {
    HasMarker(w.code) || HasMarker(w.name) || CellMarked(w.daily) || CellMarked(w.weekly) ||
    CellMarked(w.monthly)
  }

  function KeepWatched(ws: seq<WideRow>): nat -> bool {
    (i: nat) => i < |ws| && MustWatch(ws[i])
  }

  /** The positions of the rows the filter keeps. */
  function WatchRows(ws: seq<WideRow>): seq<nat> {
    Select(|ws|, KeepWatched(ws))
  }

  /** `filtered_df`: the rows of `df_ordered` selected by a boolean mask. */
  function Filtered(ws: seq<WideRow>): seq<WideRow> {
    var idx := WatchRows(ws);
    seq(|idx|, k requires 0 <= k < |idx| => if idx[k] < |ws| then ws[idx[k]] else ws[0])
  }

  /**
   * The filtered table keeps exactly the rows with a marked cell, each once,
   * in their original order.
   */
  lemma FilteredSpec(ws: seq<WideRow>)
    ensures var idx := WatchRows(ws);
            var fs := Filtered(ws);
            && |fs| == |idx|
            && (forall k :: 0 <= k < |idx| ==> idx[k] < |ws| && fs[k] == ws[idx[k]] && MustWatch(fs[k]))
            && (forall k, l :: 0 <= k < l < |idx| ==> idx[k] < idx[l])
            && (forall i :: 0 <= i < |ws| ==> (MustWatch(ws[i]) <==> i in idx))
  {
    SelectSpec(|ws|, KeepWatched(ws));
    var idx := WatchRows(ws);
    forall k | 0 <= k < |idx|
      ensures MustWatch(ws[idx[k]])
    {
      assert idx[k] in idx;
    }
  }

  lemma NoStarNoMarker(s: string)
    requires '*' !in s
    ensures !HasMarker(s)
  {
  }

  /** A period cell of a wide row is marked exactly when its record is flagged. */
  lemma CellMarkedIff(rows: seq<Record>, fmt: Fixed2, a: nat, p: Period)
    requires Ordered(rows, fmt).Ok? && a < |Ordered(rows, fmt).value|
    requires forall x :: '*' !in fmt(x)
    ensures var w := Ordered(rows, fmt).value[a];
            var c := CellIn(w, p);
            CellMarked(c) <==>
              exists i :: 0 <= i < |rows| && Key(rows[i]) == (w.code, w.name) && rows[i].period == p &&
                          Flagged(rows[i].j)
  {
    OrderedCells(rows, fmt, a, p);
    var w := Ordered(rows, fmt).value[a];
    forall i | 0 <= i < |rows| && Key(rows[i]) == (w.code, w.name) && rows[i].period == p
      ensures HasMarker(WithColor(rows[i].j, fmt(rows[i].j))) <==> Flagged(rows[i].j)
    {
      MarkerIffFlagged(rows[i].j, fmt(rows[i].j));
    }
  }

  /**
   * When neither codes, names nor number texts contain asterisks, a row of
   * `df_ordered` is must-watch exactly when one of its instrument's records
   * has a flagged J value.
   */
  lemma MustWatchIffFlagged(rows: seq<Record>, fmt: Fixed2, a: nat)
    requires Ordered(rows, fmt).Ok? && a < |Ordered(rows, fmt).value|
    requires forall i :: 0 <= i < |rows| ==> '*' !in rows[i].code && '*' !in rows[i].name
    requires forall x :: '*' !in fmt(x)
    ensures var w := Ordered(rows, fmt).value[a];
            MustWatch(w) <==> exists i :: 0 <= i < |rows| && Key(rows[i]) == (w.code, w.name) && Flagged(rows[i].j)
  {
    OrderedKey(rows, fmt, a);
    var w := Ordered(rows, fmt).value[a];
    var r0 := rows[FirstRows(rows)[a]];
    NoStarNoMarker(r0.code);
    NoStarNoMarker(r0.name);
    CellMarkedIff(rows, fmt, a, Daily);
    CellMarkedIff(rows, fmt, a, Weekly);
    CellMarkedIff(rows, fmt, a, Monthly);
    if exists i :: 0 <= i < |rows| && Key(rows[i]) == (w.code, w.name) && Flagged(rows[i].j) {
      var i :| 0 <= i < |rows| && Key(rows[i]) == (w.code, w.name) && Flagged(rows[i].j);
      assert rows[i].period == Daily || rows[i].period == Weekly || rows[i].period == Monthly;
    }
  }

  /** Row `a` of `df_ordered` carries the key of the `a`-th first occurrence. */
  lemma OrderedKey(rows: seq<Record>, fmt: Fixed2, a: nat)
    requires Ordered(rows, fmt).Ok? && a < |Ordered(rows, fmt).value|
    ensures a < |FirstRows(rows)| && FirstRows(rows)[a] < |rows|
    ensures var w := Ordered(rows, fmt).value[a];
            (w.code, w.name) == Key(rows[FirstRows(rows)[a]])
  {
    SelectSpec(|rows|, KeepFirst(rows));
  }
}
