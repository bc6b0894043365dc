/**
 * `print_md` of fcast2md.py: the symbol lines are parsed into a code to
 * short-name dictionary, then the wide table becomes a Markdown table, one
 * line per row, or a fixed placeholder table when there are no rows.
 */
module PrintMd {
  import opened Wrappers
  import opened Fcast2Md

  /** The characters `str.strip()` removes (Python's whitespace). */
  predicate IsSpace(c: char) {
    c == ' ' || '\t' <= c <= '\r' || '\U{1c}' <= c <= '\U{1f}' || c == '\U{85}' || c == '\U{a0}' ||
    c == '\U{1680}' || '\U{2000}' <= c <= '\U{200a}' || c == '\U{2028}' || c == '\U{2029}' ||
    c == '\U{202f}' || c == '\U{205f}' || c == '\U{3000}'
  }

  /** Leading whitespace removed: a suffix of `s` that starts with a non-space. */
  function StripStart(s: string): (t: string)
    ensures |t| <= |s| && t == s[|s| - |t|..]
    ensures forall i :: 0 <= i < |s| - |t| ==> IsSpace(s[i])
    ensures |t| > 0 ==> !IsSpace(t[0])
  {
    if |s| > 0 && IsSpace(s[0]) then StripStart(s[1..]) else s
  }

  /** Trailing whitespace removed: a prefix of `s` that ends with a non-space. */
  function StripEnd(s: string): (t: string)
    ensures |t| <= |s| && t == s[..|t|]
    ensures forall i :: |t| <= i < |s| ==> IsSpace(s[i])
    ensures |t| > 0 ==> !IsSpace(t[|t| - 1])
  {
    if |s| > 0 && IsSpace(s[|s| - 1]) then StripEnd(s[..|s| - 1]) else s
  }

  /**
   * `s.strip()`: the slice of `s` left after removing whitespace from both
   * ends; everything removed is whitespace and the slice neither starts nor
   * ends with whitespace.
   */
  function Strip(s: string): (t: string)
    ensures exists a, b :: 0 <= a <= b <= |s| && t == s[a..b] &&
                           (forall i :: 0 <= i < a ==> IsSpace(s[i])) &&
                           (forall i :: b <= i < |s| ==> IsSpace(s[i]))
    ensures |t| > 0 ==> !IsSpace(t[0])
    ensures |t| > 0 ==> !IsSpace(t[|t| - 1])
  {
    var u := StripStart(s);
    var t := StripEnd(u);
    StripBothEnds(s, u, t);
    assert |t| > 0 ==> t[0] == u[0];
    t
  }

  /**
   * A prefix `t` of a suffix `u` of `s` is a slice of `s`, and whitespace
   * after `t` in `u` is whitespace at the same place in `s`.
   */
  lemma StripBothEnds(s: string, u: string, t: string)
    requires |u| <= |s| && u == s[|s| - |u|..]
    requires |t| <= |u| && t == u[..|t|]
    requires forall i :: |t| <= i < |u| ==> IsSpace(u[i])
    ensures t == s[|s| - |u|..|s| - |u| + |t|]
    ensures forall i :: |s| - |u| + |t| <= i < |s| ==> IsSpace(s[i])
  {
    var a := |s| - |u|;
    forall i | a + |t| <= i < |s|
      ensures IsSpace(s[i])
    {
      assert s[i] == u[i - a];
    }
  }

  /** Fields glued back together with the separator between them. */
  function Join(fields: seq<string>, sep: char): string
    requires |fields| >= 1
  {
    if |fields| == 1 then fields[0] else fields[0] + [sep] + Join(fields[1..], sep)
  }

  /**
   * `s.split(sep)` for a one-character separator: never empty, no field holds
   * the separator, and joining the fields gives `s` back.
   */
  function Split(s: string, sep: char): (fields: seq<string>)
    ensures |fields| >= 1
    ensures forall f :: f in fields ==> sep !in f
    ensures Join(fields, sep) == s
  {
    if s == [] then [""]
    else
      var rest := Split(s[1..], sep);
      if s[0] == sep then
        assert ([""] + rest)[1..] == rest;
        [""] + rest
      else
        assert ([[s[0]] + rest[0]] + rest[1..])[1..] == rest[1..];
        assert [s[0]] + rest[0] + [sep] == [s[0]] + (rest[0] + [sep]);
        [[s[0]] + rest[0]] + rest[1..]
  }

  function Count(s: string, c: char): nat {
    if s == [] then 0 else (if s[0] == c then 1 else 0) + Count(s[1..], c)
  }

  /** There is one more field than there are separators. */
  lemma {:induction false} SplitCount(s: string, sep: char)
    ensures |Split(s, sep)| == Count(s, sep) + 1
  {
    if s != [] {
      SplitCount(s[1..], sep);
    }
  }

  lemma {:induction false} SplitNoSep(f: string, sep: char)
    requires sep !in f
    ensures Split(f, sep) == [f]
  {
    if f != [] {
      SplitNoSep(f[1..], sep);
    }
  }

  lemma {:induction false} SplitFirstField(f: string, sep: char, t: string)
    requires sep !in f
    ensures Split(f + [sep] + t, sep) == [f] + Split(t, sep)
  {
    if f == [] {
      assert f + [sep] + t == [sep] + t;
      assert ([sep] + t)[1..] == t;
    } else {
      assert (f + [sep] + t)[1..] == f[1..] + [sep] + t;
      SplitFirstField(f[1..], sep, t);
      assert [f[0]] + f[1..] == f;
    }
  }

  /** Splitting undoes joining fields that do not contain the separator. */
  lemma {:induction false} SplitJoin(fields: seq<string>, sep: char)
    requires |fields| >= 1
    requires forall i :: 0 <= i < |fields| ==> sep !in fields[i]
    ensures Split(Join(fields, sep), sep) == fields
  {
    if |fields| == 1 {
      SplitNoSep(fields[0], sep);
    } else {
      SplitJoin(fields[1..], sep);
      SplitFirstField(fields[0], sep, Join(fields[1..], sep));
    }
  }

  lemma {:induction false} JoinAppend(fields: seq<string>, sep: char, g: string)
    requires |fields| >= 1
    ensures Join(fields + [g], sep) == Join(fields, sep) + [sep] + g
  {
    if |fields| > 1 {
      assert (fields + [g])[1..] == fields[1..] + [g];
      JoinAppend(fields[1..], sep, g);
    } else {
      assert (fields + [g])[1..] == [g];
    }
  }

  /** The exceptions `print_md` can raise. */
  datatype MdError =
    | ValueError(line: nat)     // a symbol line without exactly three fields
    | KeyError(code: string)    // a row whose code no symbol line names

  /** The fields of one symbol line: `line.strip().split(',')`. */
  function Fields(line: string): seq<string> {
    Split(Strip(line), ',')
  }

  /** The split symbol lines. */
  function FieldsOf(lines: seq<string>): seq<seq<string>> {
    seq(|lines|, i requires 0 <= i < |lines| => Fields(lines[i]))
  }

  /** The dictionary built from split lines, each setting code to short name. */
  function MapOf(fs: seq<seq<string>>): Result<map<string, string>, MdError> {
    if fs == [] then Ok(map[])
    else
      match MapOf(fs[..|fs| - 1])
      case Err(e) => Err(e)
      case Ok(m) =>
        var f := fs[|fs| - 1];
        if |f| != 3 then Err(ValueError(|fs| - 1)) else Ok(m[f[0] := f[2]])
  }

  /** `MAPPDING` after reading `lines`. */
  function SymbolMap(lines: seq<string>): Result<map<string, string>, MdError> {
    MapOf(FieldsOf(lines))
  }

  /**
   * Reading the symbol lines fails exactly when some line does not have three
   * fields, and then it names the first such line.
   */
  lemma {:induction false} MapOfErr(fs: seq<seq<string>>)
    ensures MapOf(fs).Err? <==> exists i :: 0 <= i < |fs| && |fs[i]| != 3
    ensures MapOf(fs).Err? ==>
              && MapOf(fs).error.ValueError?
              && MapOf(fs).error.line < |fs|
              && |fs[MapOf(fs).error.line]| != 3
              && forall j :: 0 <= j < MapOf(fs).error.line ==> |fs[j]| == 3
  {
    if fs != [] {
      var n := |fs| - 1;
      var init := fs[..n];
      MapOfErr(init);
      assert forall i :: 0 <= i < n ==> init[i] == fs[i];
    }
  }

  /** A successful read means every line had three fields. */
  lemma {:induction false} MapOfOkFields(fs: seq<seq<string>>)
    requires MapOf(fs).Ok?
    ensures forall i :: 0 <= i < |fs| ==> |fs[i]| == 3
  {
    if fs != [] {
      var init := fs[..|fs| - 1];
      MapOfOkFields(init);
      assert forall i :: 0 <= i < |init| ==> init[i] == fs[i];
    }
  }

  /** After a successful read, the keys are exactly the codes of the lines. */
  lemma {:induction false} MapOfOkKeys(fs: seq<seq<string>>)
    requires MapOf(fs).Ok?
    requires forall i :: 0 <= i < |fs| ==> |fs[i]| == 3
    ensures var m := MapOf(fs).value;
            forall k :: k in m <==> exists i :: 0 <= i < |fs| && fs[i][0] == k
  {
    if fs != [] {
      var n := |fs| - 1;
      var init := fs[..n];
      MapOfOkKeys(init);
      assert forall i :: 0 <= i < n ==> init[i] == fs[i];
      assert MapOf(fs).value == MapOf(init).value[fs[n][0] := fs[n][2]];
    }
  }

  /** Line `i` is the last of `fs` whose code is `k`. */
  predicate LastLine(fs: seq<seq<string>>, k: string, i: int) {
    && 0 <= i < |fs| && |fs[i]| > 0 && fs[i][0] == k
    && forall j :: i < j < |fs| ==> |fs[j]| > 0 && fs[j][0] != k
  }

  /**
   * After a successful read, each code maps to the third field of the last
   * line with that code: a later duplicate overwrites an earlier one.
   */
  lemma {:induction false} MapOfOkLast(fs: seq<seq<string>>)
    requires MapOf(fs).Ok?
    requires forall i :: 0 <= i < |fs| ==> |fs[i]| == 3
    ensures var m := MapOf(fs).value;
            forall k :: k in m ==> exists i :: LastLine(fs, k, i) && m[k] == fs[i][2]
  {
    if fs != [] {
      var n := |fs| - 1;
      var init := fs[..n];
      assert forall i :: 0 <= i < n ==> init[i] == fs[i];
      MapOfOkLast(init);
      var m := MapOf(init).value;
      var f := fs[n];
      var m2 := m[f[0] := f[2]];
      assert MapOf(fs).value == m2;
      forall k | k in m2
        ensures exists i :: LastLine(fs, k, i) && m2[k] == fs[i][2]
      {
        if k == f[0] {
          assert LastLine(fs, k, n);
        } else {
          var i :| LastLine(init, k, i) && m[k] == init[i][2];
          assert LastLine(fs, k, i);
        }
      }
    }
  }

  /**
   * After a successful read, the keys are exactly the codes of the lines, and
   * each code maps to the third field of the last line with that code.
   */
  lemma MapOfOk(fs: seq<seq<string>>)
    requires MapOf(fs).Ok?
    ensures forall i :: 0 <= i < |fs| ==> |fs[i]| == 3
    ensures var m := MapOf(fs).value;
            forall k :: k in m <==> exists i :: 0 <= i < |fs| && fs[i][0] == k
    ensures var m := MapOf(fs).value;
            forall k :: k in m ==> exists i :: LastLine(fs, k, i) && m[k] == fs[i][2]
  {
    MapOfOkFields(fs);
    MapOfOkKeys(fs);
    MapOfOkLast(fs);
  }

  /** The first table line, its alignment line and the empty-table placeholder. */
  const TitleLine: string := "| 名称 | 指标 | 日线 | 周线 | 月线 |"
  const RuleLine: string := "|:----:|:----:|:----:|:----:|:----:|"
  const EmptyTable: string :=
    "\n<table>\n    <thead>\n        <tr>\n        <th>名称</th>\n        <th>指标</th>\n" +
    "        <th>日线</th>\n        <th>周线</th>\n        <th>月线</th>\n        </tr>\n" +
    "    </thead>\n    <tbody>\n        <tr>\n        <td colspan=\"6\" align=\"center\">暂无</td>\n" +
    "        </tr>\n    </tbody>\n</table>\n\n        "

  /** `str(x)` of a float. */
  type ShowFloat = real -> string

  /** A cell's close as printed; a missing (NaN) cell prints `nan`. */
  function CloseText(c: Option<Cell>, show: ShowFloat): string {
    if c.Some? then show(c.value.close) else "nan"
  }

  /** A cell's J text as printed; a missing (NaN) cell prints `nan`. */
  function JText(c: Option<Cell>): string {
    if c.Some? then c.value.j else "nan"
  }

  /** One period's table cell: the close above the J value. */
  function CellText(c: Option<Cell>, show: ShowFloat): string {
    CloseText(c, show) + "<br>" + JText(c)
  }

  /** The table line of one row, without its line break. */
  function RowText(name: string, w: WideRow, show: ShowFloat): string {
    "| &emsp;&emsp; " + name + " &emsp;&emsp; | 收盘价<br>J值 | " + CellText(w.daily, show) + " | " +
    CellText(w.weekly, show) + " | " + CellText(w.monthly, show) + " |"
  }

  /** The table lines of `rows` after the two header lines. */
  function Render(rows: seq<WideRow>, m: map<string, string>, show: ShowFloat): Result<string, MdError> {
    if rows == [] then Ok(TitleLine + "\n" + RuleLine + "\n")
    else
      match Render(rows[..|rows| - 1], m, show)
      case Err(e) => Err(e)
      case Ok(t) =>
        var w := rows[|rows| - 1];
        if w.code !in m then Err(KeyError(w.code)) else Ok(t + RowText(m[w.code], w, show) + "\n")
  }

  /** The lines a successful rendering consists of, in order. */
  function TableLines(rows: seq<WideRow>, m: map<string, string>, show: ShowFloat): seq<string> {
    [TitleLine, RuleLine] +
    seq(|rows|, i requires 0 <= i < |rows| =>
      if rows[i].code in m then RowText(m[rows[i].code], rows[i], show) else "")
  }

  /**
   * Rendering fails exactly when some row's code has no short name, and then
   * it names the first such row's code.
   */
  lemma {:induction false} RenderErr(rows: seq<WideRow>, m: map<string, string>, show: ShowFloat)
    ensures Render(rows, m, show).Err? <==> exists i :: 0 <= i < |rows| && rows[i].code !in m
    ensures Render(rows, m, show).Err? ==>
              exists i :: 0 <= i < |rows| && rows[i].code !in m &&
                          (forall j :: 0 <= j < i ==> rows[j].code in m) &&
                          Render(rows, m, show).error == KeyError(rows[i].code)
  {
    if rows != [] {
      var n := |rows| - 1;
      var init := rows[..n];
      RenderErr(init, m, show);
      assert forall i :: 0 <= i < n ==> init[i] == rows[i];
      if Render(init, m, show).Err? {
        var i :| 0 <= i < n && init[i].code !in m && (forall j :: 0 <= j < i ==> init[j].code in m) &&
                 Render(init, m, show).error == KeyError(init[i].code);
        assert Render(rows, m, show) == Render(init, m, show);
        assert rows[i].code !in m;
      } else if rows[n].code !in m {
        assert Render(rows, m, show) == Err(KeyError(rows[n].code));
        assert forall j :: 0 <= j < n ==> rows[j].code in m;
      } else {
        assert Render(rows, m, show).Ok?;
      }
    }
  }

  /**
   * A successful rendering is the two header lines and one line per row in
   * row order, each ended by a line break.
   */
  lemma {:induction false} RenderOk(rows: seq<WideRow>, m: map<string, string>, show: ShowFloat)
    requires Render(rows, m, show).Ok?
    ensures Render(rows, m, show).value == Join(TableLines(rows, m, show) + [""], '\n')
  {
    if rows == [] {
      var ls := [TitleLine, RuleLine, ""];
      assert TableLines(rows, m, show) + [""] == ls;
      assert ls[1..] == [RuleLine, ""] && ls[1..][1..] == [""];
      assert Join([""], '\n') == "";
      assert Join([RuleLine, ""], '\n') == RuleLine + ['\n'] + "";
      assert Join(ls, '\n') == TitleLine + ['\n'] + Join([RuleLine, ""], '\n');
    } else {
      var n := |rows| - 1;
      var init := rows[..n];
      RenderOk(init, m, show);
      var ls := TableLines(init, m, show);
      var last := RowText(m[rows[n].code], rows[n], show);
      TableLinesSnoc(rows, m, show);
      var t := Render(init, m, show).value;
      assert Render(rows, m, show).value == t + last + "\n";
      JoinAppend(ls, '\n', "");
      JoinAppend(ls, '\n', last);
      JoinAppend(ls + [last], '\n', "");
      assert t == Join(ls, '\n') + "\n";
      assert Join(ls + [last] + [""], '\n') == Join(ls, '\n') + "\n" + last + "\n";
    }
  }

  lemma TableLinesSnoc(rows: seq<WideRow>, m: map<string, string>, show: ShowFloat)
    requires rows != [] && rows[|rows| - 1].code in m
    ensures var n := |rows| - 1;
            TableLines(rows, m, show) ==
              TableLines(rows[..n], m, show) + [RowText(m[rows[n].code], rows[n], show)]
  {
  }

  /**
   * When no short name or cell text contains a line break, splitting the
   * rendered table at line breaks gives exactly the two header lines and one
   * line per row, in row order, followed by the empty rest after the final
   * break.
   */
  lemma RenderLines(rows: seq<WideRow>, m: map<string, string>, show: ShowFloat)
    requires Render(rows, m, show).Ok?
    requires forall k :: k in m ==> '\n' !in m[k]
    requires forall x :: '\n' !in show(x)
    requires forall i :: 0 <= i < |rows| ==>
               '\n' !in JText(rows[i].daily) && '\n' !in JText(rows[i].weekly) && '\n' !in JText(rows[i].monthly)
    ensures Split(Render(rows, m, show).value, '\n') == TableLines(rows, m, show) + [""]
    ensures |TableLines(rows, m, show)| == |rows| + 2
  {
    RenderOk(rows, m, show);
    RenderErr(rows, m, show);
    TableLinesOneLine(rows, m, show);
    SplitJoin(TableLines(rows, m, show) + [""], '\n');
  }

  /** No table line holds a line break when no name or cell text does. */
  lemma TableLinesOneLine(rows: seq<WideRow>, m: map<string, string>, show: ShowFloat)
    requires forall i :: 0 <= i < |rows| ==> rows[i].code in m
    requires forall k :: k in m ==> '\n' !in m[k]
    requires forall x :: '\n' !in show(x)
    requires forall i :: 0 <= i < |rows| ==>
               '\n' !in JText(rows[i].daily) && '\n' !in JText(rows[i].weekly) && '\n' !in JText(rows[i].monthly)
    ensures forall l :: l in TableLines(rows, m, show) + [""] ==> '\n' !in l
  {
    var ls := TableLines(rows, m, show) + [""];
    forall i | 0 <= i < |ls|
      ensures '\n' !in ls[i]
    {
      if 2 <= i < |rows| + 2 {
        var w := rows[i - 2];
        RowTextOneLine(m[w.code], w, show);
      }
    }
  }

  lemma RowTextOneLine(name: string, w: WideRow, show: ShowFloat)
    requires '\n' !in name
    requires forall x :: '\n' !in show(x)
    requires '\n' !in JText(w.daily) && '\n' !in JText(w.weekly) && '\n' !in JText(w.monthly)
    ensures '\n' !in RowText(name, w, show)
  {
  }

  /**
   * `print_md(df)`: the symbol file is read first, so a malformed line fails
   * even for an empty table; an empty table gives the placeholder; any other
   * table is rendered line by line.
   */
  function PrintMdOf(rows: seq<WideRow>, lines: seq<string>, show: ShowFloat): Result<string, MdError> {
    match SymbolMap(lines)
    case Err(e) => Err(e)
    case Ok(m) => if rows == [] then Ok(EmptyTable) else Render(rows, m, show)
  }

  /** `sub` occurs in `s` at position `i`. */
  predicate OccursAt(s: string, sub: string, i: int) {
    0 <= i <= |s| - |sub| && s[i..i + |sub|] == sub
  }

  /** The placeholder table says 暂无 ("none yet"). */
  lemma EmptyTableSaysNone()
    ensures exists i :: OccursAt(EmptyTable, "暂无", i)
  {
    var i := |EmptyTable| - 2 - |"</td>\n        </tr>\n    </tbody>\n</table>\n\n        "|;
    assert EmptyTable[i..i + 2] == "暂无";
    assert OccursAt(EmptyTable, "暂无", i);
  }

  lemma {:induction false} MapOfErrSticky(fs: seq<seq<string>>, i: nat)
    requires i <= |fs| && MapOf(fs[..i]).Err?
    ensures MapOf(fs) == MapOf(fs[..i])
    decreases |fs| - i
  {
    if i < |fs| {
      assert fs[..i + 1][..i] == fs[..i];
      MapOfErrSticky(fs, i + 1);
    } else {
      assert fs[..i] == fs;
    }
  }

  lemma {:induction false} RenderErrSticky(rows: seq<WideRow>, m: map<string, string>, show: ShowFloat, i: nat)
    requires i <= |rows| && Render(rows[..i], m, show).Err?
    ensures Render(rows, m, show) == Render(rows[..i], m, show)
    decreases |rows| - i
  {
    if i < |rows| {
      assert rows[..i + 1][..i] == rows[..i];
      RenderErrSticky(rows, m, show, i + 1);
    } else {
      assert rows[..i] == rows;
    }
  }

  /**
   * What `print_md` returns: a ValueError exactly when a symbol line lacks
   * three fields; otherwise the placeholder for an empty table; otherwise a
   * KeyError exactly when a row's code has no short name; otherwise (with
   * no line breaks inside names and cells) two header lines and exactly one
   * line per row, in row order.
   */
  lemma PrintMdSpec(rows: seq<WideRow>, lines: seq<string>, show: ShowFloat)
    ensures var r := PrintMdOf(rows, lines, show);
            (r.Err? && r.error.ValueError?) <==> exists i :: 0 <= i < |FieldsOf(lines)| && |FieldsOf(lines)[i]| != 3
    ensures SymbolMap(lines).Ok? && rows == [] ==>
              PrintMdOf(rows, lines, show) == Ok(EmptyTable) && exists i :: OccursAt(EmptyTable, "暂无", i)
    ensures SymbolMap(lines).Ok? && rows != [] ==>
              var m := SymbolMap(lines).value;
              var r := PrintMdOf(rows, lines, show);
              && (r.Err? <==> exists i :: 0 <= i < |rows| && rows[i].code !in m)
              && (r.Err? ==> r.error.KeyError?)
              && (r.Ok? && (forall k :: k in m ==> '\n' !in m[k]) && (forall x :: '\n' !in show(x)) &&
                  (forall i :: 0 <= i < |rows| ==>
                     '\n' !in JText(rows[i].daily) && '\n' !in JText(rows[i].weekly) && '\n' !in JText(rows[i].monthly))
                  ==> Split(r.value, '\n') == TableLines(rows, m, show) + [""] && |TableLines(rows, m, show)| == |rows| + 2)
  {
    MapOfErr(FieldsOf(lines));
    EmptyTableSaysNone();
    if SymbolMap(lines).Ok? && rows != [] {
      var m := SymbolMap(lines).value;
      RenderErr(rows, m, show);
      if Render(rows, m, show).Ok? && (forall k :: k in m ==> '\n' !in m[k]) && (forall x :: '\n' !in show(x)) &&
         (forall i :: 0 <= i < |rows| ==>
            '\n' !in JText(rows[i].daily) && '\n' !in JText(rows[i].weekly) && '\n' !in JText(rows[i].monthly)) {
        RenderLines(rows, m, show);
      }
    }
  }

  lemma MapOfStep(fs: seq<seq<string>>, i: nat)
    requires i < |fs|
    ensures MapOf(fs[..i + 1]) ==
              match MapOf(fs[..i])
              case Err(e) => Err(e)
              case Ok(m) => if |fs[i]| != 3 then Err(ValueError(i)) else Ok(m[fs[i][0] := fs[i][2]])
  {
    assert fs[..i + 1][..i] == fs[..i];
  }

  /** The dictionary-filling loop of `print_md`: one entry per symbol line. */
  method ReadSymbols(lines: seq<string>) returns (r: Result<map<string, string>, MdError>)
    ensures r == SymbolMap(lines)
  {
    ghost var fs := FieldsOf(lines);
    var mapping: map<string, string> := map[];
    var i := 0;
    while i < |lines|
      invariant 0 <= i <= |lines|
      invariant MapOf(fs[..i]) == Ok(mapping)
    {
      var fields := Split(Strip(lines[i]), ',');
      assert fs[i] == fields;
      MapOfStep(fs, i);
      if |fields| != 3 {
        MapOfErrSticky(fs, i + 1);
        return Err(ValueError(i));
      }
      mapping := mapping[fields[0] := fields[2]];
      i := i + 1;
    }
    assert fs[..i] == fs;
    r := Ok(mapping);
  }

  /** The table-growing loop of `print_md`: the header, then one line per row. */
  method RenderRows(rows: seq<WideRow>, mapping: map<string, string>, show: ShowFloat)
    returns (r: Result<string, MdError>)
    ensures r == Render(rows, mapping, show)
  {
    var markdown := TitleLine + "\n";
    markdown := markdown + RuleLine + "\n";
    var k := 0;
    while k < |rows|
      invariant 0 <= k <= |rows|
      invariant Render(rows[..k], mapping, show) == Ok(markdown)
    {
      var row := rows[k];
      assert rows[..k + 1][..k] == rows[..k];
      if row.code !in mapping {
        RenderErrSticky(rows, mapping, show, k + 1);
        return Err(KeyError(row.code));
      }
      markdown := markdown + RowText(mapping[row.code], row, show) + "\n";
      k := k + 1;
    }
    assert rows[..k] == rows;
    r := Ok(markdown);
  }

  /**
   * `print_md` as written: fill the dictionary from the symbol lines, then
   * either return the placeholder or grow the Markdown text row by row.
   */
  method PrintMarkdown(rows: seq<WideRow>, lines: seq<string>, show: ShowFloat)
    returns (r: Result<string, MdError>)
    ensures r == PrintMdOf(rows, lines, show)
  {
    var mapping := ReadSymbols(lines);
    if mapping.Err? {
      return Err(mapping.error);
    }
    if |rows| == 0 {
      return Ok(EmptyTable);
    }
    r := RenderRows(rows, mapping.value, show);
  }
}
