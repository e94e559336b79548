/** The historic batting game logs (scripts/09_fetch_process_historic_batting_gamelogs.py):
    per-season running totals of each counting column, the `gtm_cum` column
    dropped, the current season stacked on the archive, sorted by season
    (newest first) and game number, exact duplicate rows removed, and the
    output columns picked out. A row is a map from column to cell; a column a
    row lacks is pandas' NaN. */
module GameLogs {
  import opened Common

  /** The counting columns of a game log (`val_cols`), in the script's order. */
  datatype Stat = Gtm | Pa | Ab | R | H | Double | Triple | Hr | Rbi | Bb
                | Ibb | So | Hbp | Sh | Sf | Roe | Gdp | Sb | Cs

  /** A column: the season `year`, a counting column, the running total
      `f"{c}_cum"` of a counting column, or any other column by its name.
      Headers are unique in a frame, so `Other(name)` is only used for a name
      that is not the header of `year`, a counting column or a running total
      (see `ColName`): a row never holds two cells under one header. */
  datatype Col = YearCol | Count(stat: Stat) | Cum(stat: Stat) | Other(name: string)

  datatype Cell = Num(n: int) | Text(s: string)

  type Row = map<Col, Cell>

  const GtmCol: Col := Count(Gtm)

  /** `val_cols`. */
  const ValCols: seq<Stat> := [Gtm, Pa, Ab, R, H, Double, Triple, Hr, Rbi, Bb,
                               Ibb, So, Hbp, Sh, Sf, Roe, Gdp, Sb, Cs]

  /** The running totals kept in the output. */
  const OutputTotals: seq<Stat> := [R, H, Double, Bb, So, Hr]

  /** The columns of `optimized_df`, in order. */
  const OutputCols: seq<Col> := [GtmCol, YearCol, Cum(R), Cum(H), Cum(Double), Cum(Bb), Cum(So), Cum(Hr)]

  /** The column header of a counting column. */
  function StatName(s: Stat): string {
    match s
    case Gtm => "gtm" case Pa => "pa" case Ab => "ab" case R => "r" case H => "h"
    case Double => "2b" case Triple => "3b" case Hr => "hr" case Rbi => "rbi" case Bb => "bb"
    case Ibb => "ibb" case So => "so" case Hbp => "hbp" case Sh => "sh" case Sf => "sf"
    case Roe => "roe" case Gdp => "gdp" case Sb => "sb" case Cs => "cs"
  }

  function ColName(c: Col): string {
    match c
    case YearCol => "year"
    case Count(s) => StatName(s)
    case Cum(s) => StatName(s) + "_cum"
    case Other(name) => name
  }

  /** The counting columns cover every counting column, each once. */
  lemma ValColsComplete()
    ensures forall s: Stat :: s in ValCols
    ensures forall i, j :: 0 <= i < j < |ValCols| ==> ValCols[i] != ValCols[j]
  {
    forall s: Stat ensures s in ValCols {
      match s
      case Gtm => assert ValCols[0] == s;
      case Pa => assert ValCols[1] == s;
      case Ab => assert ValCols[2] == s;
      case R => assert ValCols[3] == s;
      case H => assert ValCols[4] == s;
      case Double => assert ValCols[5] == s;
      case Triple => assert ValCols[6] == s;
      case Hr => assert ValCols[7] == s;
      case Rbi => assert ValCols[8] == s;
      case Bb => assert ValCols[9] == s;
      case Ibb => assert ValCols[10] == s;
      case So => assert ValCols[11] == s;
      case Hbp => assert ValCols[12] == s;
      case Sh => assert ValCols[13] == s;
      case Sf => assert ValCols[14] == s;
      case Roe => assert ValCols[15] == s;
      case Gdp => assert ValCols[16] == s;
      case Sb => assert ValCols[17] == s;
      case Cs => assert ValCols[18] == s;
    }
    forall i, j | 0 <= i < j < |ValCols| ensures ValCols[i] != ValCols[j] {
      assert StatIndex(ValCols[i]) == i && StatIndex(ValCols[j]) == j;
    }
  }

  /** The position of a counting column in `val_cols`. */
  function StatIndex(s: Stat): nat {
    match s
    case Gtm => 0 case Pa => 1 case Ab => 2 case R => 3 case H => 4
    case Double => 5 case Triple => 6 case Hr => 7 case Rbi => 8 case Bb => 9
    case Ibb => 10 case So => 11 case Hbp => 12 case Sh => 13 case Sf => 14
    case Roe => 15 case Gdp => 16 case Sb => 17 case Cs => 18
  }

  /** The headers of the counting columns are the script's `val_cols`, and the
      headers of the output columns are the script's output column list. */
  lemma ColumnHeaders()
    ensures |ValCols| == 19
    ensures forall i :: 0 <= i < 19 ==>
      StatName(ValCols[i]) == ["gtm", "pa", "ab", "r", "h", "2b", "3b", "hr", "rbi", "bb",
                               "ibb", "so", "hbp", "sh", "sf", "roe", "gdp", "sb", "cs"][i]
    ensures |OutputCols| == 8
    ensures forall i :: 0 <= i < 8 ==>
      ColName(OutputCols[i]) == ["gtm", "year", "r_cum", "h_cum", "2b_cum", "bb_cum", "so_cum", "hr_cum"][i]
  {
  }

  predicate HasInt(row: Row, c: Col) {
    c in row && row[c].Num?
  }

  /** The integer in column `c`, 0 where there is none. */
  function Val(row: Row, c: Col): int {
    if HasInt(row, c) then row[c].n else 0
  }

  function Season(row: Row): int {
    Val(row, YearCol)
  }

  /** Every row has an integer `year` and integers in all the given columns:
      what `assign(year=year)` and `astype(int)` leave behind. */
  predicate CountedAll(rows: seq<Row>, cols: seq<Stat>) {
    forall k, c :: 0 <= k < |rows| && c in cols ==> HasInt(rows[k], YearCol) && HasInt(rows[k], Count(c))
  }

  // ---------------------------------------------------------------------------
  // Running totals per season

  /** What a row adds to season y's total of column c. */
  function Contribution(row: Row, y: int, c: Stat): int {
    if Season(row) == y then Val(row, Count(c)) else 0
  }

  /** Sum of column c over the rows of season y: the reference definition. */
  function SeasonSum(rows: seq<Row>, y: int, c: Stat): int {
    if |rows| == 0 then 0
    else SeasonSum(rows[..|rows| - 1], y, c) + Contribution(rows[|rows| - 1], y, c)
  }

  lemma {:induction false} SeasonSumCons(x: Row, s: seq<Row>, y: int, c: Stat)
    ensures SeasonSum([x] + s, y, c) == Contribution(x, y, c) + SeasonSum(s, y, c)
    decreases |s|
  {
    if |s| == 0 {
      assert ([x] + s)[..0] == [];
    } else {
      assert ([x] + s)[..|s|] == [x] + s[..|s| - 1];
      SeasonSumCons(x, s[..|s| - 1], y, c);
    }
  }

  function Get(acc: map<int, int>, y: int): int {
    if y in acc then acc[y] else 0
  }

  /** `groupby("year")[c].cumsum()` stored as `c_cum`: one pass over the rows,
      keeping a running total per season in `acc`. */
  function CumColumn(rows: seq<Row>, c: Stat, acc: map<int, int>): (r: seq<Row>)
    ensures |r| == |rows|
  {
    if |rows| == 0 then []
    else
      var y := Season(rows[0]);
      var total := Get(acc, y) + Val(rows[0], Count(c));
      [rows[0][Cum(c) := Num(total)]] + CumColumn(rows[1..], c, acc[y := total])
  }

  lemma GetAfterAdd(acc: map<int, int>, y: int, v: int, z: int)
    ensures Get(acc[y := Get(acc, y) + v], z) == Get(acc, z) + (if z == y then v else 0)
  {
  }

  /** Row i after one pass: its `c_cum` is the starting total of its season
      plus the season's sum up to and including row i; nothing else changes. */
  lemma {:induction false} CumColumnAt(rows: seq<Row>, c: Stat, acc: map<int, int>, i: nat)
    requires i < |rows|
    ensures CumColumn(rows, c, acc)[i]
      == rows[i][Cum(c) := Num(Get(acc, Season(rows[i])) + SeasonSum(rows[..i + 1], Season(rows[i]), c))]
  {
    var y := Season(rows[0]);
    var v := Val(rows[0], Count(c));
    var acc' := acc[y := Get(acc, y) + v];
    if i == 0 {
      assert rows[..1] == [rows[0]] + [];
      SeasonSumCons(rows[0], [], y, c);
    } else {
      var yi := Season(rows[i]);
      var tail := rows[1..];
      CumColumnAt(tail, c, acc', i - 1);
      PrefixCons(rows, i);
      SeasonSumCons(rows[0], tail[..i], yi, c);
      GetAfterAdd(acc, y, v, yi);
      assert Get(acc', yi) + SeasonSum(tail[..i], yi, c) == Get(acc, yi) + SeasonSum(rows[..i + 1], yi, c);
      assert CumColumn(rows, c, acc)[i] == CumColumn(tail, c, acc')[i - 1];
    }
  }

  lemma PrefixCons(rows: seq<Row>, i: nat)
    requires 0 < i < |rows|
    ensures rows[1..][i - 1] == rows[i]
    ensures rows[..i + 1] == [rows[0]] + rows[1..][..i]
  {
  }

  /** The loop `for col in val_cols: current_df[f"{col}_cum"] = ...`. */
  function AddCumColumns(rows: seq<Row>, cols: seq<Stat>): (r: seq<Row>)
    ensures |r| == |rows|
    decreases |cols|
  {
    if |cols| == 0 then rows
    else AddCumColumns(CumColumn(rows, cols[0], map[]), cols[1..])
  }

  /** Two tables that agree on season and column c in their first n rows have
      the same season totals of c over those rows. */
  lemma {:induction false} SeasonSumAgree(a: seq<Row>, b: seq<Row>, n: nat, y: int, c: Stat)
    requires n <= |a| && n <= |b|
    requires forall k :: 0 <= k < n ==> Season(a[k]) == Season(b[k]) && Val(a[k], Count(c)) == Val(b[k], Count(c))
    ensures SeasonSum(a[..n], y, c) == SeasonSum(b[..n], y, c)
  {
    if n > 0 {
      SeasonSumAgree(a, b, n - 1, y, c);
      assert a[..n][..n - 1] == a[..n - 1];
      assert b[..n][..n - 1] == b[..n - 1];
    }
  }

  /** Row i after the loop keeps every column that is not the running total
      of a listed column, with its value. */
  lemma {:induction false} AddCumColumnsKeep(rows: seq<Row>, cols: seq<Stat>, i: nat, k: Col)
    requires i < |rows| && !(k.Cum? && k.stat in cols)
    ensures k in AddCumColumns(rows, cols)[i] <==> k in rows[i]
    ensures k in rows[i] ==> AddCumColumns(rows, cols)[i][k] == rows[i][k]
    decreases |cols|
  {
    if |cols| > 0 {
      var r1 := CumColumn(rows, cols[0], map[]);
      CumColumnAt(rows, cols[0], map[], i);
      AddCumColumnsKeep(r1, cols[1..], i, k);
    }
  }

  /** Row i after the loop: a listed column c has its running total, computed
      on the original values. */
  lemma {:induction false} AddCumColumnsSum(rows: seq<Row>, cols: seq<Stat>, i: nat, c: Stat)
    requires i < |rows| && c in cols
    ensures Cum(c) in AddCumColumns(rows, cols)[i]
    ensures AddCumColumns(rows, cols)[i][Cum(c)] == Num(SeasonSum(rows[..i + 1], Season(rows[i]), c))
    decreases |cols|
  {
    var c0 := cols[0];
    var r1 := CumColumn(rows, c0, map[]);
    CumColumnAt(rows, c0, map[], i);
    if c in cols[1..] {
      AddCumColumnsSum(r1, cols[1..], i, c);
      forall k | 0 <= k < i + 1
        ensures Season(r1[k]) == Season(rows[k]) && Val(r1[k], Count(c)) == Val(rows[k], Count(c))
      {
        CumColumnAt(rows, c0, map[], k);
      }
      SeasonSumAgree(r1, rows, i + 1, Season(rows[i]), c);
    } else {
      assert cols == [c0] + cols[1..];
      AddCumColumnsKeep(r1, cols[1..], i, Cum(c));
    }
  }

  /** `drop(d, axis=1)`: removes column d from every row. */
  function DropColumn(rows: seq<Row>, d: Col): (r: seq<Row>)
    ensures |r| == |rows|
  {
    seq(|rows|, i requires 0 <= i < |rows| => rows[i] - {d})
  }

  /** After the drop, row i lacks column d and keeps every other column with
      its value. */
  lemma DropColumnAt(rows: seq<Row>, i: nat, d: Col, k: Col)
    requires i < |rows| && k != d
    ensures d !in DropColumn(rows, d)[i]
    ensures k in DropColumn(rows, d)[i] <==> k in rows[i]
    ensures k in rows[i] ==> DropColumn(rows, d)[i][k] == rows[i][k]
  {
  }

  /** The running totals of the listed counting columns (`val_cols` in the
      script), then `drop("gtm_cum")`. */
  function WithTotals(rows: seq<Row>, cols: seq<Stat>): (r: seq<Row>)
    ensures |r| == |rows|
  {
    DropColumn(AddCumColumns(rows, cols), Cum(Gtm))
  }

  /** Row i after processing: no `gtm_cum`, and for a counting column c other
      than `gtm`, `c_cum` is the sum of c over row i's season up to and
      including row i. */
  lemma WithTotalsSum(rows: seq<Row>, cols: seq<Stat>, i: nat, c: Stat)
    requires i < |rows| && c in cols && c != Gtm
    ensures Cum(Gtm) !in WithTotals(rows, cols)[i]
    ensures Cum(c) in WithTotals(rows, cols)[i]
    ensures WithTotals(rows, cols)[i][Cum(c)] == Num(SeasonSum(rows[..i + 1], Season(rows[i]), c))
  {
    DropColumnAt(AddCumColumns(rows, cols), i, Cum(Gtm), Cum(c));
    AddCumColumnsSum(rows, cols, i, c);
  }

  /** Row i after processing keeps every column that is not a running total,
      with its value. */
  lemma WithTotalsKeep(rows: seq<Row>, cols: seq<Stat>, i: nat, k: Col)
    requires i < |rows| && !k.Cum?
    ensures k in WithTotals(rows, cols)[i] <==> k in rows[i]
    ensures k in rows[i] ==> WithTotals(rows, cols)[i][k] == rows[i][k]
  {
    DropColumnAt(AddCumColumns(rows, cols), i, Cum(Gtm), k);
    AddCumColumnsKeep(rows, cols, i, k);
  }

  /** `current_df` after `astype(int)`, the running totals and
      `drop("gtm_cum")`. `astype(int)` raises unless every row has integers in
      all counting columns: None. `astype(int)` does not look at `year`; the
      requirement of an integer `year` only restates that the script assigns
      the current year to every row when it reads the table (line 60), so it
      never fails on a table the script builds. */
  function ProcessCurrent(rows: seq<Row>): (r: Option<seq<Row>>)
    ensures r.Some? <==> CountedAll(rows, ValCols)
    ensures r.Some? ==> |r.value| == |rows|
  {
    if CountedAll(rows, ValCols) then Some(WithTotals(rows, ValCols)) else None
  }

  // ---------------------------------------------------------------------------
  // Properties of the running totals

  /** Rows of other seasons never contribute to a season's total. */
  lemma {:induction false} SeasonSumIgnoresOthers(a: seq<Row>, x: Row, b: seq<Row>, y: int, c: Stat)
    requires Season(x) != y
    ensures SeasonSum(a + [x] + b, y, c) == SeasonSum(a + b, y, c)
    decreases |b|
  {
    if |b| == 0 {
      assert (a + [x] + b)[..|a|] == a;
      assert a + b == a;
    } else {
      var n := |b| - 1;
      assert (a + [x] + b)[..|a| + 1 + n] == a + [x] + b[..n];
      assert (a + b)[..|a| + n] == a + b[..n];
      SeasonSumIgnoresOthers(a, x, b[..n], y, c);
    }
  }

  /** With non-negative counts, a season's total over a prefix never exceeds
      its total over a longer prefix. */
  lemma {:induction false} SeasonSumPrefixGrows(rows: seq<Row>, m: nat, n: nat, y: int, c: Stat)
    requires m <= n <= |rows|
    requires forall k :: 0 <= k < |rows| ==> Val(rows[k], Count(c)) >= 0
    ensures SeasonSum(rows[..m], y, c) <= SeasonSum(rows[..n], y, c)
    decreases n - m
  {
    if m < n {
      SeasonSumPrefixGrows(rows, m, n - 1, y, c);
      assert rows[..n][..n - 1] == rows[..n - 1];
    }
  }

  /** Extending a prefix by rows of other seasons leaves a season's total unchanged. */
  lemma {:induction false} SeasonSumSkip(rows: seq<Row>, m: nat, n: nat, y: int, c: Stat)
    requires m <= n <= |rows|
    requires forall k :: m <= k < n ==> Season(rows[k]) != y
    ensures SeasonSum(rows[..m], y, c) == SeasonSum(rows[..n], y, c)
    decreases n - m
  {
    if m < n {
      SeasonSumSkip(rows, m, n - 1, y, c);
      assert rows[..n][..n - 1] == rows[..n - 1];
    }
  }

  /** The first row of a season in the current game logs has its own count as
      its running total. */
  lemma SeasonStartsAtOwnCount(rows: seq<Row>, cols: seq<Stat>, c: Stat, i: nat)
    requires c in cols && c != Gtm && i < |rows| && HasInt(rows[i], Count(c))
    requires forall k :: 0 <= k < i ==> Season(rows[k]) != Season(rows[i])
    ensures Cum(c) in WithTotals(rows, cols)[i]
    ensures WithTotals(rows, cols)[i][Cum(c)] == rows[i][Count(c)]
  {
    WithTotalsSum(rows, cols, i, c);
    SeasonSumSkip(rows, 0, i, Season(rows[i]), c);
    assert rows[..i + 1][..i] == rows[..i];
  }

  lemma NumCellsOrdered(a: Row, b: Row, k: Col, x: int, y: int)
    requires k in a && a[k] == Num(x) && k in b && b[k] == Num(y) && x <= y
    ensures HasInt(a, k) && HasInt(b, k) && Val(a, k) <= Val(b, k)
  {
  }

  /** With non-negative counts, running totals never decrease within a season. */
  lemma RunningTotalsGrow(rows: seq<Row>, cols: seq<Stat>, c: Stat, i: nat, j: nat)
    requires c in cols && c != Gtm
    requires i <= j < |rows| && Season(rows[i]) == Season(rows[j])
    requires forall k :: 0 <= k < |rows| ==> Val(rows[k], Count(c)) >= 0
    ensures HasInt(WithTotals(rows, cols)[i], Cum(c)) && HasInt(WithTotals(rows, cols)[j], Cum(c))
    ensures Val(WithTotals(rows, cols)[i], Cum(c)) <= Val(WithTotals(rows, cols)[j], Cum(c))
  {
    var y := Season(rows[i]);
    WithTotalsSum(rows, cols, i, c);
    WithTotalsSum(rows, cols, j, c);
    SeasonSumPrefixGrows(rows, i + 1, j + 1, y, c);
    NumCellsOrdered(WithTotals(rows, cols)[i], WithTotals(rows, cols)[j], Cum(c),
                    SeasonSum(rows[..i + 1], y, c), SeasonSum(rows[..j + 1], y, c));
  }

  /** The last row of a season carries the season's total. */
  lemma SeasonEndsAtTotal(rows: seq<Row>, cols: seq<Stat>, c: Stat, j: nat)
    requires c in cols && c != Gtm && j < |rows|
    requires forall k :: j < k < |rows| ==> Season(rows[k]) != Season(rows[j])
    ensures Cum(c) in WithTotals(rows, cols)[j]
    ensures WithTotals(rows, cols)[j][Cum(c)] == Num(SeasonSum(rows, Season(rows[j]), c))
  {
    WithTotalsSum(rows, cols, j, c);
    SeasonSumSkip(rows, j + 1, |rows|, Season(rows[j]), c);
    assert rows[..|rows|] == rows;
  }

  // ---------------------------------------------------------------------------
  // Sorting: `sort_values(["year", "gtm"], ascending=[False, True])`

  predicate Keyed(row: Row) {
    HasInt(row, YearCol) && HasInt(row, GtmCol)
  }

  predicate AllKeyed(rows: seq<Row>) {
    forall k :: 0 <= k < |rows| ==> Keyed(rows[k])
  }

  /** Row `a` may come before row `b`: a later season, or the same season and
      a game number no larger. */
  predicate InOrder(a: Row, b: Row) {
    Season(a) > Season(b) || (Season(a) == Season(b) && Val(a, GtmCol) <= Val(b, GtmCol))
  }

  predicate Sorted(rows: seq<Row>) {
    forall i, j :: 0 <= i < j < |rows| ==> InOrder(rows[i], rows[j])
  }

  /** Places `x` before the first row it may precede, so that it stays ahead
      of rows with an equal key. */
  function Insert(x: Row, s: seq<Row>): (r: seq<Row>)
    ensures multiset(r) == multiset(s) + multiset{x}
  {
    if |s| == 0 then [x]
    else if InOrder(x, s[0]) then [x] + s
    else
      assert s == [s[0]] + s[1..];
      [s[0]] + Insert(x, s[1..])
  }

  /** A row that may precede every row of s and x may precede every row of
      `Insert(x, s)`. */
  lemma InsertBelow(a: Row, x: Row, s: seq<Row>)
    requires InOrder(a, x) && forall k :: 0 <= k < |s| ==> InOrder(a, s[k])
    ensures forall k :: 0 <= k < |Insert(x, s)| ==> InOrder(a, Insert(x, s)[k])
  {
    var t := Insert(x, s);
    forall k | 0 <= k < |t| ensures InOrder(a, t[k]) {
      assert t[k] in multiset(t);
      if t[k] != x {
        assert t[k] in multiset(s);
        var m :| 0 <= m < |s| && s[m] == t[k];
      }
    }
  }

  lemma {:induction false} InsertSorted(x: Row, s: seq<Row>)
    requires Sorted(s)
    ensures Sorted(Insert(x, s))
  {
    if |s| > 0 {
      if InOrder(x, s[0]) {
        var r := [x] + s;
        forall i, j | 0 <= i < j < |r| ensures InOrder(r[i], r[j]) {
          if i == 0 && j > 1 {
            assert InOrder(s[0], s[j - 1]);
          }
        }
      } else {
        var t := Insert(x, s[1..]);
        InsertSorted(x, s[1..]);
        InsertBelow(s[0], x, s[1..]);
        var r := [s[0]] + t;
        assert r == Insert(x, s);
        forall i, j | 0 <= i < j < |r| ensures InOrder(r[i], r[j]) {
          if i > 0 {
            assert r[i] == t[i - 1] && r[j] == t[j - 1];
          } else {
            assert r[j] == t[j - 1];
          }
        }
      }
    }
  }

  /** The combined table's order: an insertion sort, newest season first, then
      by game number, that keeps rows with equal keys in input order. */
  function SortRows(s: seq<Row>): (r: seq<Row>)
    ensures multiset(r) == multiset(s)
    ensures Sorted(r)
  {
    if |s| == 0 then []
    else
      assert s == [s[0]] + s[1..];
      InsertSorted(s[0], SortRows(s[1..]));
      Insert(s[0], SortRows(s[1..]))
  }

  // ---------------------------------------------------------------------------
  // `drop_duplicates()`

  /** Keeps the first occurrence of every distinct row, in input order. */
  function DropDuplicates(s: seq<Row>): (r: seq<Row>)
    ensures forall x :: x in r <==> x in s
    ensures forall i, j :: 0 <= i < j < |r| ==> r[i] != r[j]
    ensures |r| <= |s|
  {
    if |s| == 0 then []
    else
      var p := DropDuplicates(s[..|s| - 1]);
      var x := s[|s| - 1];
      assert s == s[..|s| - 1] + [x];
      if x in p then p else p + [x]
  }

  /** The kept rows appear in the order of their first occurrence in the input. */
  lemma {:induction false} DropDuplicatesOrder(s: seq<Row>)
    ensures forall i, j :: 0 <= i < j < |DropDuplicates(s)| ==>
      FirstIndex(s, DropDuplicates(s)[i]) < FirstIndex(s, DropDuplicates(s)[j])
  {
    if |s| > 0 {
      var n := |s| - 1;
      var p := DropDuplicates(s[..n]);
      var x := s[n];
      var r := DropDuplicates(s);
      DropDuplicatesOrder(s[..n]);
      forall e | e in p ensures FirstIndex(s, e) == FirstIndex(s[..n], e) && FirstIndex(s, e) < n {
        FirstIndexPrefix(s, n, e);
      }
      if x !in p {
        assert r == p + [x];
        assert x !in s[..n];
        forall i, j | 0 <= i < j < |r| ensures FirstIndex(s, r[i]) < FirstIndex(s, r[j]) {
          assert r[i] == p[i] && p[i] in p;
          if j < |p| {
            assert r[j] == p[j] && p[j] in p;
          } else {
            assert FirstIndex(s, x) == n;
          }
        }
      }
    }
  }

  /** Removing duplicates keeps a sorted table sorted. */
  lemma {:induction false} DropDuplicatesSorted(s: seq<Row>)
    requires Sorted(s)
    ensures Sorted(DropDuplicates(s))
  {
    if |s| > 0 {
      var n := |s| - 1;
      var p := DropDuplicates(s[..n]);
      var x := s[n];
      DropDuplicatesSorted(s[..n]);
      if x !in p {
        var r := p + [x];
        forall i, j | 0 <= i < j < |r| ensures InOrder(r[i], r[j]) {
          assert r[i] == p[i];
          if j < |p| {
            assert r[j] == p[j];
          } else {
            assert p[i] in s[..n];
            var k :| 0 <= k < n && s[..n][k] == p[i];
            assert InOrder(s[k], s[n]);
          }
        }
      }
    }
  }

  // ---------------------------------------------------------------------------
  // The combined and optimized tables

  /** The processed current season stacked on the archive, sorted, with
      duplicate rows removed. */
  function CombinedRows(current: seq<Row>, archive: seq<Row>): seq<Row> {
    DropDuplicates(SortRows(WithTotals(current, ValCols) + archive))
  }

  /** `df`; None when `astype(int)` raises on the current season. */
  function Combined(current: seq<Row>, archive: seq<Row>): (r: Option<seq<Row>>)
    ensures r.Some? <==> CountedAll(current, ValCols)
  {
    match ProcessCurrent(current)
    case None => None
    case Some(p) => Some(DropDuplicates(SortRows(p + archive)))
  }

  lemma CurrentKeyed(current: seq<Row>)
    requires CountedAll(current, ValCols)
    ensures AllKeyed(WithTotals(current, ValCols))
  {
    assert ValCols[0] == Gtm;
    forall i | 0 <= i < |current| ensures Keyed(WithTotals(current, ValCols)[i]) {
      WithTotalsKeep(current, ValCols, i, YearCol);
      WithTotalsKeep(current, ValCols, i, GtmCol);
      assert HasInt(current[i], GtmCol);
    }
  }

  /** The combined table is ordered by season descending, then game number
      ascending; holds no two identical rows; and holds every distinct row of
      the processed current season and of the archive, and nothing else. */
  lemma CombinedSpec(current: seq<Row>, archive: seq<Row>)
    ensures Sorted(CombinedRows(current, archive))
    ensures forall i, j :: 0 <= i < j < |CombinedRows(current, archive)| ==>
      CombinedRows(current, archive)[i] != CombinedRows(current, archive)[j]
    ensures forall x :: x in CombinedRows(current, archive) <==> x in WithTotals(current, ValCols) + archive
  {
    var all := WithTotals(current, ValCols) + archive;
    var sorted := SortRows(all);
    DropDuplicatesSorted(sorted);
    forall x ensures x in sorted <==> x in all {
      assert x in sorted <==> x in multiset(sorted);
      assert x in all <==> x in multiset(all);
    }
  }

  /** When the current season passes `astype(int)` and the archive rows have
      integer seasons and game numbers, every combined row has them too. */
  lemma CombinedKeyed(current: seq<Row>, archive: seq<Row>)
    requires CountedAll(current, ValCols) && AllKeyed(archive)
    ensures Combined(current, archive) == Some(CombinedRows(current, archive))
    ensures AllKeyed(CombinedRows(current, archive))
  {
    CurrentKeyed(current);
    CombinedSpec(current, archive);
    var df := CombinedRows(current, archive);
    forall k | 0 <= k < |df| ensures Keyed(df[k]) {
      assert df[k] in WithTotals(current, ValCols) + archive;
    }
  }

  /** A missing column reads as NaN (None). */
  function Lookup(row: Row, c: Col): Option<Cell> {
    if c in row then Some(row[c]) else None
  }

  /** One row of `df[OutputCols]`. */
  function ProjectRow(row: Row): map<Col, Option<Cell>> {
    map c | c in OutputCols :: Lookup(row, c)
  }

  /** `df[OutputCols]`: every row restricted to the output columns. */
  function Project(rows: seq<Row>): (r: seq<map<Col, Option<Cell>>>)
    ensures |r| == |rows|
    ensures forall i :: 0 <= i < |rows| ==> r[i] == ProjectRow(rows[i])
  {
    seq(|rows|, i requires 0 <= i < |rows| => ProjectRow(rows[i]))
  }

  /** `optimized_df`; None when `astype(int)` raises on the current season. */
  function Optimized(current: seq<Row>, archive: seq<Row>): (r: Option<seq<map<Col, Option<Cell>>>>)
    ensures r.Some? <==> CountedAll(current, ValCols)
  {
    match Combined(current, archive)
    case None => None
    case Some(df) => Some(Project(df))
  }

  /** When the current season passes `astype(int)`, the optimized table is
      the combined table restricted to the output columns. */
  lemma OptimizedIsProjection(current: seq<Row>, archive: seq<Row>)
    requires CountedAll(current, ValCols)
    ensures Optimized(current, archive) == Some(Project(CombinedRows(current, archive)))
  {
  }

  /** A projected row has exactly the output columns, each holding the row's
      cell (None for NaN), and a row with integer season and game number keeps
      them, so projecting preserves the order. */
  lemma ProjectRowSpec(row: Row)
    ensures ProjectRow(row).Keys == set c | c in OutputCols
    ensures forall c :: c in OutputCols ==> ProjectRow(row)[c] == Lookup(row, c)
    ensures Keyed(row) ==>
      && ProjectRow(row)[YearCol] == Some(Num(Season(row)))
      && ProjectRow(row)[GtmCol] == Some(Num(Val(row, GtmCol)))
  {
    assert OutputCols[0] == GtmCol && OutputCols[1] == YearCol;
  }

  /** The projected running totals are the row's own. */
  lemma ProjectTotal(row: Row, c: Stat)
    requires c in OutputTotals
    ensures c != Gtm
    ensures Cum(c) in ProjectRow(row) && ProjectRow(row)[Cum(c)] == Lookup(row, Cum(c))
  {
    assert Cum(c) in OutputCols;
  }

  /** A projected row of game j of the processed current season carries that
      game's running totals for runs, hits, doubles, walks, strikeouts and
      home runs. */
  lemma ProjectCurrentTotals(current: seq<Row>, j: nat, c: Stat)
    requires j < |current| && c in OutputTotals
    ensures Cum(c) in ProjectRow(WithTotals(current, ValCols)[j])
    ensures ProjectRow(WithTotals(current, ValCols)[j])[Cum(c)]
      == Some(Num(SeasonSum(current[..j + 1], Season(current[j]), c)))
  {
    var w := WithTotals(current, ValCols)[j];
    ProjectTotal(w, c);
    assert c in ValCols;
    WithTotalsSum(current, ValCols, j, c);
  }
}
