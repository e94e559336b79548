/** The standings page's per-season cumulative wins (`calculateCumulativeWins` in
    assets/js/dashboard.js): games are grouped by season in first-seen order, and
    within each season every game gets its 1-based game number and the number of
    wins so far that season. */
module CumulativeWins {
  import opened Common

  /** One game of the standings feed: its season key, its result code ("W" for a
      win) and the remaining fields, which are carried through untouched. */
  datatype Game = Game(year: string, result: string, fields: map<string, string>)

  /** A game annotated with its number within its season and the season's wins so
      far. The annotation shadows any `gm` the game already carried. */
  datatype Row = Row(game: Game, gm: nat, wins: nat)

  predicate IsWin(g: Game) {
    g.result == "W"
  }

  function WinValue(g: Game): nat {
    if IsWin(g) then 1 else 0
  }

  /** Number of wins among a sequence of games: the reference count. */
  function Wins(s: seq<Game>): nat {
    if |s| == 0 then 0 else WinValue(s[0]) + Wins(s[1..])
  }

  lemma {:induction false} WinsSnoc(s: seq<Game>, g: Game)
    ensures Wins(s + [g]) == Wins(s) + WinValue(g)
  {
    if |s| == 0 {
      assert s + [g] == [g];
      assert [g][1..] == [];
    } else {
      assert (s + [g])[1..] == s[1..] + [g];
      WinsSnoc(s[1..], g);
    }
  }

  /** The games of season `y`, in input order. */
  function SeasonGames(d: seq<Game>, y: string): (r: seq<Game>)
    ensures |r| <= |d|
    ensures forall k :: 0 <= k < |r| ==> r[k].year == y
  {
    if |d| == 0 then []
    else (if d[0].year == y then [d[0]] else []) + SeasonGames(d[1..], y)
  }

  /** The games of every season other than `y`, in input order. */
  function OtherGames(d: seq<Game>, y: string): (r: seq<Game>)
    ensures |r| <= |d|
    ensures forall k :: 0 <= k < |r| ==> r[k].year != y
  {
    if |d| == 0 then []
    else (if d[0].year != y then [d[0]] else []) + OtherGames(d[1..], y)
  }

  /** The season key of every game, in input order. */
  function YearsOf(d: seq<Game>): (r: seq<string>)
    ensures |r| == |d|
  {
    if |d| == 0 then [] else [d[0].year] + YearsOf(d[1..])
  }

  /** The rows of season `y`, in output order. */
  function RowsOf(rows: seq<Row>, y: string): seq<Row> {
    if |rows| == 0 then []
    else (if rows[0].game.year == y then [rows[0]] else []) + RowsOf(rows[1..], y)
  }

  /** One pass over a season's games (`games.forEach` at lines 309-312): numbers
      games from n + 1 on and carries the running win count w. */
  function Annotate(s: seq<Game>, n: nat, w: nat): (r: seq<Row>)
    ensures |r| == |s|
  {
    if |s| == 0 then []
    else
      var w' := w + WinValue(s[0]);
      [Row(s[0], n + 1, w')] + Annotate(s[1..], n + 1, w')
  }

  /** A whole season, started with game number 0 and no wins. */
  function SeasonRows(s: seq<Game>): seq<Row> {
    Annotate(s, 0, 0)
  }

  /** `calculateCumulativeWins`: the season of the first game forms the first
      block (the first key `d3.group` sees), followed by the result for the
      games of every other season, which keeps their first-seen order. */
  function CalculateCumulativeWins(d: seq<Game>): seq<Row>
    decreases |d|
  {
    if |d| == 0 then []
    else
      var y := d[0].year;
      assert |OtherGames(d, y)| < |d| by {
        assert OtherGames(d, y) == OtherGames(d[1..], y);
      }
      SeasonRows(SeasonGames(d, y)) + CalculateCumulativeWins(OtherGames(d, y))
  }

  // ---------------------------------------------------------------------------
  // One season

  lemma {:induction false} AnnotateRows(s: seq<Game>, n: nat, w: nat)
    ensures forall k :: 0 <= k < |s| ==>
      Annotate(s, n, w)[k] == Row(s[k], n + k + 1, w + Wins(s[..k + 1]))
  {
    if |s| > 0 {
      var w' := w + WinValue(s[0]);
      AnnotateRows(s[1..], n + 1, w');
      forall k | 0 <= k < |s|
        ensures Annotate(s, n, w)[k] == Row(s[k], n + k + 1, w + Wins(s[..k + 1]))
      {
        if k == 0 {
          assert s[..1][1..] == [];
        } else {
          assert s[..k + 1][1..] == s[1..][..k];
          assert Annotate(s, n, w)[k] == Annotate(s[1..], n + 1, w')[k - 1];
        }
      }
    }
  }

  /** Within a season, row k is the season's game k, numbered k + 1, carrying the
      number of wins among the season's games 1..k + 1. */
  lemma SeasonRowsSpec(s: seq<Game>)
    ensures |SeasonRows(s)| == |s|
    ensures forall k :: 0 <= k < |s| ==> SeasonRows(s)[k] == Row(s[k], k + 1, Wins(s[..k + 1]))
  {
    AnnotateRows(s, 0, 0);
  }

  /** The win count restarts with each season: the first row counts only the
      first game, and the last row holds the season's total. */
  lemma SeasonWinsEnds(s: seq<Game>)
    requires |s| > 0
    ensures SeasonRows(s)[0].wins == WinValue(s[0])
    ensures SeasonRows(s)[|s| - 1].wins == Wins(s)
  {
    SeasonRowsSpec(s);
    assert s[..1][1..] == [];
    assert s[..|s|] == s;
  }

  /** From one game of a season to the next, the win count never decreases and
      rises by exactly one precisely when the later game is a win. */
  lemma SeasonWinsStep(s: seq<Game>, k: nat)
    requires 0 < k < |s|
    ensures SeasonRows(s)[k - 1].wins <= SeasonRows(s)[k].wins <= SeasonRows(s)[k - 1].wins + 1
    ensures SeasonRows(s)[k].wins == SeasonRows(s)[k - 1].wins + 1 <==> IsWin(s[k])
  {
    SeasonRowsSpec(s);
    assert s[..k + 1] == s[..k] + [s[k]];
    WinsSnoc(s[..k], s[k]);
  }

  // ---------------------------------------------------------------------------
  // Grouping

  /** Grouping splits the games into one season and the rest, losing and
      adding none. */
  lemma {:induction false} SeasonsPartition(d: seq<Game>, y: string)
    ensures |SeasonGames(d, y)| + |OtherGames(d, y)| == |d|
    ensures multiset(SeasonGames(d, y)) + multiset(OtherGames(d, y)) == multiset(d)
  {
    if |d| > 0 {
      SeasonsPartition(d[1..], y);
      assert d == [d[0]] + d[1..];
    }
  }

  lemma {:induction false} SeasonGamesOfOthers(d: seq<Game>, y0: string, y: string)
    ensures SeasonGames(OtherGames(d, y0), y) == if y == y0 then [] else SeasonGames(d, y)
  {
    if |d| > 0 {
      SeasonGamesOfOthers(d[1..], y0, y);
      if d[0].year == y0 {
        assert OtherGames(d, y0) == OtherGames(d[1..], y0);
        if y != y0 {
          assert SeasonGames(d, y) == SeasonGames(d[1..], y);
        }
      } else {
        assert OtherGames(d, y0) == [d[0]] + OtherGames(d[1..], y0);
        assert OtherGames(d, y0)[1..] == OtherGames(d[1..], y0);
      }
    }
  }

  lemma {:induction false} RowsOfAppend(a: seq<Row>, b: seq<Row>, y: string)
    ensures RowsOf(a + b, y) == RowsOf(a, y) + RowsOf(b, y)
  {
    if |a| == 0 {
      assert a + b == b;
    } else {
      assert (a + b)[1..] == a[1..] + b;
      RowsOfAppend(a[1..], b, y);
    }
  }

  lemma {:induction false} RowsOfAnnotate(s: seq<Game>, n: nat, w: nat, y0: string, y: string)
    requires forall k :: 0 <= k < |s| ==> s[k].year == y0
    ensures RowsOf(Annotate(s, n, w), y) == if y == y0 then Annotate(s, n, w) else []
  {
    if |s| > 0 {
      var w' := w + WinValue(s[0]);
      RowsOfAnnotate(s[1..], n + 1, w', y0, y);
      assert Annotate(s, n, w)[1..] == Annotate(s[1..], n + 1, w');
    }
  }

  /** Every row's season occurs among the input's seasons. */
  lemma {:induction false} RowYearsOccur(d: seq<Game>)
    ensures forall i :: 0 <= i < |CalculateCumulativeWins(d)| ==>
      CalculateCumulativeWins(d)[i].game.year in YearsOf(d)
    decreases |d|
  {
    if |d| > 0 {
      var y := d[0].year;
      var a := SeasonRows(SeasonGames(d, y));
      var o := OtherGames(d, y);
      assert o == OtherGames(d[1..], y);
      RowYearsOccur(o);
      OthersYearsOccur(d, y);
      SeasonRowsSpec(SeasonGames(d, y));
      var out := CalculateCumulativeWins(d);
      forall i | 0 <= i < |out| ensures out[i].game.year in YearsOf(d) {
        if i < |a| {
          assert out[i] == a[i];
        } else {
          assert out[i] == CalculateCumulativeWins(o)[i - |a|];
        }
      }
    }
  }

  lemma {:induction false} OthersYearsOccur(d: seq<Game>, y0: string)
    ensures forall y :: y in YearsOf(OtherGames(d, y0)) ==> y in YearsOf(d) && y != y0
  {
    if |d| > 0 {
      OthersYearsOccur(d[1..], y0);
      assert YearsOf(d) == [d[0].year] + YearsOf(d[1..]);
      if d[0].year == y0 {
        assert OtherGames(d, y0) == OtherGames(d[1..], y0);
      } else {
        assert OtherGames(d, y0) == [d[0]] + OtherGames(d[1..], y0);
        assert OtherGames(d, y0)[1..] == OtherGames(d[1..], y0);
        assert YearsOf(OtherGames(d, y0)) == [d[0].year] + YearsOf(OtherGames(d[1..], y0));
      }
    }
  }

  /** Filtering out one season keeps the relative first-appearance order of
      the remaining seasons. */
  lemma {:induction false} FirstIndexOthers(d: seq<Game>, y0: string, y1: string, y2: string)
    requires y1 != y0 && y2 != y0
    requires y1 in YearsOf(OtherGames(d, y0)) && y2 in YearsOf(OtherGames(d, y0))
    ensures y1 in YearsOf(d) && y2 in YearsOf(d)
    ensures FirstIndex(YearsOf(OtherGames(d, y0)), y1) < FirstIndex(YearsOf(OtherGames(d, y0)), y2)
        ==> FirstIndex(YearsOf(d), y1) < FirstIndex(YearsOf(d), y2)
  {
    OthersYearsOccur(d, y0);
    var o := OtherGames(d, y0);
    assert YearsOf(d)[0] == d[0].year;
    assert YearsOf(d)[1..] == YearsOf(d[1..]);
    if d[0].year == y0 {
      assert o == OtherGames(d[1..], y0);
      FirstIndexOthers(d[1..], y0, y1, y2);
    } else {
      assert o == [d[0]] + OtherGames(d[1..], y0);
      assert YearsOf(o)[0] == d[0].year;
      assert YearsOf(o)[1..] == YearsOf(OtherGames(d[1..], y0));
      if d[0].year != y1 && d[0].year != y2 {
        FirstIndexOthers(d[1..], y0, y1, y2);
      }
    }
  }

  // ---------------------------------------------------------------------------
  // The whole transform

  /** The output has one row per input game. */
  lemma {:induction false} CumulativeWinsLength(d: seq<Game>)
    ensures |CalculateCumulativeWins(d)| == |d|
    decreases |d|
  {
    if |d| > 0 {
      var y := d[0].year;
      assert OtherGames(d, y) == OtherGames(d[1..], y);
      SeasonsPartition(d, y);
      CumulativeWinsLength(OtherGames(d, y));
    }
  }

  /** For every season, the output's rows of that season are exactly that
      season's games in input order, numbered 1, 2, ... with running win counts. */
  lemma {:induction false} CumulativeWinsBySeason(d: seq<Game>, y: string)
    ensures RowsOf(CalculateCumulativeWins(d), y) == SeasonRows(SeasonGames(d, y))
    decreases |d|
  {
    if |d| == 0 {
    } else {
      var y0 := d[0].year;
      var o := OtherGames(d, y0);
      assert o == OtherGames(d[1..], y0);
      RowsOfAppend(SeasonRows(SeasonGames(d, y0)), CalculateCumulativeWins(o), y);
      RowsOfAnnotate(SeasonGames(d, y0), 0, 0, y0, y);
      CumulativeWinsBySeason(o, y);
      SeasonGamesOfOthers(d, y0, y);
      if y == y0 {
        assert SeasonRows([]) == [];
      } else {
        assert d[0].year != y;
        assert SeasonGames(d, y0)[0] == d[0];
      }
    }
  }

  /** Each season's rows are contiguous in the output. */
  lemma {:induction false} CumulativeWinsContiguous(d: seq<Game>)
    ensures forall i, j, k ::
              0 <= i < j < k < |CalculateCumulativeWins(d)| &&
              CalculateCumulativeWins(d)[i].game.year == CalculateCumulativeWins(d)[k].game.year
              ==> CalculateCumulativeWins(d)[j].game.year == CalculateCumulativeWins(d)[i].game.year
    decreases |d|
  {
    if |d| > 0 {
      var y0 := d[0].year;
      var g := SeasonGames(d, y0);
      var a := SeasonRows(g);
      var o := OtherGames(d, y0);
      assert o == OtherGames(d[1..], y0);
      var b := CalculateCumulativeWins(o);
      var out := CalculateCumulativeWins(d);
      assert out == a + b;
      SeasonRowsSpec(g);
      CumulativeWinsContiguous(o);
      RowYearsOccur(o);
      OthersYearsOccur(d, y0);
      forall i, j, k | 0 <= i < j < k < |out| && out[i].game.year == out[k].game.year
        ensures out[j].game.year == out[i].game.year
      {
        if k < |a| {
          assert out[i] == a[i] && out[j] == a[j];
        } else if i < |a| {
          assert false;
        } else {
          assert out[i] == b[i - |a|] && out[j] == b[j - |a|] && out[k] == b[k - |a|];
        }
      }
    }
  }

  /** Seasons appear in the output in the order of their first game in the input. */
  lemma {:induction false} CumulativeWinsSeasonOrder(d: seq<Game>)
    ensures forall i, j ::
              0 <= i < j < |CalculateCumulativeWins(d)| &&
              CalculateCumulativeWins(d)[i].game.year != CalculateCumulativeWins(d)[j].game.year
              ==> (CalculateCumulativeWins(d)[i].game.year in YearsOf(d) &&
                   CalculateCumulativeWins(d)[j].game.year in YearsOf(d) &&
                   FirstIndex(YearsOf(d), CalculateCumulativeWins(d)[i].game.year)
                   < FirstIndex(YearsOf(d), CalculateCumulativeWins(d)[j].game.year))
    decreases |d|
  {
    if |d| > 0 {
      var y0 := d[0].year;
      var g := SeasonGames(d, y0);
      var a := SeasonRows(g);
      var o := OtherGames(d, y0);
      assert o == OtherGames(d[1..], y0);
      var b := CalculateCumulativeWins(o);
      var out := CalculateCumulativeWins(d);
      assert out == a + b;
      SeasonRowsSpec(g);
      CumulativeWinsSeasonOrder(o);
      RowYearsOccur(o);
      RowYearsOccur(d);
      OthersYearsOccur(d, y0);
      assert YearsOf(d)[0] == y0;
      forall i, j | 0 <= i < j < |out| && out[i].game.year != out[j].game.year
        ensures FirstIndex(YearsOf(d), out[i].game.year) < FirstIndex(YearsOf(d), out[j].game.year)
      {
        if j < |a| {
          assert false;
        } else if i < |a| {
          assert out[i].game.year == y0;
          assert out[j] == b[j - |a|];
          assert out[j].game.year != y0;
        } else {
          assert out[i] == b[i - |a|] && out[j] == b[j - |a|];
          FirstIndexOthers(d, y0, out[i].game.year, out[j].game.year);
        }
      }
    }
  }
}
