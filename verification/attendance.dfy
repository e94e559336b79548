/** The attendance tables (assets/js/dashboard.js, `appendTableRows` and
    `renderMaxAttendanceInfo`): the team with the highest average attendance,
    and each team's bar width as a percentage of its league's highest. */
module Attendance {
  import opened Common

  /** One row of the attendance feed: franchise, stadium, league and average
      attendance per game. */
  datatype Team = Team(team: string, name: string, league: string, attendGame: real)

  /** Team k has the highest attendance, and every team before it has strictly less. */
  predicate IsFirstMax(data: seq<Team>, k: nat) {
    && k < |data|
    && (forall j :: 0 <= j < |data| ==> data[j].attendGame <= data[k].attendGame)
    && (forall j :: 0 <= j < k ==> data[j].attendGame < data[k].attendGame)
  }

  /** At most one position is the first maximum. */
  lemma FirstMaxUnique(data: seq<Team>, k1: nat, k2: nat)
    requires IsFirstMax(data, k1) && IsFirstMax(data, k2)
    ensures k1 == k2
  {
    assert data[k1].attendGame == data[k2].attendGame;
  }

  /** `data.reduce((max, team) => (team.attend_game > max.attend_game ? team : max), data[0])`.
      An empty feed gives None: the source reads a field of `undefined` there. */
  method MaxAttendanceTeam(data: seq<Team>) returns (best: Option<Team>)
    ensures best.None? <==> |data| == 0
    ensures best.Some? ==> exists k: nat :: IsFirstMax(data, k) && best.value == data[k]
  {
    if |data| == 0 {
      return None;
    }
    var b := data[0];
    ghost var bi := 0;
    var i := 0;
    while i < |data|
      invariant 0 <= i <= |data|
      invariant 0 <= bi < |data| && (bi < i || bi == 0)
      invariant b == data[bi]
      invariant forall j :: 0 <= j < i ==> data[j].attendGame <= b.attendGame
      invariant forall j :: 0 <= j < bi ==> data[j].attendGame < b.attendGame
    {
      if data[i].attendGame > b.attendGame {
        b := data[i];
        bi := i;
      }
      i := i + 1;
    }
    assert IsFirstMax(data, bi);
    return Some(b);
  }

  /** `d3.max(data, d => d.attend_game)` over a non-empty league. */
  function MaxAttendance(data: seq<Team>): (m: real)
    requires |data| > 0
    ensures exists k :: 0 <= k < |data| && data[k].attendGame == m
    ensures forall k :: 0 <= k < |data| ==> data[k].attendGame <= m
  {
    if |data| == 1 then data[0].attendGame
    else
      var t := MaxAttendance(data[1..]);
      assert forall k :: 1 <= k < |data| ==> data[k] == data[1..][k - 1];
      if data[0].attendGame >= t then data[0].attendGame else t
  }

  /** The bar widths of `appendTableRows`: `(d.attend_game / maxAttendance) * 100`
      for each team. A league whose highest attendance is zero divides by zero
      in the source and gives None. */
  function BarWidths(data: seq<Team>): (w: Option<seq<real>>)
    ensures w.Some? ==> |w.value| == |data|
  {
    if |data| == 0 then Some([])
    else
      var m := MaxAttendance(data);
      if m == 0.0 then None
      else Some(seq(|data|, i requires 0 <= i < |data| => data[i].attendGame / m * 100.0))
  }

  /** With non-negative attendances, every bar is between 0% and 100% wide,
      and exactly the teams at the league's highest attendance get a full bar. */
  lemma BarWidthsBounded(data: seq<Team>)
    requires forall k :: 0 <= k < |data| ==> data[k].attendGame >= 0.0
    ensures BarWidths(data).Some? <==> |data| == 0 || exists k :: 0 <= k < |data| && data[k].attendGame > 0.0
    ensures BarWidths(data).Some? ==> forall i :: 0 <= i < |data| ==>
      && 0.0 <= BarWidths(data).value[i] <= 100.0
      && (BarWidths(data).value[i] == 100.0 <==> data[i].attendGame == MaxAttendance(data))
  {
    if |data| > 0 {
      var m := MaxAttendance(data);
      if m != 0.0 {
        forall i | 0 <= i < |data|
          ensures 0.0 <= BarWidths(data).value[i] <= 100.0
          ensures BarWidths(data).value[i] == 100.0 <==> data[i].attendGame == m
        {
          var x := data[i].attendGame;
          QuotientInUnit(x, m);
          if x == m {
            QuotientOfSelf(x, m);
          } else {
            QuotientBelowOne(x, m);
          }
        }
      }
    }
  }

  lemma QuotientBelowOne(x: real, d: real)
    requires 0.0 <= x < d
    ensures x / d * 100.0 < 100.0
  {
    assert x / d * d == x;
  }
}
