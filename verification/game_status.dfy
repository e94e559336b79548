/** The standings annotation `gameStatusText` (assets/js/dashboard.js): a
    games-back figure rendered as "N games up", "N games back", or, for zero,
    the bare " games back". Standings report games back in half games, so the
    figure is held as a signed count of half games. */
module GameStatus {
  import opened Common

  predicate IsDigit(c: char) {
    '0' <= c <= '9'
  }

  function DigitChar(d: nat): (c: char)
    requires d < 10
    ensures IsDigit(c) && c as int - '0' as int == d
  {
    ('0' as int + d) as char
  }

  /** JavaScript's `Number#toString()` of a non-negative integer: decimal digits,
      no leading zero. */
  function NatToString(n: nat): (s: string)
    ensures |s| >= 1
    ensures forall k :: 0 <= k < |s| ==> IsDigit(s[k])
    ensures |s| > 1 ==> s[0] != '0'
  {
    if n < 10 then [DigitChar(n)] else NatToString(n / 10) + [DigitChar(n % 10)]
  }

  /** The value of a string of decimal digits. */
  function DigitsValue(s: string): nat
    requires forall k :: 0 <= k < |s| ==> IsDigit(s[k])
  {
    if |s| == 0 then 0
    else
      assert IsDigit(s[|s| - 1]);
      DigitsValue(s[..|s| - 1]) * 10 + (s[|s| - 1] as int - '0' as int)
  }

  lemma {:induction false} NatToStringValue(n: nat)
    ensures DigitsValue(NatToString(n)) == n
  {
    if n >= 10 {
      NatToStringValue(n / 10);
      var s := NatToString(n);
      assert s[..|s| - 1] == NatToString(n / 10);
    }
  }

  /** `toString()` of the non-negative number h / 2: the whole part, then ".5"
      when h is odd. */
  function HalvesToString(h: nat): string {
    NatToString(h / 2) + (if h % 2 == 1 then ".5" else "")
  }

  const Up := " games up"
  const Back := " games back"

  /** `gameStatusText(gamesBack)` with gamesBack == h / 2. */
  function GameStatusText(h: int): (r: string)
    ensures '-' !in r
    ensures h == 0 <==> r == Back
    ensures h > 0 <==> (|r| > |Up| && r[|r| - |Up|..] == Up)
  {
    if h > 0 then
      var r := HalvesToString(h) + Up;
      assert r[|r| - 1] == 'p' && Back[|Back| - 1] == 'k';
      r
    else if h < 0 then
      var r := HalvesToString(-h) + Back;
      assert r[|r| - 1] == 'k' && Up[|Up| - 1] == 'p';
      assert r[|r| - |Up|..][|Up| - 1] == r[|r| - 1];
      r
    else Back
  }

  // ---------------------------------------------------------------------------
  // Reading a status text back

  predicate AllDigits(s: string) {
    forall k :: 0 <= k < |s| ==> IsDigit(s[k])
  }

  /** Reads a non-negative half-game figure written as digits with an optional ".5". */
  function ParseHalves(s: string): Option<nat> {
    if |s| >= 3 && s[|s| - 2..] == ".5" && AllDigits(s[..|s| - 2]) then
      Some(2 * DigitsValue(s[..|s| - 2]) + 1)
    else if |s| >= 1 && AllDigits(s) then
      Some(2 * DigitsValue(s))
    else None
  }

  /** Reads a status text back into a signed half-game count. */
  function ParseStatus(t: string): Option<int> {
    if t == Back then Some(0)
    else if |t| > |Up| && t[|t| - |Up|..] == Up then
      match ParseHalves(t[..|t| - |Up|])
      case Some(h) => if h > 0 then Some(h) else None
      case None => None
    else if |t| > |Back| && t[|t| - |Back|..] == Back then
      match ParseHalves(t[..|t| - |Back|])
      case Some(h) => if h > 0 then Some(-(h as int)) else None
      case None => None
    else None
  }

  lemma HalvesRoundTrip(h: nat)
    ensures ParseHalves(HalvesToString(h)) == Some(h)
  {
    var w := NatToString(h / 2);
    NatToStringValue(h / 2);
    var s := HalvesToString(h);
    if h % 2 == 1 {
      assert s[|s| - 2..] == ".5";
      assert s[..|s| - 2] == w;
    } else {
      assert s == w;
      if |s| >= 3 {
        assert IsDigit(s[|s| - 2]);
        assert s[|s| - 2..][0] == s[|s| - 2];
      }
    }
  }

  /** The status text determines the games-back figure: reading it back gives
      the original signed half-game count, in all three branches. */
  lemma StatusRoundTrip(h: int)
    ensures ParseStatus(GameStatusText(h)) == Some(h)
  {
    var t := GameStatusText(h);
    if h > 0 {
      HalvesRoundTrip(h);
      assert t[..|t| - |Up|] == HalvesToString(h);
    } else if h < 0 {
      HalvesRoundTrip(-h);
      assert t[..|t| - |Back|] == HalvesToString(-h);
      assert t[|t| - |Back|..] == Back;
      assert t != Back;
      assert t[|t| - 1] == 'k';
    }
  }
}
