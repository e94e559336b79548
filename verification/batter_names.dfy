/** Cleaning of batter names in 02_fetch_process_batting.py: an injury note in
    parentheses is cut off and the rest trimmed, then a trailing marker
    character is turned into the batter's stance and removed. */
module BatterNames {
  import opened Common

  // ---------------------------------------------------------------------------
  // Stance markers (`determine_and_clean_bats`)

  /** The stance a marker denotes: `*` left, `#` both sides, `?` unknown, and no marker right. */
  datatype Bats = Left | Both | Unknown | Right

  /** The label the script stores in the `bats` column. */
  function BatsLabel(b: Bats): string {
    match b
    case Left => "Left"
    case Both => "Both"
    case Unknown => "Unknown"
    case Right => "Right"
  }

  predicate EndsWith(s: string, suffix: string) {
    |suffix| <= |s| && s[|s| - |suffix|..] == suffix
  }

  /** `name[-1] in "*#?"`. */
  predicate IsMarker(c: char) {
    c == '*' || c == '#' || c == '?'
  }

  /** `determine_and_clean_bats(name)`: the stance from the `endswith` tests,
      then the name without its last character when that is a marker. An empty
      name makes `name[-1]` raise, so the name must be non-empty. */
  function DetermineAndCleanBats(name: string): (r: (Bats, string))
    requires |name| > 0
    ensures |r.1| == |name| || |r.1| == |name| - 1
    ensures r.1 == name[..|r.1|]
    ensures |r.1| == |name| - 1 <==> IsMarker(name[|name| - 1])
    ensures r.0 == Right <==> !IsMarker(name[|name| - 1])
    ensures Marker(r.0) == name[|r.1|..]
  {
    var bat :=
      if EndsWith(name, "*") then Left
      else if EndsWith(name, "#") then Both
      else if EndsWith(name, "?") then Unknown
      else Right;
    var last := name[|name| - 1];
    assert EndsWith(name, "*") <==> last == '*';
    assert EndsWith(name, "#") <==> last == '#';
    assert EndsWith(name, "?") <==> last == '?';
    (bat, if IsMarker(last) then name[..|name| - 1] else name)
  }

  /** The marker a stance is written with (none for a right-handed batter). */
  function Marker(b: Bats): string {
    match b
    case Left => "*"
    case Both => "#"
    case Unknown => "?"
    case Right => ""
  }

  /** The stance and the cleaned name together determine the original name:
      the stance comes from exactly the character that was removed. */
  lemma CleanBatsRoundTrip(name: string)
    requires |name| > 0
    ensures DetermineAndCleanBats(name).1 + Marker(DetermineAndCleanBats(name).0) == name
  {
    var last := name[|name| - 1];
    if IsMarker(last) {
      assert name == name[..|name| - 1] + [last];
    }
  }

  /** Only one marker is removed: "X*#" is a switch hitter named "X*". */
  lemma OneMarkerOnly()
    ensures DetermineAndCleanBats("X*#") == (Both, "X*")
  {
    assert "X*#"[..2] == "X*";
  }

  // ---------------------------------------------------------------------------
  // Injury notes (`str.split("(", expand=True)[0].str.strip()`)

  /** Python's `str.isspace` for one character, the set `str.strip()` removes. */
  predicate IsSpace(c: char) {
    var n := c as int;
    || 0x09 <= n <= 0x0D || 0x1C <= n <= 0x20 || n == 0x85 || n == 0xA0
    || n == 0x1680 || 0x2000 <= n <= 0x200A || n == 0x2028 || n == 0x2029
    || n == 0x202F || n == 0x205F || n == 0x3000
  }

  predicate AllSpace(s: string) {
    forall k :: 0 <= k < |s| ==> IsSpace(s[k])
  }

  /** The first piece of `split("(")`: everything before the first `(`. */
  function BeforeParen(s: string): (r: string)
    ensures |r| <= |s| && r == s[..|r|]
    ensures '(' !in r
    ensures |r| < |s| ==> s[|r|] == '('
  {
    if |s| == 0 || s[0] == '(' then []
    else [s[0]] + BeforeParen(s[1..])
  }

  /** `lstrip()`: drops leading whitespace. */
  function TrimStart(s: string): (r: string)
    ensures |r| <= |s| && r == s[|s| - |r|..]
    ensures forall k :: 0 <= k < |s| - |r| ==> IsSpace(s[k])
    ensures |r| > 0 ==> !IsSpace(r[0])
  {
    if |s| > 0 && IsSpace(s[0]) then
      var t := TrimStart(s[1..]);
      assert s[1..][|s| - 1 - |t|..] == s[|s| - |t|..];
      assert forall k :: 1 <= k < |s| ==> s[k] == s[1..][k - 1];
      t
    else s
  }

  /** `rstrip()`: drops trailing whitespace. */
  function TrimEnd(s: string): (r: string)
    ensures |r| <= |s| && r == s[..|r|]
    ensures forall k :: |r| <= k < |s| ==> IsSpace(s[k])
    ensures |r| > 0 ==> !IsSpace(r[|r| - 1])
  {
    if |s| > 0 && IsSpace(s[|s| - 1]) then
      var t := TrimEnd(s[..|s| - 1]);
      assert s[..|s| - 1][..|t|] == s[..|t|];
      t
    else s
  }

  /** `strip()`. */
  function Strip(s: string): string {
    TrimEnd(TrimStart(s))
  }

  /** The injury-note cleanup applied to the `name` column. */
  function StripInjuryNote(name: string): string {
    Strip(BeforeParen(name))
  }

  /** `r` is `s` with surrounding whitespace removed: a slice of `s` with only
      whitespace around it, starting and ending with a non-space character. */
  predicate IsStripOf(r: string, s: string) {
    && (exists i, j :: 0 <= i <= j <= |s| && r == s[i..j] && AllSpace(s[..i]) && AllSpace(s[j..]))
    && (|r| > 0 ==> !IsSpace(r[0]) && !IsSpace(r[|r| - 1]))
  }

  lemma StripSpec(s: string)
    ensures IsStripOf(Strip(s), s)
  {
    var t := TrimStart(s);
    var r := TrimEnd(t);
    var i := |s| - |t|;
    var j := i + |r|;
    assert r == s[i..j];
    assert s[j..] == t[|r|..];
    if |r| > 0 {
      assert r[0] == t[0];
    }
  }

  /** The cleaned name holds no `(`, has no surrounding whitespace, and is the
      text before the input's first `(` with only whitespace trimmed off. */
  lemma InjuryNoteSpec(name: string)
    ensures '(' !in StripInjuryNote(name)
    ensures IsStripOf(StripInjuryNote(name), BeforeParen(name))
  {
    var p := BeforeParen(name);
    StripSpec(p);
    var t := TrimStart(p);
    assert '(' !in t by {
      assert forall k :: 0 <= k < |t| ==> t[k] == p[|p| - |t| + k];
    }
    var r := TrimEnd(t);
    assert forall k :: 0 <= k < |r| ==> r[k] == t[k];
  }

  /** A name without `(` is only trimmed, and one that is already trimmed is
      returned unchanged. */
  lemma PlainNameKept(name: string)
    requires '(' !in name
    ensures StripInjuryNote(name) == Strip(name)
    ensures (|name| == 0 || (!IsSpace(name[0]) && !IsSpace(name[|name| - 1])))
            ==> StripInjuryNote(name) == name
  {
    assert BeforeParen(name) == name;
  }

  /** Cleaning twice changes nothing. */
  lemma StripInjuryNoteIdempotent(name: string)
    ensures StripInjuryNote(StripInjuryNote(name)) == StripInjuryNote(name)
  {
    var r := StripInjuryNote(name);
    InjuryNoteSpec(name);
    PlainNameKept(r);
  }

  /** The two cleanups in the order the script applies them. A name that is
      empty after the injury-note cleanup makes `name[-1]` raise: None. */
  function CleanPlayerName(raw: string): (r: Option<(Bats, string)>)
    ensures r.None? <==> |StripInjuryNote(raw)| == 0
    ensures r.Some? ==> '(' !in r.value.1 && r.value.1 + Marker(r.value.0) == StripInjuryNote(raw)
  {
    var n := StripInjuryNote(raw);
    if |n| == 0 then None
    else
      InjuryNoteSpec(raw);
      CleanBatsRoundTrip(n);
      var r := DetermineAndCleanBats(n);
      assert forall k :: 0 <= k < |r.1| ==> r.1[k] == n[k];
      Some(r)
  }
}
