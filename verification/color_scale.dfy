/** The batting tables' conditional colouring (assets/js/dashboard.js,
    `renderTable` and its helpers): per-column min and max, a value's position
    between them, a colour interpolated channel by channel between two `#rrggbb`
    endpoints, and black or white text chosen by the YIQ luma test. Numbers are
    `real`; `Math.round` is floor(x + 1/2). */
module ColorScale {
  import opened Common

  type Byte = x: int | 0 <= x < 256

  /** The three channels of a colour. */
  datatype Rgb = Rgb(r: Byte, g: Byte, b: Byte)

  // ---------------------------------------------------------------------------
  // Hex digits

  /** A digit `parseInt(_, 16)` accepts, in either case. */
  predicate IsHexDigit(c: char) {
    '0' <= c <= '9' || 'a' <= c <= 'f' || 'A' <= c <= 'F'
  }

  /** A digit as `toString(16)` writes it: lower case. */
  predicate IsLowerHexDigit(c: char) {
    '0' <= c <= '9' || 'a' <= c <= 'f'
  }

  function HexValue(c: char): (v: nat)
    requires IsHexDigit(c)
    ensures v < 16
  {
    if '0' <= c <= '9' then c as int - '0' as int
    else if 'a' <= c <= 'f' then c as int - 'a' as int + 10
    else c as int - 'A' as int + 10
  }

  function HexChar(v: nat): (c: char)
    requires v < 16
    ensures IsLowerHexDigit(c) && IsHexDigit(c) && HexValue(c) == v
  {
    if v < 10 then ('0' as int + v) as char else ('a' as int + v - 10) as char
  }

  /** `n.toString(16)` for a non-negative integer: lower-case digits, no leading zero. */
  function JsHex(n: nat): (s: string)
    ensures |s| >= 1
    ensures forall k :: 0 <= k < |s| ==> IsLowerHexDigit(s[k])
  {
    if n < 16 then [HexChar(n)] else JsHex(n / 16) + [HexChar(n % 16)]
  }

  /** `s.padStart(2, '0')`. */
  function PadStart2(s: string): (p: string)
    ensures |p| == if |s| >= 2 then |s| else 2
  {
    if |s| >= 2 then s else "00"[..2 - |s|] + s
  }

  /** One rounded channel as `interpolateColor` writes it:
      `val.toString(16).padStart(2, '0')`, a minus sign first when negative. */
  function FormatChannel(v: int): string {
    PadStart2(if v < 0 then "-" + JsHex(-v) else JsHex(v))
  }

  /** A channel in range is written as exactly two lower-case digits, high digit first. */
  lemma FormatByte(v: Byte)
    ensures FormatChannel(v) == [HexChar(v / 16), HexChar(v % 16)]
  {
    if v >= 16 {
      assert JsHex(v / 16) == [HexChar(v / 16)];
    }
  }

  // ---------------------------------------------------------------------------
  // Colour strings

  /** `'#'` followed by six lower-case hex digits. */
  predicate IsCanonicalColor(s: string) {
    |s| == 7 && s[0] == '#' && forall k :: 1 <= k < 7 ==> IsLowerHexDigit(s[k])
  }

  /** Reads the three channels of a seven-character colour string, two digits
      each. The first character is skipped without being looked at, as
      `slice(1)` and `substr(1, 2)` do. */
  function ParseColor(s: string): (c: Option<Rgb>)
    ensures c.Some? <==> |s| == 7 && forall k :: 1 <= k < 7 ==> IsHexDigit(s[k])
  {
    if |s| == 7 && forall k :: 1 <= k < 7 ==> IsHexDigit(s[k]) then
      Some(Rgb(16 * HexValue(s[1]) + HexValue(s[2]),
               16 * HexValue(s[3]) + HexValue(s[4]),
               16 * HexValue(s[5]) + HexValue(s[6])))
    else None
  }

  /** The string `interpolateColor` builds from three rounded channels. */
  function FormatColor(r: int, g: int, b: int): string {
    "#" + FormatChannel(r) + FormatChannel(g) + FormatChannel(b)
  }

  /** A colour with channels in range is written canonically, and reading it
      back yields the same channels. */
  lemma FormatColorRoundTrip(c: Rgb)
    ensures IsCanonicalColor(FormatColor(c.r, c.g, c.b))
    ensures ParseColor(FormatColor(c.r, c.g, c.b)) == Some(c)
  {
    FormatByte(c.r);
    FormatByte(c.g);
    FormatByte(c.b);
    var s := FormatColor(c.r, c.g, c.b);
    assert s == ['#', HexChar(c.r / 16), HexChar(c.r % 16), HexChar(c.g / 16),
                 HexChar(c.g % 16), HexChar(c.b / 16), HexChar(c.b % 16)];
  }

  // ---------------------------------------------------------------------------
  // Interpolation

  /** `Math.round`: the nearest integer, halves rounded up. */
  function Round(x: real): (n: int)
    ensures n as real - 0.5 <= x < n as real + 0.5
  {
    (x + 0.5).Floor
  }

  function Min(a: int, b: int): int {
    if a <= b then a else b
  }

  function Max(a: int, b: int): int {
    if a <= b then b else a
  }

  lemma LerpRealBetween(a: int, b: int, f: real)
    requires 0.0 <= f <= 1.0
    ensures Min(a, b) as real <= a as real + f * (b - a) as real <= Max(a, b) as real
  {
    var d := (b - a) as real;
    if a <= b {
      assert 0.0 <= f * d <= d by {
        assert f * d <= 1.0 * d;
      }
    } else {
      assert d <= f * d <= 0.0 by {
        assert 1.0 * d <= f * d;
      }
    }
  }

  /** One channel of `interpolateColor`: `Math.round(a + f * (b - a))`. For a
      factor in [0, 1] the channel lies between the two endpoint channels; the
      factors 0 and 1 give the endpoints themselves. */
  function Lerp(a: Byte, b: Byte, f: real): (v: int)
    ensures 0.0 <= f <= 1.0 ==> Min(a, b) <= v <= Max(a, b)
    ensures f == 0.0 ==> v == a
    ensures f == 1.0 ==> v == b
  {
    var x := a as real + f * (b - a) as real;
    if 0.0 <= f <= 1.0 then
      LerpRealBetween(a, b, f);
      Round(x)
    else
      Round(x)
  }

  /** Each channel of `c` lies between the corresponding channels of `lo` and `hi`. */
  predicate Between(c: Rgb, lo: Rgb, hi: Rgb) {
    && Min(lo.r, hi.r) <= c.r <= Max(lo.r, hi.r)
    && Min(lo.g, hi.g) <= c.g <= Max(lo.g, hi.g)
    && Min(lo.b, hi.b) <= c.b <= Max(lo.b, hi.b)
  }

  /** `interpolateColor(color1, color2, factor)`. Colours that do not read as
      three hex pairs give None. */
  function InterpolateColor(color1: string, color2: string, f: real): (r: Option<string>)
    ensures r.Some? <==> ParseColor(color1).Some? && ParseColor(color2).Some?
    ensures r.Some? && 0.0 <= f <= 1.0 ==>
      && IsCanonicalColor(r.value)
      && ParseColor(r.value).Some?
      && Between(ParseColor(r.value).value, ParseColor(color1).value, ParseColor(color2).value)
    ensures r.Some? && f == 0.0 ==> ParseColor(r.value) == ParseColor(color1)
    ensures r.Some? && f == 1.0 ==> ParseColor(r.value) == ParseColor(color2)
  {
    match (ParseColor(color1), ParseColor(color2))
    case (Some(c1), Some(c2)) =>
      var r := Lerp(c1.r, c2.r, f);
      var g := Lerp(c1.g, c2.g, f);
      var b := Lerp(c1.b, c2.b, f);
      if 0.0 <= f <= 1.0 then
        FormatColorRoundTrip(Rgb(r, g, b));
        Some(FormatColor(r, g, b))
      else
        Some(FormatColor(r, g, b))
    case _ => None
  }

  /** The position of `value` between `min` and `max`, mirrored when `reverse`. */
  function Ratio(value: real, min: real, max: real, reverse: bool): (t: real)
    requires min < max
    ensures min <= value <= max ==> 0.0 <= t <= 1.0
    ensures value == min ==> t == if reverse then 1.0 else 0.0
    ensures value == max ==> t == if reverse then 0.0 else 1.0
  {
    var scale := (value - min) / (max - min);
    assert value == max ==> scale == 1.0 by {
      if value == max {
        QuotientOfSelf(value - min, max - min);
      }
    }
    if min <= value <= max then
      QuotientInUnit(value - min, max - min);
      if reverse then 1.0 - scale else scale
    else
      if reverse then 1.0 - scale else scale
  }

  /** `getColorFromScale(value, min, max, colorMin, colorMax, reverse)`. A column
      whose min equals its max divides by zero in the source and is excluded. */
  function ColorFromScale(value: real, min: real, max: real, colorMin: string, colorMax: string,
                          reverse: bool): Option<string>
    requires min < max
  {
    InterpolateColor(colorMin, colorMax, Ratio(value, min, max, reverse))
  }

  /** The scale's ends: `min` gives `colorMin`'s channels and `max` gives
      `colorMax`'s (the other way round when reversed), and every value in
      between gives a canonical colour whose channels lie between the ends. */
  lemma ColorFromScaleEnds(value: real, min: real, max: real, colorMin: string, colorMax: string,
                           reverse: bool)
    requires min < max
    requires ParseColor(colorMin).Some? && ParseColor(colorMax).Some?
    ensures ColorFromScale(value, min, max, colorMin, colorMax, reverse).Some?
    ensures value == min ==> ParseColor(ColorFromScale(value, min, max, colorMin, colorMax, reverse).value)
                             == ParseColor(if reverse then colorMax else colorMin)
    ensures value == max ==> ParseColor(ColorFromScale(value, min, max, colorMin, colorMax, reverse).value)
                             == ParseColor(if reverse then colorMin else colorMax)
    ensures min <= value <= max ==>
      var s := ColorFromScale(value, min, max, colorMin, colorMax, reverse).value;
      IsCanonicalColor(s) && Between(ParseColor(s).value, ParseColor(colorMin).value, ParseColor(colorMax).value)
  {
  }

  lemma LerpFlip(a: Byte, b: Byte, s: real)
    ensures Lerp(a, b, 1.0 - s) == Lerp(b, a, s)
  {
    assert a as real + (1.0 - s) * (b - a) as real == b as real + s * (a - b) as real;
  }

  /** `reverse` is exactly a swap of the two end colours. */
  lemma ReverseSwapsEnds(value: real, min: real, max: real, colorMin: string, colorMax: string)
    requires min < max
    ensures ColorFromScale(value, min, max, colorMin, colorMax, true)
            == ColorFromScale(value, min, max, colorMax, colorMin, false)
  {
    var s := (value - min) / (max - min);
    assert Ratio(value, min, max, true) == 1.0 - s;
    assert Ratio(value, min, max, false) == s;
    match (ParseColor(colorMin), ParseColor(colorMax))
    case (Some(c1), Some(c2)) =>
      LerpFlip(c1.r, c2.r, s);
      LerpFlip(c1.g, c2.g, s);
      LerpFlip(c1.b, c2.b, s);
    case _ =>
  }

  // ---------------------------------------------------------------------------
  // Text colour

  datatype TextColor = Black | White

  /** The YIQ luma of a colour, on the 0..255 scale. */
  function Yiq(c: Rgb): real {
    ((c.r * 299 + c.g * 587 + c.b * 114) as real) / 1000.0
  }

  /** `getContrastYIQ`: black text on light backgrounds, white on dark. The
      division by 1000 is exact, so the test is an integer comparison. */
  function ContrastYIQ(c: Rgb): (t: TextColor)
    ensures t == Black <==> 299 * c.r + 587 * c.g + 114 * c.b >= 128000
  {
    if Yiq(c) >= 128.0 then Black else White
  }

  /** Raising any channel never turns black text white. */
  lemma ContrastMonotone(c: Rgb, d: Rgb)
    requires c.r <= d.r && c.g <= d.g && c.b <= d.b
    ensures ContrastYIQ(c) == Black ==> ContrastYIQ(d) == Black
  {
  }

  /** Black backgrounds take white text and white backgrounds black, and so do
      near-black (20, 20, 20) and near-white (240, 240, 240). */
  lemma ContrastExtremes()
    ensures ContrastYIQ(Rgb(0, 0, 0)) == White && ContrastYIQ(Rgb(255, 255, 255)) == Black
    ensures ContrastYIQ(Rgb(20, 20, 20)) == White && ContrastYIQ(Rgb(240, 240, 240)) == Black
    ensures ParseColor("#000000") == Some(Rgb(0, 0, 0)) && ParseColor("#ffffff") == Some(Rgb(255, 255, 255))
  {
  }

  /** `getContrastYIQ` applied to a colour string. */
  function ContrastOfColor(s: string): (t: Option<TextColor>)
    ensures t.Some? <==> ParseColor(s).Some?
  {
    match ParseColor(s)
    case Some(c) => Some(ContrastYIQ(c))
    case None => None
  }

  // ---------------------------------------------------------------------------
  // The table

  const Grey := "#c4c4c4"
  const Dark := "#27251F"

  /** The two colour-scale callbacks `renderTable` receives: `getColorScale`
      (Standard) and `getColorScaleBlue` (Blue). */
  datatype Palette = Standard | Blue

  /** The end colours a callback uses for a field: the Standard palette runs
      dark-to-grey for strikeout rate and grey-to-dark otherwise; Blue always
      runs grey-to-dark. */
  function Ends(p: Palette, field: string): (ends: (string, string))
    ensures ends == (Grey, Dark) || ends == (Dark, Grey)
    ensures ends.0 == Dark <==> p == Standard && field == "soper"
  {
    if p == Standard && field == "soper" then (Dark, Grey) else (Grey, Dark)
  }

  /** Whether `renderTable` colours a field's cells. */
  predicate IsColoured(field: string) {
    field != "player" && field != "postion" && field != "plateAppearances"
  }

  datatype Scale = Scale(min: real, max: real)

  /** `Math.min(...values)` and `Math.max(...values)` of a non-empty column. */
  function ColumnScale(values: seq<real>): (s: Scale)
    requires |values| > 0
    ensures s.min in values && s.max in values
    ensures forall k :: 0 <= k < |values| ==> s.min <= values[k] <= s.max
  {
    if |values| == 1 then Scale(values[0], values[0])
    else
      var t := ColumnScale(values[1..]);
      assert forall k :: 1 <= k < |values| ==> values[k] == values[1..][k - 1];
      Scale(if values[0] <= t.min then values[0] else t.min,
            if values[0] >= t.max then values[0] else t.max)
  }

  /** One table cell: uncoloured, coloured with a background and a text colour,
      or in a column whose min equals its max (the source computes NaN there). */
  datatype Cell = Plain | Coloured(background: string, text: TextColor) | Flat

  predicate Rectangular(data: seq<seq<real>>, fields: seq<string>) {
    forall i :: 0 <= i < |data| ==> |data[i]| == |fields|
  }

  function Column(data: seq<seq<real>>, fields: seq<string>, j: nat): (col: seq<real>)
    requires Rectangular(data, fields) && j < |fields|
    ensures |col| == |data| && forall i :: 0 <= i < |data| ==> col[i] == data[i][j]
  {
    seq(|data|, i requires 0 <= i < |data| => data[i][j])
  }

  /** The cell for row i, field j. */
  function RenderCell(data: seq<seq<real>>, fields: seq<string>, p: Palette, i: nat, j: nat): Cell
    requires Rectangular(data, fields) && i < |data| && j < |fields|
  {
    if !IsColoured(fields[j]) then Plain
    else
      var scale := ColumnScale(Column(data, fields, j));
      if scale.min == scale.max then Flat
      else
        var ends := Ends(p, fields[j]);
        match ColorFromScale(data[i][j], scale.min, scale.max, ends.0, ends.1, false)
        case Some(bg) =>
          (match ContrastOfColor(bg)
           case Some(t) => Coloured(bg, t)
           case None => Flat)
        case None => Flat
  }

  /** `renderTable(data, tableId, fields, getColorScale)`: one row of cells per record. */
  function RenderTable(data: seq<seq<real>>, fields: seq<string>, p: Palette): (t: seq<seq<Cell>>)
    requires Rectangular(data, fields)
    ensures |t| == |data| && forall i :: 0 <= i < |t| ==> |t[i]| == |fields|
  {
    seq(|data|, i requires 0 <= i < |data| =>
      seq(|fields|, j requires 0 <= j < |fields| => RenderCell(data, fields, p, i, j)))
  }

  /** A coloured cell in a non-constant column: the background is the scale's
      colour for the cell's value and the text colour is chosen from it. */
  lemma ScaledCell(value: real, scale: Scale, p: Palette, field: string)
    requires scale.min <= value <= scale.max && scale.min < scale.max
    ensures var ends := Ends(p, field);
      var bg := ColorFromScale(value, scale.min, scale.max, ends.0, ends.1, false);
      && bg.Some?
      && IsCanonicalColor(bg.value)
      && ParseColor(bg.value).Some?
      && Between(ParseColor(bg.value).value, ParseColor(Grey).value, ParseColor(Dark).value)
      && ContrastOfColor(bg.value) == Some(ContrastYIQ(ParseColor(bg.value).value))
  {
    var ends := Ends(p, field);
    assert ParseColor(Grey).Some? && ParseColor(Dark).Some?;
    ColorFromScaleEnds(value, scale.min, scale.max, ends.0, ends.1, false);
  }

  lemma RenderCellColours(data: seq<seq<real>>, fields: seq<string>, p: Palette, i: nat, j: nat)
    requires Rectangular(data, fields) && i < |data| && j < |fields|
    ensures var scale := ColumnScale(Column(data, fields, j));
      var cell := RenderCell(data, fields, p, i, j);
      && (!IsColoured(fields[j]) <==> cell == Plain)
      && (cell == Flat <==> IsColoured(fields[j]) && scale.min == scale.max)
      && (cell.Coloured? ==>
            && IsCanonicalColor(cell.background)
            && Between(ParseColor(cell.background).value, ParseColor(Grey).value, ParseColor(Dark).value)
            && cell.text == ContrastYIQ(ParseColor(cell.background).value))
  {
    var col := Column(data, fields, j);
    var scale := ColumnScale(col);
    assert col[i] == data[i][j];
    if IsColoured(fields[j]) && scale.min != scale.max {
      ScaledCell(data[i][j], scale, p, fields[j]);
    }
  }

  /** Every cell of a coloured field whose column is not constant gets a
      canonical background between the two end colours, and text coloured by
      the YIQ test on that background. The value always lies within its own
      column's min and max, so the ratio lies in [0, 1]. */
  lemma RenderTableColours(data: seq<seq<real>>, fields: seq<string>, p: Palette, i: nat, j: nat)
    requires Rectangular(data, fields) && i < |data| && j < |fields|
    ensures var scale := ColumnScale(Column(data, fields, j));
      var cell := RenderTable(data, fields, p)[i][j];
      && (!IsColoured(fields[j]) <==> cell == Plain)
      && (cell == Flat <==> IsColoured(fields[j]) && scale.min == scale.max)
      && (cell.Coloured? ==>
            && IsCanonicalColor(cell.background)
            && Between(ParseColor(cell.background).value, ParseColor(Grey).value, ParseColor(Dark).value)
            && cell.text == ContrastYIQ(ParseColor(cell.background).value))
  {
    assert RenderTable(data, fields, p)[i][j] == RenderCell(data, fields, p, i, j);
    RenderCellColours(data, fields, p, i, j);
  }
}
