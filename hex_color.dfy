/** `hex_to_rgba` of convert_alpha.py: strip the leading `#` characters of a
    colour, insist on six characters, read the three two-character slices as
    base-16 channels and render `rgba(r, g, b, alpha)`. */
module HexColor {
  import opened Wrappers
  import Decimal

  predicate IsHexDigit(c: char) {
    '0' <= c <= '9' || 'a' <= c <= 'f' || 'A' <= c <= 'F'
  }

  predicate AllHex(s: string) {
    forall i :: 0 <= i < |s| ==> IsHexDigit(s[i])
  }

  /** The value of one hex digit, either case */
  function DigitValue(c: char): (v: nat)
    requires IsHexDigit(c)
    ensures v < 16
  {
    if '0' <= c <= '9' then c as int - '0' as int
    else if 'a' <= c <= 'f' then c as int - 'a' as int + 10
    else c as int - 'A' as int + 10
  }

  /** The lower-case hex digit for a value below 16 */
  function LowerDigit(v: nat): (c: char)
    requires v < 16
    ensures IsHexDigit(c) && DigitValue(c) == v
    ensures !('A' <= c <= 'F')
  {
    if v < 10 then ('0' as int + v) as char else ('a' as int + v - 10) as char
  }

  /** Case folding of the letters A-F; every other character is kept */
  function Lower(c: char): (l: char) {
    if 'A' <= c <= 'F' then (c as int - 'A' as int + 'a' as int) as char else c
  }

  function LowerText(s: string): (r: string)
    ensures |r| == |s| && forall i :: 0 <= i < |s| ==> r[i] == Lower(s[i])
  {
    seq(|s|, i requires 0 <= i < |s| => Lower(s[i]))
  }

  /** Writing back the value of a hex digit gives the digit, up to case */
  lemma LowerDigitOfValue(c: char)
    requires IsHexDigit(c)
    ensures LowerDigit(DigitValue(c)) == Lower(c)
  {
  }

  /** The three channels of a colour */
  datatype Rgb = Rgb(red: nat, green: nat, blue: nat)

  predicate ValidRgb(c: Rgb) {
    c.red < 256 && c.green < 256 && c.blue < 256
  }

  /** A channel as two lower-case hex digits (the writing partner of ParseChannel) */
  function EncodeChannel(v: nat): (t: string)
    requires v < 256
    ensures |t| == 2 && AllHex(t)
  {
    [LowerDigit(v / 16), LowerDigit(v % 16)]
  }

  /** `int(pair, 16)` for a two-character slice, None where a character is
      not a hex digit */
  function ParseChannel(pair: string): (r: Option<nat>)
    requires |pair| == 2
    ensures r.Some? <==> AllHex(pair)
    ensures r.Some? ==> r.value < 256 && EncodeChannel(r.value) == LowerText(pair)
  {
    if IsHexDigit(pair[0]) && IsHexDigit(pair[1]) then
      var v := 16 * DigitValue(pair[0]) + DigitValue(pair[1]);
      LowerDigitOfValue(pair[0]);
      LowerDigitOfValue(pair[1]);
      assert v / 16 == DigitValue(pair[0]) && v % 16 == DigitValue(pair[1]);
      Some(v)
    else
      None
  }

  /** Every channel value is read back from its two hex digits */
  lemma ParseEncodeChannel(v: nat)
    requires v < 256
    ensures ParseChannel(EncodeChannel(v)) == Some(v)
  {
    var t := EncodeChannel(v);
    assert DigitValue(t[0]) == v / 16 && DigitValue(t[1]) == v % 16;
  }

  /** The six hex digits of a colour, lower case */
  function EncodeRgb(c: Rgb): (t: string)
    requires ValidRgb(c)
    ensures |t| == 6 && AllHex(t)
  {
    EncodeChannel(c.red) + EncodeChannel(c.green) + EncodeChannel(c.blue)
  }

  /** Lines 10-12: the channels are the base-16 values of the slices
      [0:2), [2:4) and [4:6); None when a slice is not two hex digits */
  function ParseRgb(h: string): (r: Option<Rgb>)
    requires |h| == 6
    ensures r.Some? <==> AllHex(h)
    ensures r.Some? ==> ValidRgb(r.value) && EncodeRgb(r.value) == LowerText(h)
  {
    var red := ParseChannel(h[0..2]);
    var green := ParseChannel(h[2..4]);
    var blue := ParseChannel(h[4..6]);
    assert AllHex(h) <==> AllHex(h[0..2]) && AllHex(h[2..4]) && AllHex(h[4..6]) by {
      assert forall i :: 0 <= i < 2 ==> h[0..2][i] == h[i] && h[2..4][i] == h[i + 2] && h[4..6][i] == h[i + 4];
    }
    if red.Some? && green.Some? && blue.Some? then
      assert LowerText(h) == LowerText(h[0..2]) + LowerText(h[2..4]) + LowerText(h[4..6]);
      Some(Rgb(red.value, green.value, blue.value))
    else
      None
  }

  /** The six hex digits of a colour are read back as that colour */
  lemma ParseEncodeRgb(c: Rgb)
    requires ValidRgb(c)
    ensures ParseRgb(EncodeRgb(c)) == Some(c)
  {
    var t := EncodeRgb(c);
    assert t[0..2] == EncodeChannel(c.red);
    assert t[2..4] == EncodeChannel(c.green);
    assert t[4..6] == EncodeChannel(c.blue);
    ParseEncodeChannel(c.red);
    ParseEncodeChannel(c.green);
    ParseEncodeChannel(c.blue);
  }

  /** `s.lstrip('#')`: every leading `#` is removed, not just one */
  function StripHashes(s: string): (r: string)
    ensures |r| <= |s| && r == s[|s| - |r|..]
    ensures r == [] || r[0] != '#'
    ensures forall i :: 0 <= i < |s| - |r| ==> s[i] == '#'
  {
    if s != [] && s[0] == '#' then StripHashes(s[1..]) else s
  }

  /** `k` copies of `#` */
  function Hashes(k: nat): (s: string)
    ensures |s| == k && forall i :: 0 <= i < k ==> s[i] == '#'
  {
    seq(k, i => '#')
  }

  /** Any number of leading `#` is stripped, and nothing after them */
  lemma {:induction false} StripHashesOfPadded(k: nat, x: string)
    requires x == [] || x[0] != '#'
    ensures StripHashes(Hashes(k) + x) == x
    decreases k
  {
    if k > 0 {
      assert (Hashes(k) + x)[1..] == Hashes(k - 1) + x;
      StripHashesOfPadded(k - 1, x);
    } else {
      assert Hashes(k) + x == x;
    }
  }

  /** `rgba({r}, {g}, {b}, {alpha})` of line 15; `alpha` is the text Python
      prints for the float argument */
  function RgbaText(c: Rgb, alpha: string): (t: string)
    ensures |t| >= 15 + |alpha|
    ensures t[..5] == "rgba(" && t[|t| - |alpha| - 1..] == alpha + ")"
  {
    "rgba(" + Decimal.Show(c.red) + ", " + Decimal.Show(c.green) + ", " + Decimal.Show(c.blue) + ", " + alpha + ")"
  }

  /** RgbaText regrouped from the right, so that its fields can be peeled off one at a time */
  lemma RgbaTextNested(c: Rgb, alpha: string)
    ensures RgbaText(c, alpha)
         == "rgba(" + (Decimal.Show(c.red) + (", " + (Decimal.Show(c.green) + (", " + (Decimal.Show(c.blue) + (", " + alpha + ")"))))))
  {
  }

  lemma PeelPrefix(p: string, a: string, b: string)
    requires p + a == p + b
    ensures a == b
  {
    assert a == (p + a)[|p|..];
    assert b == (p + b)[|p|..];
  }

  /** The rendered text determines the colour: no two colours print alike */
  lemma RgbaTextInjective(c1: Rgb, c2: Rgb, alpha: string)
    ensures RgbaText(c1, alpha) == RgbaText(c2, alpha) ==> c1 == c2
  {
    if RgbaText(c1, alpha) == RgbaText(c2, alpha) {
      var r1, g1, b1 := Decimal.Show(c1.red), Decimal.Show(c1.green), Decimal.Show(c1.blue);
      var r2, g2, b2 := Decimal.Show(c2.red), Decimal.Show(c2.green), Decimal.Show(c2.blue);
      var tail := ", " + alpha + ")";
      var v1, v2 := ", " + (b1 + tail), ", " + (b2 + tail);
      var u1, u2 := ", " + (g1 + v1), ", " + (g2 + v2);
      RgbaTextNested(c1, alpha);
      RgbaTextNested(c2, alpha);
      PeelPrefix("rgba(", r1 + u1, r2 + u2);
      Decimal.DigitRunSplit(r1, u1, r2, u2);
      PeelPrefix(", ", g1 + v1, g2 + v2);
      Decimal.DigitRunSplit(g1, v1, g2, v2);
      PeelPrefix(", ", b1 + tail, b2 + tail);
      Decimal.DigitRunSplit(b1, tail, b2, tail);
      Decimal.ShowInjective(c1.red, c2.red);
      Decimal.ShowInjective(c1.green, c2.green);
      Decimal.ShowInjective(c1.blue, c2.blue);
    }
  }

  /** Why hex_to_rgba raises ValueError */
  datatype ColorError =
    | WrongLength(stripped: string)  // line 9: not six characters after stripping
    | NotHex(stripped: string)       // lines 10-12: int(..., 16) rejects a slice

  /** `hex_to_rgba(hex_color, alpha)` of lines 5-15 */
  function HexToRgba(hex: string, alpha: string): (r: Result<string, ColorError>)
    ensures r == Err(WrongLength(StripHashes(hex))) <==> |StripHashes(hex)| != 6
    ensures r.Ok? <==> |StripHashes(hex)| == 6 && AllHex(StripHashes(hex))
  {
    var h := StripHashes(hex);
    if |h| != 6 then
      Err(WrongLength(h))
    else
      match ParseRgb(h)
      case None => Err(NotHex(h))
      case Some(c) => Ok(RgbaText(c, alpha))
  }

  /** Any number of `#` followed by the six hex digits of a colour converts to
      the rgba text of exactly that colour */
  lemma HexToRgbaOfEncoded(c: Rgb, hashes: nat, alpha: string)
    requires ValidRgb(c)
    ensures HexToRgba(Hashes(hashes) + EncodeRgb(c), alpha) == Ok(RgbaText(c, alpha))
  {
    StripHashesOfPadded(hashes, EncodeRgb(c));
    ParseEncodeRgb(c);
  }

  /** A successful conversion reads channels below 256 whose hex digits are
      the stripped input's, up to case, and prints exactly those */
  lemma HexToRgbaChannels(hex: string, alpha: string)
    requires HexToRgba(hex, alpha).Ok?
    ensures var h := StripHashes(hex);
            |h| == 6 && ParseRgb(h).Some?
            && ValidRgb(ParseRgb(h).value)
            && EncodeRgb(ParseRgb(h).value) == LowerText(h)
            && HexToRgba(hex, alpha).value == RgbaText(ParseRgb(h).value, alpha)
  {
  }

  lemma ExampleEncoding()
    ensures EncodeRgb(Rgb(17, 34, 51)) == "112233"
  {
    assert EncodeChannel(17) == "11";
    assert EncodeChannel(34) == "22";
    assert EncodeChannel(51) == "33";
  }

  lemma ExampleRendering()
    ensures RgbaText(Rgb(17, 34, 51), "0.7") == "rgba(17, 34, 51, 0.7)"
  {
    assert Decimal.Show(17) == "17";
    assert Decimal.Show(34) == "34";
    assert Decimal.Show(51) == "51";
  }

  /** `#112233` becomes `rgba(17, 34, 51, 0.7)` */
  lemma HexToRgbaExample()
    ensures HexToRgba("#112233", "0.7") == Ok("rgba(17, 34, 51, 0.7)")
  {
    var c := Rgb(17, 34, 51);
    ExampleEncoding();
    ExampleRendering();
    assert Hashes(1) + "112233" == "#112233";
    HexToRgbaOfEncoded(c, 1, "0.7");
  }
}
