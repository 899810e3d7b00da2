/**
 * The colour of the watermark: the "#RRGGBB" form field cut into three
 * two-character slices, each read with parseInt in base 16 and divided by 255.
 */
module WatermarkColor {
  import opened JsText

  /** String.prototype.substring(start, end) for 0 <= start <= end: both ends are clamped to the length. */
  function Substring(s: string, start: nat, end: nat): (r: string)
    requires start <= end
    ensures |r| <= end - start
    ensures end <= |s| ==> r == s[start..end]
    ensures |s| <= start ==> r == []
  {
    var a := if start < |s| then start else |s|;
    var b := if end < |s| then end else |s|;
    s[a..b]
  }

  /** The colour as drawn; a channel of None is NaN. */
  datatype Rgb = Rgb(r: Option<real>, g: Option<real>, b: Option<real>)

  /** parseInt(text, 16) / 255. */
  function Channel(text: string): Option<real>
  {
    OverMax(ParseInt(text, 16))
  }

  /** A parsed number over 255; NaN stays NaN. */
  function OverMax(v: Option<int>): Option<real>
  {
    if v.None? then None else Some(v.value as real / 255.0)
  }

  /** Characters 1-2, 3-4 and 5-6 of the colour field, each read as a hexadecimal number over 255. */
  function ParseColor(color: string): Rgb
  {
    Rgb(Channel(Substring(color, 1, 3)), Channel(Substring(color, 3, 5)), Channel(Substring(color, 5, 7)))
  }

  /** A colour written the way the form means it: '#' and six hexadecimal digits. */
  predicate WellFormedColor(color: string)
  {
    |color| == 7 && color[0] == '#' && IsHexPair(color[1..3]) && IsHexPair(color[3..5]) && IsHexPair(color[5..7])
  }

  predicate IsHexPair(s: string)
  {
    |s| == 2 && IsDigit(s[0], 16) && IsDigit(s[1], 16)
  }

  lemma HexNotSpace(c: char)
    requires IsDigit(c, 16)
    ensures !IsSpace(c) && c != '-' && c != '+' && c != 'x' && c != 'X'
  {
  }

  /** The value of two hexadecimal digits. */
  function HexPair(s: string): int
    requires IsHexPair(s)
  {
    DigitValue(s[0], 16) * 16 + DigitValue(s[1], 16)
  }

  /** Two hexadecimal digits read as the number they denote. */
  lemma {:induction false} ParseTwoHex(s: string)
    requires IsHexPair(s)
    ensures ParseInt(s, 16) == Some(HexPair(s))
  {
    HexNotSpace(s[0]);
    HexNotSpace(s[1]);
    assert TrimStart(s) == s;
    assert DigitRun(s, 16) == 2 by {
      assert DigitRun(s[1..], 16) == 1;
    }
    assert s[..2] == s;
    assert DigitsValue(s, 16) == HexPair(s) by {
      assert s[..1][..0] == [];
      assert DigitsValue(s[..1], 16) == DigitValue(s[0], 16);
    }
  }

  /** A channel written as two hexadecimal digits is their value `n` over 255, between 0 and 1. */
  lemma {:induction false} TwoHexChannel(s: string, n: int)
    requires IsHexPair(s) && n == HexPair(s)
    ensures Channel(s) == Some(n as real / 255.0)
    ensures 0 <= n <= 255 && 0.0 <= n as real / 255.0 <= 1.0
  {
    ParseTwoHex(s);
    ChannelOf(s, n);
  }

  lemma {:induction false} ChannelOf(text: string, n: int)
    requires ParseInt(text, 16) == Some(n)
    ensures Channel(text) == Some(n as real / 255.0)
  {
    assert OverMax(Some(n)) == Some(n as real / 255.0);
  }

  /** A colour of at least seven characters is read from the slices 1-2, 3-4 and 5-6. */
  lemma {:induction false} ParseColorSlices(color: string)
    requires |color| >= 7
    ensures ParseColor(color) == Rgb(Channel(color[1..3]), Channel(color[3..5]), Channel(color[5..7]))
  {
  }

  /**
   * Each channel of a well-formed colour is the value of its two digits over
   * 255, a number between 0 and 1.
   */
  lemma {:induction false} WellFormedChannels(color: string, r: int, g: int, b: int)
    requires WellFormedColor(color)
    requires r == HexPair(color[1..3]) && g == HexPair(color[3..5]) && b == HexPair(color[5..7])
    ensures ParseColor(color) == Rgb(Some(r as real / 255.0), Some(g as real / 255.0), Some(b as real / 255.0))
    ensures 0.0 <= r as real / 255.0 <= 1.0 && 0.0 <= g as real / 255.0 <= 1.0 && 0.0 <= b as real / 255.0 <= 1.0
  {
    ParseColorSlices(color);
    TwoHexChannel(color[1..3], r);
    TwoHexChannel(color[3..5], g);
    TwoHexChannel(color[5..7], b);
  }

  function HexDigit(d: nat): (c: char)
    requires d < 16
    ensures IsDigit(c, 16) && DigitValue(c, 16) == d
  {
    if d < 10 then ('0' as int + d) as char else ('A' as int + d - 10) as char
  }

  /** A byte as two upper-case hexadecimal digits. */
  function Hex2(n: nat): (s: string)
    requires n < 256
    ensures IsHexPair(s) && HexPair(s) == n
  {
    [HexDigit(n / 16), HexDigit(n % 16)]
  }

  /** "#RRGGBB" written from three bytes is well formed and reads back as those bytes over 255. */
  lemma ColorRoundTrip(r: nat, g: nat, b: nat)
    requires r < 256 && g < 256 && b < 256
    ensures var color := "#" + Hex2(r) + Hex2(g) + Hex2(b);
            && WellFormedColor(color)
            && ParseColor(color) == Rgb(Some(r as real / 255.0), Some(g as real / 255.0), Some(b as real / 255.0))
  {
    var color := "#" + Hex2(r) + Hex2(g) + Hex2(b);
    assert color[1..3] == Hex2(r);
    assert color[3..5] == Hex2(g);
    assert color[5..7] == Hex2(b);
    WellFormedChannels(color, r, g, b);
  }

  /** The default colour is pure red. */
  lemma DefaultColorIsRed(color: string)
    requires color == "#FF0000"
    ensures ParseColor(color) == Rgb(Some(1.0), Some(0.0), Some(0.0))
  {
    var red := Hex2(255);
    var zero := Hex2(0);
    assert color[1..3] == red && color[3..5] == zero && color[5..7] == zero;
    WellFormedChannels(color, 255, 0, 0);
  }

  /**
   * parseInt takes a sign, so a malformed field can give a channel outside
   * [0, 1]: the red of "#-F0000" is -15/255.
   */
  lemma SignedChannel()
    ensures Substring("#-F0000", 1, 3) == "-F"
    ensures Channel("-F") == Some(-15.0 / 255.0)
  {
    var t := "-F";
    assert TrimStart(t) == t;
    assert t[1..] == "F";
    assert DigitRun("F", 16) == 1;
    assert "F"[..1] == "F";
    assert DigitsValue("F", 16) == 15 by {
      assert "F"[..0] == [];
    }
    assert ParseInt(t, 16) == Some(-15);
    ChannelOf(t, -15);
  }
}
