/**
 * `parse_hex_color` of the `palette!` macro: the compile-time reading of a
 * colour written as a string literal. It has no intensity suffix; its
 * errors are the compile errors the macro reports.
 */
module MacroHex {
  import opened Wrappers
  import opened Numeric
  import opened HexBody

  const MissingHash := "HTML hex color string must start with '#'."
  const BadLengthText := "Hex color must be in #rrggbb, #rrggbbaa, #rgb, or #rgba format."

  /** The compile error `parse_hex_color` reports for a body error. */
  function Message(e: BodyError): string {
    match e
    case BadLength => BadLengthText
    case BadGroup(form, ch, _) =>
      match (form, ch)
      case (Digits8, Red) => "#RRggbbaa RR was invalid."
      case (Digits8, Green) => "#rrGGbbaa GG was invalid."
      case (Digits8, Blue) => "#rrggBBaa BB was invalid."
      case (Digits8, Alpha) => "#rrggbbAA AA was invalid."
      case (Digits6, Red) => "#RRggbb RR was invalid."
      case (Digits6, Green) => "#rrGGbb GG was invalid."
      case (Digits6, Blue) => "#rrggBB BB was invalid."
      case (Digits4, Red) => "#Rgba R was invalid."
      case (Digits4, Green) => "#rGba G was invalid."
      case (Digits4, Blue) => "#rgBa B was invalid."
      case (Digits4, Alpha) => "#rgbA A was invalid."
      case (Digits3, Red) => "#Rgb R was invalid."
      case (Digits3, Green) => "#rGb G was invalid."
      case (Digits3, Blue) => "#rgB B was invalid."
      case _ => BadLengthText
  }

  /**
   * `parse_hex_color`: strip the leading `#` (an error without it), then
   * decode the body by its length.
   */
  function ParseHexColor(s: string): (r: Result<Rgba, string>)
    ensures |s| == 0 || s[0] != '#' ==> r == Err(MissingHash)
    ensures |s| > 0 && s[0] == '#' && |s| - 1 !in {8, 6, 4, 3} ==> r == Err(BadLengthText)
    ensures r.Ok? <==> |s| > 0 && s[0] == '#' && DecodeBody(s[1..]).Ok?
    ensures r.Ok? ==> r.value == DecodeBody(s[1..]).value
  {
    if |s| == 0 || s[0] != '#' then Err(MissingHash)
    else
      match DecodeBody(s[1..])
      case Ok(c) => Ok(c)
      case Err(e) => Err(Message(e))
  }

  /**
   * The compile-time decoder's channel rules: the 6- and 3-digit forms are
   * opaque, the 8- and 4-digit forms take alpha from the string, and the
   * short forms double each digit, so a channel is 17 times its digit.
   */
  lemma ParseHexColorChannels(s: string)
    requires ParseHexColor(s).Ok?
    ensures |s| - 1 in {8, 6, 4, 3}
    ensures var c := ParseHexColor(s).value;
      && (|s| == 7 || |s| == 4 ==> c.a == 255)
      && (|s| == 9 ==> IsByteText(s[7..9]) && c.a == ByteTextValue(s[7..9]))
      && (|s| == 5 || |s| == 4 ==>
            && IsHexDigit(s[1]) && IsHexDigit(s[2]) && IsHexDigit(s[3])
            && c.r == 17 * HexValue(s[1]) && c.g == 17 * HexValue(s[2]) && c.b == 17 * HexValue(s[3]))
      && (|s| == 5 ==> IsHexDigit(s[4]) && c.a == 17 * HexValue(s[4]))
  {
    var hex := s[1..];
    if |hex| == 8 || |hex| == 6 {
      DecodeLong(hex);
      if |hex| == 8 {
        assert hex[6..8] == s[7..9];
        assert hex[6..8] == hex[2 * 3..2 * 3 + 2];
      }
    } else {
      DecodeShort(hex);
      assert hex[0] == s[1] && hex[1] == s[2] && hex[2] == s[3];
      assert IsHexDigit(hex[0]) && IsHexDigit(hex[1]) && IsHexDigit(hex[2]);
      if |hex| == 4 {
        assert hex[3] == s[4] && IsHexDigit(hex[3]);
      }
    }
  }

  /**
   * Round trip: `#` followed by the zero-padded two-digit hex of any four
   * bytes parses back to exactly those bytes; with three bytes the colour
   * is opaque.
   */
  lemma ParseHexColorRoundTrip(c: Rgba)
    ensures ParseHexColor("#" + Body8(c)) == Ok(c)
    ensures ParseHexColor("#" + Body6(c)) == Ok(c.(a := 255))
  {
    assert ("#" + Body8(c))[1..] == Body8(c);
    assert ("#" + Body6(c))[1..] == Body6(c);
    DecodeRoundTrip(c);
  }

  /** `"#ff0000ff"` is opaque red. */
  lemma ParseHexColorRed8()
    ensures ParseHexColor("#ff0000ff") == Ok(Rgba(255, 0, 0, 255))
  {
    var red := Rgba(255, 0, 0, 255);
    assert Hex2(255) == "ff" && Hex2(0) == "00";
    assert "#" + Body8(red) == "#ff0000ff";
    ParseHexColorRoundTrip(red);
  }

  /** `"#f00"` doubles each digit and defaults alpha: opaque red. */
  lemma ParseHexColorRed3()
    ensures ParseHexColor("#f00") == Ok(Rgba(255, 0, 0, 255))
  {
    assert "#f00"[1..] == "f00";
    DecodeShort("f00");
  }

  /** `"#xyz"` has a valid length but is refused at its first channel. */
  lemma ParseHexColorBadDigit()
    ensures ParseHexColor("#xyz") == Err("#Rgb R was invalid.")
  {
    assert "#xyz"[1..] == "xyz";
    ParseU8OfTwo(['x', 'x']);
    assert GroupText("xyz", Digits3, Red) == ['x', 'x'];
    assert DecodeBody("xyz") == Err(BadGroup(Digits3, Red, InvalidDigit));
  }

  /** The intensity suffix that `Color::try_parse` accepts is a length error at compile time. */
  lemma ParseHexColorNoIntensity()
    ensures ParseHexColor("#ff0000+0100") == Err(BadLengthText)
  {
  }
}
