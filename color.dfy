/**
 * The crate's `Color` value (src/color.rs): four 8-bit channels and a
 * 16-bit intensity in which 256 is neutral. Every operation returns a new
 * value. `Color::try_parse` is the run-time hex decoder; it also accepts an
 * intensity suffix `+XXXX` after the channels.
 */
module ColorValue {
  import opened Wrappers
  import opened Numeric
  import opened HexBody
  import MacroHex

  /** Derived equality compares all five fields, intensity included. */
  datatype Color = Color(r8: U8, g8: U8, b8: U8, a8: U8, intensity16: U16)

  /** The intensity that leaves a colour's channels unscaled. */
  const NeutralIntensity: U16 := 256

  /** The largest intensity `with_intensity_f32_experimental` keeps (256 * 255). */
  const MaxScaledIntensity: int := 65280

  /** `Color::new`: the given channels at neutral intensity. */
  function New(r8: U8, g8: U8, b8: U8, a8: U8): (c: Color)
    ensures c.intensity16 == NeutralIntensity
    ensures c.r8 == r8 && c.g8 == g8 && c.b8 == b8 && c.a8 == a8
  {
    Color(r8, g8, b8, a8, 256)
  }

  /** `with_intensity_u16_experimental`: the same channels at the given intensity; nothing else changes. */
  function WithIntensityU16(c: Color, intensity: U16): (r: Color)
    ensures r.intensity16 == intensity
    ensures r.(intensity16 := c.intensity16) == c
  {
    Color(c.r8, c.g8, c.b8, c.a8, intensity)
  }

  /**
   * `with_alpha_u8`: rebuilt through `Color::new`, so besides taking the
   * new alpha it resets the intensity to neutral.
   */
  function WithAlphaU8(c: Color, alpha: U8): (r: Color)
    ensures r == c.(a8 := alpha, intensity16 := NeutralIntensity)
  {
    New(c.r8, c.g8, c.b8, alpha)
  }

  /**
   * `with_alpha_f32`, given the truncated `alpha * 255.0` as `t`: alpha is
   * t saturated into 0..255, and the intensity is reset as in `with_alpha_u8`.
   */
  function WithAlphaF32(c: Color, t: I32): (r: Color)
    ensures 0 <= t <= 255 ==> r.a8 == t
    ensures t < 0 ==> r.a8 == 0
    ensures t > 255 ==> r.a8 == 255
    ensures r == c.(a8 := r.a8, intensity16 := NeutralIntensity)
  {
    WithAlphaU8(c, SaturateU8(t))
  }

  /**
   * The clamp of `with_intensity_f32_experimental` on the truncated
   * `intensity * 256.0`: negative values become 0, values up to 65280 are
   * kept, and anything larger falls back to the neutral 256.
   */
  function ClampIntensity(t: I32): (i: U16)
    ensures t < 0 ==> i == 0
    ensures 0 <= t <= MaxScaledIntensity ==> i == t
    ensures t > MaxScaledIntensity ==> i == NeutralIntensity
  {
    if t <= 256 * 255 then (if t >= 0 then t else 0) else 256
  }

  /** `with_intensity_f32_experimental`, given the truncated `intensity * 256.0` as `t`. */
  function WithIntensityF32(c: Color, t: I32): (r: Color)
    ensures r.intensity16 == ClampIntensity(t)
    ensures r.(intensity16 := c.intensity16) == c
  {
    WithIntensityU16(c, ClampIntensity(t))
  }

  /** The crate's one error variant, `Error::ParseError`, carrying its message. */
  datatype Error = ParseError(message: string)

  /** The message `try_parse` reports for a body error. */
  function Message(e: BodyError): string {
    match e
    case BadLength => MacroHex.BadLengthText
    case BadGroup(form, ch, kind) =>
      if ch == Alpha && !HasAlpha(form) then MacroHex.BadLengthText
      else "Error parsing " + Pattern(form, ch) + " portion: " + IntErrorText(kind)
  }

  /**
   * Whether the body carries an intensity: its fifth character from the end
   * is `+`. For bodies shorter than five bytes the source computes
   * `hex.len() - 5` on a `usize`; in a release build that wraps to an index
   * past the end, so there is no intensity, which is what this states (a
   * debug build panics instead, see `TryParseDebug`).
   */
  predicate HasIntensitySuffix(hex: string)
    ensures |hex| < 5 ==> !HasIntensitySuffix(hex)
    ensures HasIntensitySuffix(hex) ==> hex == hex[..|hex| - 5] + "+" + hex[|hex| - 4..]
  {
    |hex| >= 5 && hex[|hex| - 5] == '+'
  }

  /** Decodes the channels of a body and sets the given intensity. */
  function DecodeWith(hex: string, intensity: U16): (r: Result<Color, Error>)
    ensures r.Ok? <==> DecodeBody(hex).Ok?
    ensures r.Ok? ==> r.value.intensity16 == intensity
  {
    match DecodeBody(hex)
    case Ok(c) => Ok(WithIntensityU16(New(c.r, c.g, c.b, c.a), intensity))
    case Err(e) => Err(ParseError(Message(e)))
  }

  /** `Color::try_parse`, with release-build arithmetic. */
  function TryParse(s: string): (r: Result<Color, Error>)
    ensures |s| == 0 || s[0] != '#' ==> r == Err(ParseError(MacroHex.MissingHash))
    ensures r.Ok? && !HasIntensitySuffix(s[1..]) ==> r.value.intensity16 == NeutralIntensity
  {
    if |s| == 0 || s[0] != '#' then Err(ParseError(MacroHex.MissingHash))
    else
      var hex := s[1..];
      if HasIntensitySuffix(hex) then
        match ParseU16(hex[|hex| - 4..])
        case Err(k) => Err(ParseError("Error parsing intensity portion: " + IntErrorText(k)))
        case Ok(i) => DecodeWith(hex[..|hex| - 5], i)
      else DecodeWith(hex, NeutralIntensity)
  }

  /** The channels of a colour as the four bytes the hex decoders produce. */
  function Channels(c: Color): Rgba {
    Rgba(c.r8, c.g8, c.b8, c.a8)
  }

  /**
   * Without an intensity suffix the run-time decoder agrees with the
   * compile-time one: it accepts exactly the same strings, gives the same
   * channels (alpha 255 for the 6- and 3-digit forms, doubled digits for
   * the 4- and 3-digit forms) and sets the neutral intensity.
   */
  lemma TryParseAgreesWithMacro(s: string)
    requires |s| > 0 ==> !HasIntensitySuffix(s[1..])
    ensures TryParse(s).Ok? <==> MacroHex.ParseHexColor(s).Ok?
    ensures TryParse(s).Ok? ==>
      && Channels(TryParse(s).value) == MacroHex.ParseHexColor(s).value
      && TryParse(s).value.intensity16 == NeutralIntensity
  {
  }

  /**
   * The intensity suffix: when the body's fifth character from the end is
   * `+`, the last four characters are read as a `u16` in base 16 with no
   * clamping (a malformed one is an error), and the result is the prefix's
   * parse with that intensity set.
   */
  lemma TryParseIntensity(s: string)
    requires |s| > 0 && s[0] == '#' && HasIntensitySuffix(s[1..])
    ensures var hex := s[1..];
      var prefix := "#" + hex[..|hex| - 5];
      && (ParseU16(hex[|hex| - 4..]).Err? ==> TryParse(s).Err?)
      && (ParseU16(hex[|hex| - 4..]).Ok? && !HasIntensitySuffix(prefix[1..]) ==>
            TryParse(s) == match TryParse(prefix)
                          case Ok(c) => Ok(WithIntensityU16(c, ParseU16(hex[|hex| - 4..]).value))
                          case Err(e) => Err(e))
  {
    var hex := s[1..];
    var prefix := "#" + hex[..|hex| - 5];
    assert prefix[1..] == hex[..|hex| - 5];
  }

  /**
   * The text form of a colour that `try_parse` reads: `#`, the 8-digit
   * channels and, unless the intensity is neutral, `+` and its four digits.
   * The crate has no such printer; it is the inverse the round trip below
   * is stated against.
   */
  function Format(c: Color): (s: string)
    ensures |s| > 0 && s[0] == '#'
  {
    "#" + Body8(Channels(c)) + (if c.intensity16 == NeutralIntensity then "" else "+" + Hex4(c.intensity16))
  }

  /** Round trip: every colour, intensity included, parses back from its text form. */
  lemma TryParseFormat(c: Color)
    ensures TryParse(Format(c)) == Ok(c)
  {
    if c.intensity16 == NeutralIntensity {
      FormatNeutral(c);
    } else {
      FormatWithIntensity(c);
    }
  }

  lemma FormatNeutral(c: Color)
    requires c.intensity16 == NeutralIntensity
    ensures TryParse(Format(c)) == Ok(c)
  {
    var body := Body8(Channels(c));
    assert Format(c) == "#" + body;
    PlainText(body, Channels(c));
    DecodeWithChannels(c);
  }

  /** The canonical body alone reads with the neutral intensity: its fifth character from the end is a digit. */
  lemma PlainText(body: string, c: Rgba)
    requires body == Body8(c)
    ensures TryParse("#" + body) == DecodeWith(body, NeutralIntensity)
  {
    assert ("#" + body)[1..] == body;
    assert body[3] == Hex2(c.g)[1];
  }

  lemma FormatWithIntensity(c: Color)
    requires c.intensity16 != NeutralIntensity
    ensures TryParse(Format(c)) == Ok(c)
  {
    var body := Body8(Channels(c));
    var tail := Hex4(c.intensity16);
    assert Format(c) == "#" + body + "+" + tail;
    ParseU16OfFour(tail);
    SuffixedText(body, tail);
    DecodeWithChannels(c);
  }

  /** Text with a `+` and four more characters after the body reads the body with that intensity. */
  lemma SuffixedText(body: string, tail: string)
    requires |tail| == 4 && ParseU16(tail).Ok?
    ensures TryParse("#" + body + "+" + tail) == DecodeWith(body, ParseU16(tail).value)
  {
    var hex := ("#" + body + "+" + tail)[1..];
    assert hex == body + "+" + tail;
    assert hex[|hex| - 5] == '+';
    assert hex[|hex| - 4..] == tail && hex[..|hex| - 5] == body;
  }

  /** Decoding the canonical body of a colour with its own intensity gives the colour back. */
  lemma DecodeWithChannels(c: Color)
    ensures DecodeWith(Body8(Channels(c)), c.intensity16) == Ok(c)
  {
    DecodeRoundTrip(Channels(c));
  }

  /** Parsing `#` and eight hex digits of four bytes gives `Color::new` of them (the importer's output form). */
  lemma TryParseBody8(c: Rgba)
    ensures TryParse("#" + Body8(c)) == Ok(New(c.r, c.g, c.b, c.a))
  {
    var col := New(c.r, c.g, c.b, c.a);
    assert Channels(col) == c;
    assert Format(col) == "#" + Body8(c) + "";
    assert "#" + Body8(c) + "" == "#" + Body8(c);
    TryParseFormat(col);
  }

  /** What a debug build of `try_parse` does: it either returns or panics. */
  datatype Outcome = Returned(result: Result<Color, Error>) | Panicked(reason: string)

  /**
   * `try_parse` as written, in a debug build: `hex.len() - 5` overflows and
   * panics for every body shorter than five bytes, which includes all the
   * 4- and 3-digit forms the function otherwise decodes.
   */
  function TryParseDebug(s: string): (r: Outcome)
    ensures r.Panicked? <==> |s| > 0 && s[0] == '#' && |s| - 1 < 5
    ensures r.Returned? ==> r.result == TryParse(s)
  {
    if |s| == 0 || s[0] != '#' then Returned(Err(ParseError(MacroHex.MissingHash)))
    else if |s| - 1 < 5 then Panicked("attempt to subtract with overflow")
    else Returned(TryParse(s))
  }

  /** `"#f00"` panics in a debug build, while the release reading decodes it to opaque red. */
  lemma ShortFormUnderflow()
    ensures TryParseDebug("#f00").Panicked?
    ensures TryParse("#f00") == Ok(New(255, 0, 0, 255))
  {
    assert "#f00"[1..] == "f00";
    DecodeShort("f00");
  }

  /** `Color::new` followed by a non-neutral intensity gives a different colour: intensity takes part in equality. */
  lemma IntensityInEquality(r8: U8, g8: U8, b8: U8, a8: U8, i: U16)
    ensures WithIntensityU16(New(r8, g8, b8, a8), i) == New(r8, g8, b8, a8) <==> i == NeutralIntensity
  {
  }
}
