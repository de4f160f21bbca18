/**
 * The body of an HTML hex colour (the text after `#`), decoded by its
 * length exactly as both `parse_hex_color` in the macro crate and
 * `Color::try_parse` do: 8 digits are RRGGBBAA, 6 are RRGGBB with an opaque
 * alpha, 4 are RGBA and 3 are RGB with every digit doubled, and any other
 * length is refused. Channels are read in the order R, G, B, A and the
 * first group that `u8::from_str_radix` refuses is reported.
 */
module HexBody {
  import opened Wrappers
  import opened Numeric

  /** The four accepted layouts, by body length. */
  datatype Form = Digits8 | Digits6 | Digits4 | Digits3

  datatype Channel = Red | Green | Blue | Alpha

  /** Four decoded 8-bit channels. */
  datatype Rgba = Rgba(r: U8, g: U8, b: U8, a: U8)

  datatype BodyError =
    | BadLength
    | BadGroup(form: Form, channel: Channel, kind: IntErrorKind)

  function BodyLength(form: Form): nat {
    match form
    case Digits8 => 8
    case Digits6 => 6
    case Digits4 => 4
    case Digits3 => 3
  }

  predicate IsShort(form: Form) {
    form == Digits4 || form == Digits3
  }

  predicate HasAlpha(form: Form) {
    form == Digits8 || form == Digits4
  }

  function Index(ch: Channel): nat {
    match ch
    case Red => 0
    case Green => 1
    case Blue => 2
    case Alpha => 3
  }

  /**
   * The text one channel is parsed from: `hex[2i..2i+2]` in the long forms,
   * `hex[i..i+1].repeat(2)` in the short ones.
   */
  function GroupText(hex: string, form: Form, ch: Channel): (t: string)
    requires |hex| == BodyLength(form) && (ch == Alpha ==> HasAlpha(form))
    ensures |t| == 2
  {
    var i := Index(ch);
    if IsShort(form) then [hex[i], hex[i]] else hex[2 * i..2 * i + 2]
  }

  function ReadGroup(hex: string, form: Form, ch: Channel): (r: Result<U8, BodyError>)
    requires |hex| == BodyLength(form) && (ch == Alpha ==> HasAlpha(form))
    ensures r.Err? ==> r.error.BadGroup? && r.error.form == form && r.error.channel == ch
  {
    match ParseU8(GroupText(hex, form, ch))
    case Ok(v) => Ok(v)
    case Err(k) => Err(BadGroup(form, ch, k))
  }

  /**
   * The placeholder both decoders print for a refused channel, the refused
   * channel in capitals: `#RRggbbaa`, `#rGb`, ...
   */
  function Pattern(form: Form, ch: Channel): string
    requires ch == Alpha ==> HasAlpha(form)
  {
    match form
    case Digits8 =>
      (match ch
       case Red => "#RRggbbaa"
       case Green => "#rrGGbbaa"
       case Blue => "#rrggBBaa"
       case Alpha => "#rrggbbAA")
    case Digits6 =>
      (match ch
       case Red => "#RRggbb"
       case Green => "#rrGGbb"
       case Blue => "#rrggBB"
       case Alpha => "")
    case Digits4 =>
      (match ch
       case Red => "#Rgba"
       case Green => "#rGba"
       case Blue => "#rgBa"
       case Alpha => "#rgbA")
    case Digits3 =>
      (match ch
       case Red => "#Rgb"
       case Green => "#rGb"
       case Blue => "#rgB"
       case Alpha => "")
  }

  /** The form a body of this length is read in, if any. */
  function FormOf(len: nat): (f: Option<Form>)
    ensures f.Some? <==> len in {8, 6, 4, 3}
    ensures f.Some? ==> BodyLength(f.value) == len
  {
    if len == 8 then Some(Digits8)
    else if len == 6 then Some(Digits6)
    else if len == 4 then Some(Digits4)
    else if len == 3 then Some(Digits3)
    else None
  }

  /** Reads the channels of a body whose length matches its form, in the order R, G, B, A. */
  function DecodeForm(hex: string, form: Form): (r: Result<Rgba, BodyError>)
    requires |hex| == BodyLength(form)
    ensures r.Ok? && !HasAlpha(form) ==> r.value.a == 255
    ensures r.Err? ==> r.error.BadGroup? && r.error.form == form
  {
    var r :- ReadGroup(hex, form, Red);
    var g :- ReadGroup(hex, form, Green);
    var b :- ReadGroup(hex, form, Blue);
    var a :- if HasAlpha(form) then ReadGroup(hex, form, Alpha) else Ok(255);
    Ok(Rgba(r, g, b, a))
  }

  /** The length dispatch shared by both hex decoders. */
  function DecodeBody(hex: string): (r: Result<Rgba, BodyError>)
    ensures r == Err(BadLength) <==> |hex| !in {8, 6, 4, 3}
    ensures r.Ok? && (|hex| == 6 || |hex| == 3) ==> r.value.a == 255
  {
    match FormOf(|hex|)
    case None => Err(BadLength)
    case Some(form) => DecodeForm(hex, form)
  }

  /** In a long form a channel is accepted exactly when its two characters are a byte text. */
  predicate LongGroupsValid(hex: string)
    requires |hex| == 8 || |hex| == 6
  {
    forall i | 0 <= i < |hex| / 2 :: IsByteText(hex[2 * i..2 * i + 2])
  }

  /**
   * The 8- and 6-digit forms: accepted exactly when every two-character
   * group is two hex digits or `+` and one, each channel being that group's
   * value; alpha is read from the string in the 8-digit form and is 255 in
   * the 6-digit one.
   */
  lemma DecodeLong(hex: string)
    requires |hex| == 8 || |hex| == 6
    ensures DecodeBody(hex).Ok? <==> LongGroupsValid(hex)
    ensures DecodeBody(hex).Ok? ==>
      && DecodeBody(hex).value.r == ByteTextValue(hex[0..2])
      && DecodeBody(hex).value.g == ByteTextValue(hex[2..4])
      && DecodeBody(hex).value.b == ByteTextValue(hex[4..6])
      && DecodeBody(hex).value.a == (if |hex| == 8 then ByteTextValue(hex[6..8]) else 255)
  {
    LongReads(hex);
    LongValidGroups(hex);
    ParseU8OfTwo(hex[0..2]);
    ParseU8OfTwo(hex[2..4]);
    ParseU8OfTwo(hex[4..6]);
    if |hex| == 8 {
      ParseU8OfTwo(hex[6..8]);
    }
  }

  /** A long body decodes exactly when each of its groups parses as a `u8`, the channels being those values. */
  lemma LongReads(hex: string)
    requires |hex| == 8 || |hex| == 6
    ensures DecodeBody(hex).Ok? <==>
      && ParseU8(hex[0..2]).Ok? && ParseU8(hex[2..4]).Ok? && ParseU8(hex[4..6]).Ok?
      && (|hex| == 8 ==> ParseU8(hex[6..8]).Ok?)
    ensures DecodeBody(hex).Ok? ==>
      && DecodeBody(hex).value.r == ParseU8(hex[0..2]).value
      && DecodeBody(hex).value.g == ParseU8(hex[2..4]).value
      && DecodeBody(hex).value.b == ParseU8(hex[4..6]).value
      && DecodeBody(hex).value.a == (if |hex| == 8 then ParseU8(hex[6..8]).value else 255)
  {
    var form := if |hex| == 8 then Digits8 else Digits6;
    assert GroupText(hex, form, Red) == hex[0..2];
    assert GroupText(hex, form, Green) == hex[2..4];
    assert GroupText(hex, form, Blue) == hex[4..6];
    if |hex| == 8 {
      assert GroupText(hex, form, Alpha) == hex[6..8];
    }
  }

  lemma LongValidGroups(hex: string)
    requires |hex| == 8 || |hex| == 6
    ensures LongGroupsValid(hex) <==>
      && IsByteText(hex[0..2]) && IsByteText(hex[2..4]) && IsByteText(hex[4..6])
      && (|hex| == 8 ==> IsByteText(hex[6..8]))
  {
    assert hex[0..2] == hex[2 * 0..2 * 0 + 2] && hex[2..4] == hex[2 * 1..2 * 1 + 2];
    assert hex[4..6] == hex[2 * 2..2 * 2 + 2];
    if |hex| == 8 {
      assert hex[6..8] == hex[2 * 3..2 * 3 + 2];
    }
    if !LongGroupsValid(hex) {
      var i :| 0 <= i < |hex| / 2 && !IsByteText(hex[2 * i..2 * i + 2]);
      assert i == 0 || i == 1 || i == 2 || i == 3;
    }
  }

  /** In a short form every digit must be a hex digit (a `+` would be doubled to the refused `"++"`). */
  predicate ShortDigitsValid(hex: string) {
    forall i | 0 <= i < |hex| :: IsHexDigit(hex[i])
  }

  lemma DoubledDigit(c: char)
    ensures ParseU8([c, c]).Ok? <==> IsHexDigit(c)
    ensures IsHexDigit(c) ==> ParseU8([c, c]).value == 17 * HexValue(c)
  {
    ParseU8OfTwo([c, c]);
  }

  /**
   * The 4- and 3-digit forms: accepted exactly when every character is a
   * hex digit, each channel then being 17 times its digit (the digit
   * doubled); alpha is read from the string in the 4-digit form and is 255
   * in the 3-digit one.
   */
  lemma DecodeShort(hex: string)
    requires |hex| == 4 || |hex| == 3
    ensures DecodeBody(hex).Ok? <==> ShortDigitsValid(hex)
    ensures DecodeBody(hex).Ok? ==>
      && DecodeBody(hex).value.r == 17 * HexValue(hex[0])
      && DecodeBody(hex).value.g == 17 * HexValue(hex[1])
      && DecodeBody(hex).value.b == 17 * HexValue(hex[2])
      && DecodeBody(hex).value.a == (if |hex| == 4 then 17 * HexValue(hex[3]) else 255)
  {
    DoubledDigit(hex[0]);
    DoubledDigit(hex[1]);
    DoubledDigit(hex[2]);
    if |hex| == 4 {
      DoubledDigit(hex[3]);
    }
    if !ShortDigitsValid(hex) {
      var i :| 0 <= i < |hex| && !IsHexDigit(hex[i]);
      assert i == 0 || i == 1 || i == 2 || i == 3;
    }
  }

  /** The canonical 8-digit body of four channels. */
  function Body8(c: Rgba): (hex: string)
    ensures |hex| == 8
  {
    Hex2(c.r) + Hex2(c.g) + Hex2(c.b) + Hex2(c.a)
  }

  /** The canonical 6-digit body of the colour channels (alpha is dropped). */
  function Body6(c: Rgba): (hex: string)
    ensures |hex| == 6
  {
    Hex2(c.r) + Hex2(c.g) + Hex2(c.b)
  }

  /**
   * Round trip: the zero-padded two-digit hex of any four bytes decodes to
   * exactly those bytes, and their 6-digit form to the same colour made
   * opaque.
   */
  lemma DecodeRoundTrip(c: Rgba)
    ensures DecodeBody(Body8(c)) == Ok(c)
    ensures DecodeBody(Body6(c)) == Ok(c.(a := 255))
  {
    var h8, h6 := Body8(c), Body6(c);
    assert h8[0..2] == Hex2(c.r) && h8[2..4] == Hex2(c.g) && h8[4..6] == Hex2(c.b) && h8[6..8] == Hex2(c.a);
    assert h6[0..2] == Hex2(c.r) && h6[2..4] == Hex2(c.g) && h6[4..6] == Hex2(c.b);
    assert LongGroupsValid(h8) by {
      forall i | 0 <= i < 4 ensures IsByteText(h8[2 * i..2 * i + 2]) {
        assert i == 0 || i == 1 || i == 2 || i == 3;
      }
    }
    assert LongGroupsValid(h6) by {
      forall i | 0 <= i < 3 ensures IsByteText(h6[2 * i..2 * i + 2]) {
        assert i == 0 || i == 1 || i == 2;
      }
    }
    DecodeLong(h8);
    DecodeLong(h6);
  }
}
