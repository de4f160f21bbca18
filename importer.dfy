/**
 * The GIMP-palette importer: the name conversions, the hex formatting and
 * the line-by-line reader of a `.gpl` file, whose output the importer
 * writes out as `palette!` declarations. A file is the sequence of its
 * lines; reading and writing files is not part of the model.
 */
module GplImporter {
  import opened Wrappers
  import opened Numeric
  import opened HexBody
  import opened MacroHex
  import opened MacroNames
  import ColorValue

  // ---------------------------------------------------------------------
  // Python string primitives, on ASCII text
  // ---------------------------------------------------------------------

  /** `str.isspace` on ASCII: space, tab through carriage return, and the separators 0x1c to 0x1f. */
  predicate IsSpace(c: char) {
    c == ' ' || 9 <= c as int <= 13 || 28 <= c as int <= 31
  }

  /** The separators the importer splits or strips on. */
  datatype Sep = Space | NonAlphanumeric | Underscore

  predicate IsSep(sep: Sep, c: char) {
    match sep
    case Space => IsSpace(c)
    case NonAlphanumeric => !IsAlphanumeric(c)
    case Underscore => c == '_'
  }

  /** The longest prefix of s without a separator. */
  function Word(s: string, sep: Sep): (w: string)
    ensures |w| <= |s| && w == s[..|w|]
    ensures forall j | 0 <= j < |w| :: !IsSep(sep, w[j])
    ensures |w| < |s| ==> IsSep(sep, s[|w|])
    ensures |s| > 0 && !IsSep(sep, s[0]) ==> |w| > 0
  {
    if |s| == 0 || IsSep(sep, s[0]) then "" else [s[0]] + Word(s[1..], sep)
  }

  /** s without its leading separators. */
  function SkipSeparators(s: string, sep: Sep): (r: string)
    ensures |r| <= |s| && r == s[|s| - |r|..]
    ensures forall j | 0 <= j < |s| - |r| :: IsSep(sep, s[j])
    ensures |r| > 0 ==> !IsSep(sep, r[0])
  {
    if |s| > 0 && IsSep(sep, s[0]) then SkipSeparators(s[1..], sep) else s
  }

  /** The maximal runs of non-separators, in order: what splitting on runs of separators leaves once empty parts are dropped. */
  function Words(s: string, sep: Sep): seq<string>
    decreases |s|
  {
    var t := SkipSeparators(s, sep);
    if |t| == 0 then []
    else
      var w := Word(t, sep);
      [w] + Words(t[|w|..], sep)
  }

  lemma WordsAreWords(s: string, sep: Sep)
    ensures forall k | 0 <= k < |Words(s, sep)| :: IsWord(Words(s, sep)[k], sep)
  {
    forall k | 0 <= k < |Words(s, sep)|
      ensures IsWord(Words(s, sep)[k], sep)
    {
      WordAt(s, sep, k);
    }
  }

  /** The word at position k is a non-empty run of non-separators. */
  lemma {:induction false} WordAt(s: string, sep: Sep, k: nat)
    requires k < |Words(s, sep)|
    ensures IsWord(Words(s, sep)[k], sep)
    decreases |s|
  {
    var t := SkipSeparators(s, sep);
    assert |t| > 0;
    var w := Word(t, sep);
    var rest := t[|w|..];
    assert Words(s, sep) == [w] + Words(rest, sep);
    if k == 0 {
      assert IsWord(w, sep);
    } else {
      WordAt(rest, sep, k - 1);
      assert Words(s, sep)[k] == Words(rest, sep)[k - 1];
    }
  }

  /** The words of a text that does not consist of separators only: the first word, then the words after it. */
  lemma WordsCons(s: string, sep: Sep)
    requires |SkipSeparators(s, sep)| > 0
    ensures var t := SkipSeparators(s, sep); var w := Word(t, sep);
      Words(s, sep) == [w] + Words(t[|w|..], sep)
  {
  }

  /** There are no more words than characters. */
  lemma {:induction false} WordsLength(s: string, sep: Sep)
    ensures |Words(s, sep)| <= |s|
    decreases |s|
  {
    var t := SkipSeparators(s, sep);
    if |t| > 0 {
      var w := Word(t, sep);
      WordsLength(t[|w|..], sep);
      WordsCons(s, sep);
    }
  }

  /** A text has no words exactly when it consists of separators only. */
  lemma NoWords(s: string, sep: Sep)
    ensures |Words(s, sep)| == 0 <==> forall i | 0 <= i < |s| :: IsSep(sep, s[i])
  {
    var t := SkipSeparators(s, sep);
    if |t| > 0 {
      assert !IsSep(sep, s[|s| - |t|]);
    }
  }

  /** A non-empty run of non-separators. */
  predicate IsWord(w: string, sep: Sep) {
    |w| > 0 && forall j | 0 <= j < |w| :: !IsSep(sep, w[j])
  }

  /** s without its trailing white space. */
  function TrimEnd(s: string): (r: string)
    ensures |r| <= |s| && r == s[..|r|]
    ensures forall j | |r| <= j < |s| :: IsSpace(s[j])
    ensures |r| > 0 ==> !IsSpace(r[|r| - 1])
  {
    if |s| > 0 && IsSpace(s[|s| - 1]) then TrimEnd(s[..|s| - 1]) else s
  }

  /** `str.strip()`. */
  function Strip(s: string): (r: string)
    ensures |r| > 0 ==> !IsSpace(r[0]) && !IsSpace(r[|r| - 1])
  {
    TrimEnd(SkipSeparators(s, Space))
  }

  /** `" ".join(parts)`. */
  function JoinSpace(parts: seq<string>): string {
    if |parts| == 0 then ""
    else if |parts| == 1 then parts[0]
    else parts[0] + " " + JoinSpace(parts[1..])
  }

  function Concat(parts: seq<string>): string {
    if |parts| == 0 then "" else parts[0] + Concat(parts[1..])
  }

  // ---------------------------------------------------------------------
  // int() and format(n, '02x')
  // ---------------------------------------------------------------------

  /** Decimal digits with single underscores between them, as `int()` accepts them. */
  predicate IsDigitRun(t: string) {
    && |t| > 0 && IsDigit(t[0]) && IsDigit(t[|t| - 1])
    && forall i | 0 <= i < |t| ::
         IsDigit(t[i]) || (0 < i < |t| - 1 && t[i] == '_' && IsDigit(t[i - 1]) && IsDigit(t[i + 1]))
  }

  /** The value of decimal digits, underscores ignored. */
  function DigitsValue(t: string): nat
    requires forall i | 0 <= i < |t| :: IsDigit(t[i]) || t[i] == '_'
  {
    if |t| == 0 then 0
    else if t[|t| - 1] == '_' then DigitsValue(t[..|t| - 1])
    else
      assert IsDigit(t[|t| - 1]);
      10 * DigitsValue(t[..|t| - 1]) + (t[|t| - 1] as int - '0' as int)
  }

  /** `int(s)` on a word without white space: an optional sign and a digit run; None where Python raises ValueError. */
  function PyInt(s: string): (r: Option<int>)
    ensures r.Some? ==> |s| > 0
  {
    var negative := |s| > 0 && s[0] == '-';
    var digits := if |s| > 0 && (s[0] == '-' || s[0] == '+') then s[1..] else s;
    if IsDigitRun(digits) then
      var v: int := DigitsValue(digits);
      Some(if negative then -v else v)
    else None
  }

  /** `format(n, 'x')` for n >= 0: lower-case hex digits without leading zeros. */
  function HexDigits(n: nat): (t: string)
    ensures |t| > 0 && forall i | 0 <= i < |t| :: '0' <= t[i] <= '9' || 'a' <= t[i] <= 'f'
    ensures n >= 16 ==> |t| >= 2
    ensures n >= 256 ==> |t| >= 3
    ensures n < 16 ==> t == [HexChar(n)]
  {
    if n < 16 then [HexChar(n)] else HexDigits(n / 16) + [HexChar(n % 16)]
  }

  /** `format(n, '02x')`: the sign, then hex digits zero-padded so that the whole is at least two characters. */
  function Format02x(n: int): (t: string)
    ensures |t| >= 2
    ensures t[0] == '-' <==> n < 0
    ensures IsHexDigit(t[1])
  {
    if n < 0 then "-" + HexDigits(-n)
    else
      var d := HexDigits(n);
      if |d| < 2 then "0" + d else d
  }

  /** `rgba_to_hex`: `#` and each component in `02x` form. Components are not range checked. */
  function RgbaToHex(r: int, g: int, b: int, a: int): (hex: string)
    ensures |hex| >= 9 && hex[0] == '#' && IsHexDigit(hex[2])
  {
    "#" + Format02x(r) + Format02x(g) + Format02x(b) + Format02x(a)
  }

  // ---------------------------------------------------------------------
  // Names
  // ---------------------------------------------------------------------

  predicate IsKeyChar(c: char) {
    IsLower(c) || IsDigit(c)
  }

  /**
   * `re.sub(r"[^a-z0-9]+", "_", s)`: each maximal run of characters other
   * than lower-case letters and digits becomes one underscore. `inRun`
   * says whether the previous character already started such a run.
   */
  function SubRuns(s: string, inRun: bool): (r: string)
    ensures |r| <= |s|
  {
    if |s| == 0 then ""
    else if IsKeyChar(s[0]) then [s[0]] + SubRuns(s[1..], false)
    else (if inRun then "" else "_") + SubRuns(s[1..], true)
  }

  function TrimEndUnderscores(s: string): (r: string)
    ensures |r| <= |s| && r == s[..|r|]
    ensures forall j | |r| <= j < |s| :: s[j] == '_'
    ensures |r| > 0 ==> r[|r| - 1] != '_'
  {
    if |s| > 0 && s[|s| - 1] == '_' then TrimEndUnderscores(s[..|s| - 1]) else s
  }

  /** `s.strip("_")`. */
  function StripUnderscores(s: string): (r: string)
    ensures |r| <= |s|
    ensures |r| > 0 ==> r[0] != '_' && r[|r| - 1] != '_'
  {
    TrimEndUnderscores(SkipSeparators(s, Underscore))
  }

  /** `snake_case`: strip, lower-case, collapse every run of other characters to `_`, strip `_`. */
  function SnakeCase(name: string): (r: string)
    ensures |r| <= |name|
    ensures |r| > 0 ==> r[0] != '_' && r[|r| - 1] != '_'
  {
    StripUnderscores(SubRuns(AsciiLower(Strip(name)), false))
  }

  /** `str.capitalize()`: the first character upper case and the rest lower case. */
  function Capitalize(p: string): (r: string)
    ensures |r| == |p|
    ensures |r| > 0 ==> !IsLower(r[0])
    ensures forall i | 1 <= i < |r| :: !IsUpper(r[i])
    ensures forall i | 0 <= i < |r| :: ToAsciiLower(r[i]) == ToAsciiLower(p[i])
  {
    if |p| == 0 then "" else [ToAsciiUpper(p[0])] + AsciiLower(p[1..])
  }

  /**
   * `pascal_case`: the alphanumeric runs of the name, each capitalised,
   * joined. The result holds only letters and digits, and has the lookup
   * key of the name it came from.
   */
  function PascalCase(name: string): (r: string)
    ensures AllAlphanumeric(r)
    ensures Normalize(r) == Normalize(name)
  {
    CapitalizedWordsAlphanumeric(name);
    NormalizeCapitalizeAll(Words(name, NonAlphanumeric));
    NormalizeWords(name);
    Concat(CapitalizeAll(Words(name, NonAlphanumeric)))
  }

  function CapitalizeAll(parts: seq<string>): (r: seq<string>)
    ensures |r| == |parts| && forall k | 0 <= k < |parts| :: r[k] == Capitalize(parts[k])
  {
    seq(|parts|, k requires 0 <= k < |parts| => Capitalize(parts[k]))
  }

  // ---------------------------------------------------------------------
  // parse_gpl
  // ---------------------------------------------------------------------

  /** An imported entry: its name and its `#rrggbbaa` text. */
  type Entry = (string, string)

  /**
   * The name an entry gets from its snake-cased name and its hex text:
   * `untitled` becomes the hex digits, and a name equal to the eight or the
   * first six hex digits gets a `color_` prefix. The result is never a bare
   * hex body.
   */
  function EntryName(snake: string, hex: string): (name: string)
    requires |hex| >= 9 && IsHexDigit(hex[2])
    ensures name != hex[1..] && name != hex[1..7]
    ensures snake == "untitled" ==> name == "color_" + hex[1..]
    ensures snake != "untitled" && snake != hex[1..] && snake != hex[1..7] ==> name == snake
    ensures snake != "untitled" && (snake == hex[1..] || snake == hex[1..7]) ==> name == "color_" + snake
  {
    var name1 := if snake == "untitled" then hex[1..] else snake;
    var name := if name1 == hex[1..] || name1 == hex[1..7] then "color_" + name1 else name1;
    if name != name1 then
      assert name[1] == 'o' && hex[1..][1] != 'o' && hex[1..7][1] != 'o';
      name
    else
      name
  }

  /**
   * What `parse_gpl` makes of one line: None for the lines it skips (blank,
   * comments, `Key: value` headers, the `GIMP Palette` magic, fewer than
   * four fields, non-integer channels), otherwise the entry. A fourth field
   * that is an integer in 0..255 is the alpha; any other fourth field
   * belongs to the name and the alpha is 255.
   */
  function ClassifyLine(raw: string): (r: Option<Entry>)
    ensures r.Some? ==> |r.value.1| >= 9 && r.value.1[0] == '#'
  {
    var line := Strip(raw);
    if |line| == 0 || line[0] == '#' || ':' in line || AsciiLower(line) == "gimp palette" then None
    else
      var parts := Words(line, Space);
      if |parts| < 4 then None else ClassifyFields(parts)
  }

  /**
   * The entry of a line's fields: None unless the first three are integers;
   * the alpha and where the name starts come from the fourth field.
   */
  function ClassifyFields(parts: seq<string>): (r: Option<Entry>)
    requires |parts| >= 4
    ensures r.Some? ==> |r.value.1| >= 9 && r.value.1[0] == '#'
  {
    match (PyInt(parts[0]), PyInt(parts[1]), PyInt(parts[2]))
    case (Some(r), Some(g), Some(b)) =>
      var (a, namePart) := AlphaField(parts[3]);
      var hex := RgbaToHex(r, g, b, a);
      Some((EntryName(SnakeCase(JoinSpace(parts[namePart..])), hex), hex))
    case _ => None
  }

  /**
   * The alpha heuristic on the fourth field: an integer in 0..255 is the
   * alpha and the name starts after it; anything else leaves the alpha at
   * 255 and the name starting at the fourth field.
   */
  function AlphaField(field: string): (an: (U8, nat))
    ensures an.1 == 3 || an.1 == 4
  {
    match PyInt(field)
    case Some(v) => if v < 0 || v > 255 then (255, 3) else (v, 4)
    case None => (255, 3)
  }

  /** A line that is not blank, not a comment, not a `Key: value` header and has at least four fields. */
  predicate MayHoldEntry(line: string) {
    |line| > 0 && line[0] != '#' && ':' !in line && |Words(line, Space)| >= 4
  }

  /**
   * What an entry line yields: the line holds at least four fields and is no
   * comment or header, the hex text has an alpha in 0..255, and the name is
   * never the bare hex digits.
   */
  lemma ClassifiedEntry(raw: string)
    ensures ClassifyLine(raw).Some? ==> MayHoldEntry(Strip(raw))
    ensures ClassifyLine(raw).Some? ==>
      exists cr: int, cg: int, cb: int, ca: U8 :: ClassifyLine(raw).value.1 == RgbaToHex(cr, cg, cb, ca)
    ensures ClassifyLine(raw).Some? ==>
      var (name, hex) := ClassifyLine(raw).value; name != hex[1..] && name != hex[1..7]
  {
    if ClassifyLine(raw).Some? {
      var line := Strip(raw);
      var parts := Words(line, Space);
      var r, g, b := PyInt(parts[0]).value, PyInt(parts[1]).value, PyInt(parts[2]).value;
      assert ClassifyLine(raw).value.1 == RgbaToHex(r, g, b, AlphaField(parts[3]).0);
    }
  }

  /** The white-space separated fields of a line: `line.strip().split()`. */
  function Fields(raw: string): seq<string> {
    Words(Strip(raw), Space)
  }

  /** A stripped line that `parse_gpl` skips before reading any number. */
  predicate SkippedByShape(line: string) {
    |line| == 0 || line[0] == '#' || ':' in line || AsciiLower(line) == "gimp palette" || |Words(line, Space)| < 4
  }

  /** A line whose shape is kept and whose first three fields are integers. */
  predicate HoldsChannels(raw: string) {
    && !SkippedByShape(Strip(raw))
    && PyInt(Fields(raw)[0]).Some? && PyInt(Fields(raw)[1]).Some? && PyInt(Fields(raw)[2]).Some?
  }

  /**
   * The skip rules, both ways: a line yields an entry exactly when it is not
   * skipped for its shape and its first three fields are integers.
   */
  lemma SkipRules(raw: string)
    ensures ClassifyLine(raw).Some? <==> HoldsChannels(raw)
  {
    if !SkippedByShape(Strip(raw)) {
      LineFields(raw);
    }
  }

  /** A line kept for its shape is classified by its fields alone. */
  lemma LineFields(raw: string)
    requires !SkippedByShape(Strip(raw))
    ensures ClassifyLine(raw) == ClassifyFields(Fields(raw))
  {
  }

  /**
   * The alpha heuristic: a fourth field that is an integer in 0..255 is the
   * alpha and the name starts at the fifth field; otherwise the alpha is 255
   * and the name starts at the fourth field.
   */
  lemma AlphaHeuristic(raw: string)
    requires HoldsChannels(raw)
    ensures var p := Fields(raw);
      var r, g, b := PyInt(p[0]).value, PyInt(p[1]).value, PyInt(p[2]).value;
      PyInt(p[3]).Some? && 0 <= PyInt(p[3]).value <= 255 ==>
        var hex := RgbaToHex(r, g, b, PyInt(p[3]).value);
        ClassifyLine(raw) == Some((EntryName(SnakeCase(JoinSpace(p[4..])), hex), hex))
    ensures var p := Fields(raw);
      var r, g, b := PyInt(p[0]).value, PyInt(p[1]).value, PyInt(p[2]).value;
      !(PyInt(p[3]).Some? && 0 <= PyInt(p[3]).value <= 255) ==>
        var hex := RgbaToHex(r, g, b, 255);
        ClassifyLine(raw) == Some((EntryName(SnakeCase(JoinSpace(p[3..])), hex), hex))
  {
    LineFields(raw);
    FieldsHeuristic(Fields(raw));
  }

  /** The alpha heuristic on a line's fields. */
  lemma FieldsHeuristic(p: seq<string>)
    requires |p| >= 4 && PyInt(p[0]).Some? && PyInt(p[1]).Some? && PyInt(p[2]).Some?
    ensures var r, g, b := PyInt(p[0]).value, PyInt(p[1]).value, PyInt(p[2]).value;
      PyInt(p[3]).Some? && 0 <= PyInt(p[3]).value <= 255 ==>
        var hex := RgbaToHex(r, g, b, PyInt(p[3]).value);
        ClassifyFields(p) == Some((EntryName(SnakeCase(JoinSpace(p[4..])), hex), hex))
    ensures var r, g, b := PyInt(p[0]).value, PyInt(p[1]).value, PyInt(p[2]).value;
      !(PyInt(p[3]).Some? && 0 <= PyInt(p[3]).value <= 255) ==>
        var hex := RgbaToHex(r, g, b, 255);
        ClassifyFields(p) == Some((EntryName(SnakeCase(JoinSpace(p[3..])), hex), hex))
  {
  }

  /** One line's effect on the entries so far: a new entry is appended, a repeated one is dropped. */
  function Step(prev: seq<Entry>, line: Option<Entry>): (next: seq<Entry>)
    ensures prev <= next && |next| <= |prev| + 1
  {
    match line
    case None => prev
    case Some(e) => if e in prev then prev else prev + [e]
  }

  /** After one step an entry is present exactly when it was before or the line yields it. */
  lemma StepMembers(prev: seq<Entry>, line: Option<Entry>, e: Entry)
    ensures e in Step(prev, line) <==> e in prev || line == Some(e)
  {
  }

  /** The entries of a sequence of line outcomes, each kept the first time it appears. */
  function Gather(outcomes: seq<Option<Entry>>): (cs: seq<Entry>)
    decreases |outcomes|
  {
    if |outcomes| == 0 then []
    else Step(Gather(outcomes[..|outcomes| - 1]), outcomes[|outcomes| - 1])
  }

  /** The fold keeps at most one entry per line. */
  lemma {:induction false} GatherLength(outcomes: seq<Option<Entry>>)
    ensures |Gather(outcomes)| <= |outcomes|
    decreases |outcomes|
  {
    if |outcomes| > 0 {
      GatherLength(outcomes[..|outcomes| - 1]);
    }
  }

  /** What each line of a file yields. */
  function Outcomes(lines: seq<string>): (os: seq<Option<Entry>>)
    ensures |os| == |lines| && forall k | 0 <= k < |lines| :: os[k] == ClassifyLine(lines[k])
  {
    seq(|lines|, k requires 0 <= k < |lines| => ClassifyLine(lines[k]))
  }

  lemma GatherSnoc(outcomes: seq<Option<Entry>>, i: nat)
    requires i < |outcomes|
    ensures Gather(outcomes[..i + 1]) == Step(Gather(outcomes[..i]), outcomes[i])
  {
    assert outcomes[..i + 1][..i] == outcomes[..i];
  }

  /**
   * `parse_gpl`: the loop over the file's lines that appends each new entry
   * to `colors`. The result holds no entry twice, and holds an entry
   * exactly when some line yields it.
   */
  /** The body of the reading loop: append a line's entry unless it is already there. */
  method AddEntry(colors: seq<Entry>, line: Option<Entry>) returns (next: seq<Entry>)
    ensures next == Step(colors, line)
  {
    next := colors;
    if line.Some? && line.value !in colors {
      next := colors + [line.value];
    }
  }

  method ParseGpl(lines: seq<string>) returns (colors: seq<Entry>)
    ensures colors == Gather(Outcomes(lines))
    ensures NoRepeats(colors)
    ensures forall e: Entry :: e in colors <==> Some(e) in Outcomes(lines)
  {
    ghost var outcomes := Outcomes(lines);
    colors := [];
    for i := 0 to |lines|
      invariant colors == Gather(outcomes[..i])
    {
      GatherSnoc(outcomes, i);
      var entry := ClassifyLine(lines[i]);
      colors := AddEntry(colors, entry);
    }
    assert outcomes[..|lines|] == outcomes;
    GatherFacts(outcomes);
  }

  // ---------------------------------------------------------------------
  // Properties of the hex output
  // ---------------------------------------------------------------------

  /** On a byte, `format(n, '02x')` is the two lower-case digits the macro's decoder reads back. */
  lemma Format02xByte(n: U8)
    ensures Format02x(n) == Hex2(n)
  {
    if n >= 16 {
      assert HexDigits(n) == HexDigits(n / 16) + [HexChar(n % 16)];
    }
  }

  /**
   * With channels in 0..255 the importer writes `#` and the canonical
   * eight-digit body, which both decoders of the crate read back as the
   * same channels.
   */
  lemma ImportedHexDecodes(r: U8, g: U8, b: U8, a: U8)
    ensures RgbaToHex(r, g, b, a) == "#" + Body8(Rgba(r, g, b, a))
    ensures ParseHexColor(RgbaToHex(r, g, b, a)) == Ok(Rgba(r, g, b, a))
    ensures ColorValue.TryParse(RgbaToHex(r, g, b, a)) == Ok(ColorValue.New(r, g, b, a))
  {
    ImportedHexIsBody8(r, g, b, a);
    ParseHexColorRoundTrip(Rgba(r, g, b, a));
    ColorValue.TryParseBody8(Rgba(r, g, b, a));
  }

  lemma ImportedHexIsBody8(r: U8, g: U8, b: U8, a: U8)
    ensures RgbaToHex(r, g, b, a) == "#" + Body8(Rgba(r, g, b, a))
  {
    Format02xByte(r);
    Format02xByte(g);
    Format02xByte(b);
    Format02xByte(a);
  }

  /**
   * `rgba_to_hex` does not range-check the first three channels: a channel
   * outside 0..255 gives text that `palette!` refuses.
   */
  lemma OutOfRangeRefused(r: int, g: int, b: int, a: U8)
    requires !(0 <= r <= 255 && 0 <= g <= 255 && 0 <= b <= 255)
    ensures ParseHexColor(RgbaToHex(r, g, b, a)).Err?
  {
    WideWhenAbove(r);
    WideWhenAbove(g);
    WideWhenAbove(b);
    GroupsRefused(Format02x(r), Format02x(g), Format02x(b), Format02x(a));
  }

  /** Four formatted groups of which one of the first three is wide or signed do not form a hex color. */
  lemma GroupsRefused(fr: string, fg: string, fb: string, fa: string)
    requires |fr| >= 2 && |fg| >= 2 && |fb| >= 2 && |fa| >= 2
    requires |fr| > 2 || fr[0] == '-' || |fg| > 2 || fg[0] == '-' || |fb| > 2 || fb[0] == '-'
    ensures ParseHexColor("#" + fr + fg + fb + fa).Err?
  {
    var body := fr + fg + fb + fa;
    assert ("#" + fr + fg + fb + fa)[1..] == body;
    if |body| == 8 {
      if fr[0] == '-' {
        assert body[0] == fr[0];
        MinusGroupRefused(body, 0);
      } else if fg[0] == '-' {
        assert body[2] == fg[0];
        MinusGroupRefused(body, 1);
      } else {
        assert body[4] == fb[0];
        MinusGroupRefused(body, 2);
      }
    }
  }

  lemma WideWhenAbove(n: int)
    ensures n > 255 ==> |Format02x(n)| >= 3
  {
  }

  /** An eight-digit body with a `-` opening one of its groups does not decode. */
  lemma MinusGroupRefused(body: string, i: nat)
    requires |body| == 8 && i < 4 && body[2 * i] == '-'
    ensures DecodeBody(body).Err?
  {
    DecodeLong(body);
    assert !IsByteText(body[2 * i..2 * i + 2]);
  }

  // ---------------------------------------------------------------------
  // int() on decimal text
  // ---------------------------------------------------------------------

  /** The decimal digits of n, as `str(n)` writes them. */
  function DecimalDigits(n: nat): (t: string)
    ensures |t| > 0 && forall i | 0 <= i < |t| :: IsDigit(t[i])
  {
    if n < 10 then [('0' as int + n) as char] else DecimalDigits(n / 10) + [('0' as int + n % 10) as char]
  }

  function DecimalText(n: int): string {
    if n < 0 then "-" + DecimalDigits(-n) else DecimalDigits(n)
  }

  lemma {:induction false} DecimalDigitsValue(n: nat)
    ensures IsDigitRun(DecimalDigits(n)) && DigitsValue(DecimalDigits(n)) == n
  {
    var t := DecimalDigits(n);
    if n >= 10 {
      DecimalDigitsValue(n / 10);
      assert t[..|t| - 1] == DecimalDigits(n / 10);
    }
  }

  /** `int()` reads back every integer written in decimal, negative ones included. */
  lemma PyIntDecimal(n: int)
    ensures PyInt(DecimalText(n)) == Some(n)
  {
    var m: nat := if n < 0 then -n else n;
    var d := DecimalDigits(m);
    DecimalDigitsValue(m);
    assert IsDigit(d[0]);
    var t := DecimalText(n);
    if n < 0 {
      assert t == "-" + d;
      assert t[1..] == d;
    } else {
      assert t == d;
    }
  }

  // ---------------------------------------------------------------------
  // Properties of parse_gpl
  // ---------------------------------------------------------------------

  predicate NoRepeats(cs: seq<Entry>) {
    forall i, j | 0 <= i < j < |cs| :: cs[i] != cs[j]
  }

  /** No entry is kept twice. */
  lemma {:induction false} GatherDistinct(outcomes: seq<Option<Entry>>)
    ensures NoRepeats(Gather(outcomes))
    decreases |outcomes|
  {
    if |outcomes| > 0 {
      var init := outcomes[..|outcomes| - 1];
      GatherDistinct(init);
      var prev, o := Gather(init), outcomes[|outcomes| - 1];
      assert Gather(outcomes) == Step(prev, o);
      if o.Some? && o.value !in prev {
        var cs := prev + [o.value];
        forall i, j | 0 <= i < j < |cs|
          ensures cs[i] != cs[j]
        {
          assert cs[i] == prev[i] && prev[i] in prev;
          if j < |prev| {
            assert cs[j] == prev[j];
          } else {
            assert cs[j] == o.value;
          }
        }
        assert NoRepeats(cs);
      }
    }
  }

  /** The entries gathered from the outcomes are distinct, and are exactly the entries among them. */
  lemma GatherFacts(outcomes: seq<Option<Entry>>)
    ensures NoRepeats(Gather(outcomes))
    ensures forall e: Entry :: e in Gather(outcomes) <==> Some(e) in outcomes
  {
    GatherDistinct(outcomes);
    forall e: Entry
      ensures e in Gather(outcomes) <==> Some(e) in outcomes
    {
      GatherMembers(outcomes, e);
    }
  }

  /** An entry is kept exactly when some outcome is that entry. */
  lemma {:induction false} GatherMembers(outcomes: seq<Option<Entry>>, e: Entry)
    ensures e in Gather(outcomes) <==> Some(e) in outcomes
    decreases |outcomes|
  {
    if |outcomes| > 0 {
      var init := outcomes[..|outcomes| - 1];
      GatherMembers(init, e);
      assert outcomes == init + [outcomes[|outcomes| - 1]];
    }
  }

  /** Reading further outcomes only appends: entries keep the order of their first appearance. */
  lemma {:induction false} GatherPrefix(outcomes: seq<Option<Entry>>, m: nat)
    requires m <= |outcomes|
    ensures Gather(outcomes[..m]) <= Gather(outcomes)
    decreases |outcomes| - m
  {
    if m < |outcomes| {
      GatherPrefix(outcomes, m + 1);
      GatherSnoc(outcomes, m);
    } else {
      assert outcomes[..m] == outcomes;
    }
  }

  // ---------------------------------------------------------------------
  // Properties of snake_case and pascal_case
  // ---------------------------------------------------------------------

  /** Lower-case letters, digits and underscores. */
  predicate SnakeChars(s: string) {
    forall i | 0 <= i < |s| :: IsKeyChar(s[i]) || s[i] == '_'
  }

  /** No two underscores in a row. */
  predicate NoDoubleUnderscore(s: string) {
    forall i | 0 <= i < |s| - 1 :: !(s[i] == '_' && s[i + 1] == '_')
  }

  /** A snake-case name: key characters separated by single underscores, with none at either end. */
  predicate IsSnakeName(s: string) {
    SnakeChars(s) && NoDoubleUnderscore(s) && (|s| > 0 ==> s[0] != '_' && s[|s| - 1] != '_')
  }

  /** What collapsing runs leaves: snake characters, single underscores, and none first after a run. */
  predicate RunShape(t: string, inRun: bool) {
    SnakeChars(t) && NoDoubleUnderscore(t) && (inRun && |t| > 0 ==> t[0] != '_')
  }

  lemma {:induction false} SubRunsShape(s: string, inRun: bool)
    ensures RunShape(SubRuns(s, inRun), inRun)
    decreases |s|
  {
    if |s| > 0 {
      var next := !IsKeyChar(s[0]);
      SubRunsShape(s[1..], next);
      var rest := SubRuns(s[1..], next);
      var head := if IsKeyChar(s[0]) then [s[0]] else if inRun then "" else "_";
      assert SubRuns(s, inRun) == head + rest;
      ConsShape(head, rest);
    }
  }

  lemma ConsShape(head: string, rest: string)
    requires |head| <= 1 && SnakeChars(head) && SnakeChars(rest) && NoDoubleUnderscore(rest)
    requires |head| == 1 && head[0] == '_' && |rest| > 0 ==> rest[0] != '_'
    ensures SnakeChars(head + rest) && NoDoubleUnderscore(head + rest)
  {
    var t := head + rest;
    forall i | 0 <= i < |t|
      ensures IsKeyChar(t[i]) || t[i] == '_'
    {
      if i >= |head| {
        assert t[i] == rest[i - |head|];
      }
    }
    forall i | 0 <= i < |t| - 1
      ensures !(t[i] == '_' && t[i + 1] == '_')
    {
      if i >= |head| {
        assert t[i] == rest[i - |head|] && t[i + 1] == rest[i + 1 - |head|];
      }
    }
  }

  /** A slice keeps the snake characters and the single underscores. */
  lemma SliceShape(t: string, lo: nat, hi: nat)
    requires lo <= hi <= |t| && SnakeChars(t) && NoDoubleUnderscore(t)
    ensures SnakeChars(t[lo..hi]) && NoDoubleUnderscore(t[lo..hi])
  {
    var u := t[lo..hi];
    forall i | 0 <= i < |u|
      ensures IsKeyChar(u[i]) || u[i] == '_'
    {
      assert u[i] == t[lo + i];
    }
    forall i | 0 <= i < |u| - 1
      ensures !(u[i] == '_' && u[i + 1] == '_')
    {
      assert u[i] == t[lo + i] && u[i + 1] == t[lo + i + 1];
    }
  }

  /** `snake_case` always produces a snake-case name (possibly empty). */
  lemma SnakeCaseShape(name: string)
    ensures IsSnakeName(SnakeCase(name))
  {
    var t := SubRuns(AsciiLower(Strip(name)), false);
    SubRunsShape(AsciiLower(Strip(name)), false);
    var u := SkipSeparators(t, Underscore);
    var v := TrimEndUnderscores(u);
    SliceShape(t, |t| - |u|, |t|);
    SliceShape(u, 0, |v|);
    if |v| > 0 {
      assert v[0] == u[0];
    }
  }

  lemma {:induction false} SubRunsFixed(y: string, inRun: bool)
    requires SnakeChars(y) && NoDoubleUnderscore(y)
    requires inRun && |y| > 0 ==> y[0] != '_'
    ensures SubRuns(y, inRun) == y
    decreases |y|
  {
    if |y| > 0 {
      var tail := y[1..];
      assert SnakeChars(tail) && NoDoubleUnderscore(tail) by {
        SliceShape(y, 1, |y|);
      }
      if |tail| > 0 && y[0] == '_' {
        assert y[1] == tail[0];
      }
      SubRunsFixed(tail, !IsKeyChar(y[0]));
      assert y == [y[0]] + tail;
    }
  }

  /** A snake-case name is left as it is. */
  lemma SnakeNameFixed(y: string)
    requires IsSnakeName(y)
    ensures SnakeCase(y) == y
  {
    assert SkipSeparators(y, Space) == y;
    assert TrimEnd(y) == y;
    assert AsciiLower(y) == y;
    SubRunsFixed(y, false);
    assert SkipSeparators(y, Underscore) == y;
    assert TrimEndUnderscores(y) == y;
  }

  /** `snake_case` is idempotent. */
  lemma SnakeCaseIdempotent(name: string)
    ensures SnakeCase(SnakeCase(name)) == SnakeCase(name)
  {
    SnakeCaseShape(name);
    SnakeNameFixed(SnakeCase(name));
  }

  /** Dropping a final non-alphanumeric character keeps the key. */
  lemma NormalizeDropLast(s: string)
    requires |s| > 0 && !IsAlphanumeric(s[|s| - 1])
    ensures Normalize(s[..|s| - 1]) == Normalize(s)
  {
    var last := [s[|s| - 1]];
    assert s == s[..|s| - 1] + last;
    NormalizeConcat(s[..|s| - 1], last);
    assert last[1..] == [];
  }

  /** Separators are never alphanumeric, so skipping them keeps the key. */
  lemma {:induction false} NormalizeSkip(s: string, sep: Sep)
    ensures Normalize(SkipSeparators(s, sep)) == Normalize(s)
    decreases |s|
  {
    if |s| > 0 && IsSep(sep, s[0]) {
      NormalizeSkip(s[1..], sep);
      SkipStep(s, sep);
    }
  }

  lemma SkipStep(s: string, sep: Sep)
    requires |s| > 0 && IsSep(sep, s[0])
    ensures SkipSeparators(s, sep) == SkipSeparators(s[1..], sep)
    ensures Normalize(s) == Normalize(s[1..])
  {
    assert !IsAlphanumeric(s[0]);
  }

  lemma {:induction false} NormalizeTrimEnd(s: string)
    ensures Normalize(TrimEnd(s)) == Normalize(s)
    decreases |s|
  {
    if |s| > 0 && IsSpace(s[|s| - 1]) {
      NormalizeTrimEnd(s[..|s| - 1]);
      NormalizeDropLast(s);
    }
  }

  lemma {:induction false} NormalizeTrimEndUnderscores(s: string)
    ensures Normalize(TrimEndUnderscores(s)) == Normalize(s)
    decreases |s|
  {
    if |s| > 0 && s[|s| - 1] == '_' {
      NormalizeTrimEndUnderscores(s[..|s| - 1]);
      NormalizeDropLast(s);
    }
  }

  lemma {:induction false} NormalizeLower(s: string)
    ensures Normalize(AsciiLower(s)) == Normalize(s)
    decreases |s|
  {
    if |s| > 0 {
      NormalizeLower(s[1..]);
      assert AsciiLower(s)[1..] == AsciiLower(s[1..]);
    }
  }

  lemma {:induction false} NormalizeSubRuns(s: string, inRun: bool)
    requires forall i | 0 <= i < |s| :: !IsUpper(s[i])
    ensures Normalize(SubRuns(s, inRun)) == Normalize(s)
    decreases |s|
  {
    if |s| > 0 {
      var next := !IsKeyChar(s[0]);
      NormalizeSubRuns(s[1..], next);
      var head := if IsKeyChar(s[0]) then [s[0]] else if inRun then "" else "_";
      assert SubRuns(s, inRun) == head + SubRuns(s[1..], next);
      NormalizeConcat(head, SubRuns(s[1..], next));
      assert Normalize(head) == (if IsKeyChar(s[0]) then [s[0]] else "") by {
        if |head| == 1 {
          assert head[1..] == "";
        }
      }
    }
  }

  /** `snake_case` keeps the lookup key: `get` finds an imported colour under its original name. */
  lemma SnakeCaseKey(name: string)
    ensures Normalize(SnakeCase(name)) == Normalize(name)
  {
    var st := SkipSeparators(name, Space);
    NormalizeSkip(name, Space);
    var stripped := TrimEnd(st);
    NormalizeTrimEnd(st);
    var lower := AsciiLower(stripped);
    NormalizeLower(stripped);
    var t := SubRuns(lower, false);
    NormalizeSubRuns(lower, false);
    var u := SkipSeparators(t, Underscore);
    NormalizeSkip(t, Underscore);
    NormalizeTrimEndUnderscores(u);
  }

  predicate AllAlphanumeric(s: string) {
    forall i | 0 <= i < |s| :: IsAlphanumeric(s[i])
  }

  lemma {:induction false} ConcatAlphanumeric(parts: seq<string>)
    requires forall k | 0 <= k < |parts| :: AllAlphanumeric(parts[k])
    ensures AllAlphanumeric(Concat(parts))
    decreases |parts|
  {
    if |parts| > 0 {
      ConcatAlphanumeric(parts[1..]);
      var p, rest := parts[0], Concat(parts[1..]);
      forall i | 0 <= i < |p + rest|
        ensures IsAlphanumeric((p + rest)[i])
      {
        if i >= |p| {
          assert (p + rest)[i] == rest[i - |p|];
        }
      }
    }
  }

  /** Capitalising the alphanumeric runs of a name and joining them leaves only letters and digits. */
  lemma CapitalizedWordsAlphanumeric(name: string)
    ensures AllAlphanumeric(Concat(CapitalizeAll(Words(name, NonAlphanumeric))))
  {
    var ws := Words(name, NonAlphanumeric);
    WordsAreWords(name, NonAlphanumeric);
    var cs := CapitalizeAll(ws);
    forall k | 0 <= k < |cs|
      ensures AllAlphanumeric(cs[k])
    {
      CapitalizeAlphanumeric(ws[k]);
    }
    ConcatAlphanumeric(cs);
  }

  /**
   * p is the word w as `str.capitalize()` leaves it: the same letters up to
   * case, the first character not lower case and the others not upper case.
   */
  predicate CapitalizedFrom(p: string, w: string) {
    && |p| == |w| > 0
    && !IsLower(p[0])
    && (forall i | 1 <= i < |p| :: !IsUpper(p[i]))
    && (forall i | 0 <= i < |p| :: ToAsciiLower(p[i]) == ToAsciiLower(w[i]))
  }

  /**
   * `pascal_case` joins, in order, one part per maximal alphanumeric run of
   * the name: each part is that run capitalised, and holds only letters and
   * digits.
   */
  lemma PascalCaseParts(name: string)
    ensures var ws := Words(name, NonAlphanumeric);
      var ps := CapitalizeAll(ws);
      && PascalCase(name) == Concat(ps)
      && forall k | 0 <= k < |ws| ::
           IsWord(ws[k], NonAlphanumeric) && CapitalizedFrom(ps[k], ws[k]) && AllAlphanumeric(ps[k])
  {
    var ws := Words(name, NonAlphanumeric);
    WordsAreWords(name, NonAlphanumeric);
    forall k | 0 <= k < |ws|
      ensures AllAlphanumeric(CapitalizeAll(ws)[k])
    {
      CapitalizeAlphanumeric(ws[k]);
    }
  }

  lemma CapitalizeAlphanumeric(w: string)
    requires IsWord(w, NonAlphanumeric)
    ensures AllAlphanumeric(Capitalize(w))
  {
    var c := Capitalize(w);
    forall i | 0 <= i < |c|
      ensures IsAlphanumeric(c[i])
    {
      assert !IsSep(NonAlphanumeric, w[i]);
      if i > 0 {
        assert c[i] == AsciiLower(w[1..])[i - 1] == ToAsciiLower(w[i]);
      }
    }
  }

  lemma NormalizeCapitalize(p: string)
    ensures Normalize(Capitalize(p)) == Normalize(p)
  {
    if |p| > 0 {
      var u := ToAsciiUpper(p[0]);
      NormalizeConcat([u], AsciiLower(p[1..]));
      NormalizeLower(p[1..]);
      assert p == [p[0]] + p[1..];
      NormalizeConcat([p[0]], p[1..]);
      assert [u][1..] == [] && [p[0]][1..] == [];
    }
  }

  lemma {:induction false} NormalizeCapitalizeAll(parts: seq<string>)
    ensures Normalize(Concat(CapitalizeAll(parts))) == Normalize(Concat(parts))
    decreases |parts|
  {
    if |parts| > 0 {
      NormalizeCapitalizeAll(parts[1..]);
      assert CapitalizeAll(parts)[1..] == CapitalizeAll(parts[1..]);
      NormalizeConcat(Capitalize(parts[0]), Concat(CapitalizeAll(parts[1..])));
      NormalizeConcat(parts[0], Concat(parts[1..]));
      NormalizeCapitalize(parts[0]);
    }
  }

  lemma {:induction false} NormalizeWords(s: string)
    ensures Normalize(Concat(Words(s, NonAlphanumeric))) == Normalize(s)
    decreases |s|
  {
    var t := SkipSeparators(s, NonAlphanumeric);
    NormalizeSkip(s, NonAlphanumeric);
    if |t| > 0 {
      var w := Word(t, NonAlphanumeric);
      var rest := t[|w|..];
      NormalizeWords(rest);
      assert Words(s, NonAlphanumeric) == [w] + Words(rest, NonAlphanumeric);
      NormalizeWordStep(t, w, rest, Words(rest, NonAlphanumeric));
    }
  }

  lemma NormalizeWordStep(t: string, w: string, rest: string, ws: seq<string>)
    requires |w| <= |t| && w == t[..|w|] && rest == t[|w|..]
    requires Normalize(Concat(ws)) == Normalize(rest)
    ensures Normalize(Concat([w] + ws)) == Normalize(t)
  {
    assert ([w] + ws)[1..] == ws;
    assert t == w + rest;
    NormalizeConcat(w, Concat(ws));
    NormalizeConcat(w, rest);
  }
}
