/**
 * The declaration parser of the `palette!` macro (`ColorDef::parse` and
 * `PaletteDef::parse`), over the token trees the Rust tokenizer hands it.
 * A declaration is `Name { "entry": value, ... }` where a value is a hex
 * string literal or a parenthesised triple of float literals.
 */
module MacroParser {
  import opened Wrappers
  import opened Numeric
  import opened HexBody
  import opened MacroHex

  /**
   * A token tree. `Float` carries the `i32` that `(x * 255.0) as i32` gives
   * for the literal's value x; the float arithmetic itself is not modelled.
   */
  datatype Token =
    | Ident(name: string)
    | Str(value: string)
    | Float(scaled: I32)
    | Colon
    | Comma
    | Paren(inner: seq<Token>)
    | Brace(inner: seq<Token>)

  /** `ColorDef`: a declared name and its four channels. */
  datatype ColorDef = ColorDef(name: string, r8: U8, g8: U8, b8: U8, a8: U8)

  /** `PaletteDef`: the palette's identifier and its entries in declaration order. */
  datatype PaletteDef = PaletteDef(name: string, colors: seq<ColorDef>)

  const MissingSeparator := "Expected comma or end of block."
  const UnexpectedToken := "unexpected token"

  /** A parse error for an absent token: at the end of a group the message says so. */
  function Expected(rest: seq<Token>, what: string): string {
    if |rest| == 0 then "unexpected end of input, expected " + what else "expected " + what
  }

  /** The three float literals inside the parentheses of a triple, each followed by a comma but the last. */
  function ParseTriple(c: seq<Token>): (r: Result<(I32, I32, I32), string>)
    ensures r.Ok? <==> |c| == 5 && c[0].Float? && c[1].Comma? && c[2].Float? && c[3].Comma? && c[4].Float?
    ensures r.Ok? ==> r.value == (c[0].scaled, c[2].scaled, c[4].scaled)
  {
    if |c| == 0 || !c[0].Float? then Err(Expected(c, "floating point literal"))
    else if |c| == 1 || !c[1].Comma? then Err(Expected(c[1..], "`,`"))
    else if |c| == 2 || !c[2].Float? then Err(Expected(c[2..], "floating point literal"))
    else if |c| == 3 || !c[3].Comma? then Err(Expected(c[3..], "`,`"))
    else if |c| == 4 || !c[4].Float? then Err(Expected(c[4..], "floating point literal"))
    else if |c| > 5 then Err(UnexpectedToken)
    else Ok((c[0].scaled, c[2].scaled, c[4].scaled))
  }

  /**
   * `ColorDef::parse`: a string-literal name, a colon, then a hex string
   * literal if the next token is one and a parenthesised float triple
   * otherwise. Every entry is three tokens long.
   */
  function ParseColorDef(ts: seq<Token>): (r: Result<ColorDef, string>)
    ensures r.Ok? ==> |ts| >= 3 && ts[0] == Str(r.value.name) && ts[1] == Colon
    ensures r.Ok? && ts[2].Paren? ==> r.value.a8 == 255
  {
    if |ts| == 0 || !ts[0].Str? then Err(Expected(ts, "string literal"))
    else if |ts| == 1 || !ts[1].Colon? then Err(Expected(ts[1..], "`:`"))
    else if |ts| > 2 && ts[2].Str? then
      match ParseHexColor(ts[2].value)
      case Err(e) => Err(e)
      case Ok(c) => Ok(ColorDef(ts[0].value, c.r, c.g, c.b, c.a))
    else if |ts| == 2 || !ts[2].Paren? then Err(Expected(ts[2..], "parentheses"))
    else
      match ParseTriple(ts[2].inner)
      case Err(e) => Err(e)
      case Ok((r, g, b)) => Ok(ColorDef(ts[0].value, SaturateU8(r), SaturateU8(g), SaturateU8(b), 255))
  }

  /**
   * The entries inside the braces, as the loop of `PaletteDef::parse` reads
   * them: an entry, then a comma or the end of the block.
   */
  function ParseEntries(c: seq<Token>): (r: Result<seq<ColorDef>, string>)
    ensures r.Ok? ==> 4 * |r.value| <= |c| + 1
    ensures r.Ok? && |c| > 0 ==> |r.value| > 0
    decreases |c|
  {
    if |c| == 0 then Ok([])
    else
      match ParseColorDef(c)
      case Err(e) => Err(e)
      case Ok(d) =>
        if |c| == 3 then Ok([d])
        else if !c[3].Comma? then Err(MissingSeparator)
        else Prepend([d], ParseEntries(c[4..]))
  }

  function Prepend(ds: seq<ColorDef>, r: Result<seq<ColorDef>, string>): Result<seq<ColorDef>, string> {
    match r
    case Ok(rest) => Ok(ds + rest)
    case Err(e) => Err(e)
  }

  lemma PrependNothing(r: Result<seq<ColorDef>, string>)
    ensures Prepend([], r) == r
  {
    if r.Ok? {
      assert [] + r.value == r.value;
    }
  }

  lemma PrependTwice(ds: seq<ColorDef>, d: seq<ColorDef>, r: Result<seq<ColorDef>, string>)
    ensures Prepend(ds, Prepend(d, r)) == Prepend(ds + d, r)
  {
    if r.Ok? {
      assert ds + (d + r.value) == ds + d + r.value;
    }
  }

  /** The whole macro input: an identifier, a braced block of entries, and nothing after it. */
  function ParsePalette(input: seq<Token>): (r: Result<PaletteDef, string>)
    ensures r.Ok? ==> |input| == 2 && input[0] == Ident(r.value.name) && input[1].Brace?
  {
    if |input| == 0 || !input[0].Ident? then Err(Expected(input, "identifier"))
    else if |input| == 1 || !input[1].Brace? then Err(Expected(input[1..], "curly braces"))
    else
      match ParseEntries(input[1].inner)
      case Err(e) => Err(e)
      case Ok(ds) => if |input| > 2 then Err(UnexpectedToken) else Ok(PaletteDef(input[0].name, ds))
  }

  /**
   * `PaletteDef::parse` followed by syn's check that nothing is left: the
   * loop that parses an entry, pushes it onto `colors` and moves past an
   * optional comma while the block is not empty.
   */
  method ParsePaletteDef(input: seq<Token>) returns (r: Result<PaletteDef, string>)
    ensures r == ParsePalette(input)
  {
    if |input| == 0 || !input[0].Ident? {
      return Err(Expected(input, "identifier"));
    }
    if |input| == 1 || !input[1].Brace? {
      return Err(Expected(input[1..], "curly braces"));
    }
    var content := input[1].inner;
    var colors: seq<ColorDef> := [];
    var pos := 0;
    assert content[pos..] == content;
    PrependNothing(ParseEntries(content));
    while pos < |content|
      invariant 0 <= pos <= |content|
      invariant ParseEntries(content) == Prepend(colors, ParseEntries(content[pos..]))
      decreases |content| - pos
    {
      var parsed := ParseColorDef(content[pos..]);
      if parsed.Err? {
        return Err(parsed.error);
      }
      ghost var before := content[pos..];
      ghost var prev := colors;
      var d := parsed.value;
      colors := colors + [d];
      pos := pos + 3;
      if pos < |content| && content[pos].Comma? {
        pos := pos + 1;
        assert before[3].Comma? && before[4..] == content[pos..];
        PrependTwice(prev, [d], ParseEntries(content[pos..]));
      } else if pos < |content| {
        assert before[3] == content[pos];
        return Err(MissingSeparator);
      } else {
        assert |before| == 3 && content[pos..] == [];
        assert [d] + [] == [d];
        PrependTwice(prev, [d], Ok([]));
      }
    }
    assert colors + [] == colors;
    if |input| > 2 {
      return Err(UnexpectedToken);
    }
    return Ok(PaletteDef(input[0].name, colors));
  }

  /** An entry as written in a declaration. */
  datatype EntrySyntax =
    | HexEntry(name: string, literal: string)
    | TripleEntry(name: string, r: I32, g: I32, b: I32)

  function EntryTokens(e: EntrySyntax): seq<Token> {
    match e
    case HexEntry(n, lit) => [Str(n), Colon, Str(lit)]
    case TripleEntry(n, r, g, b) => [Str(n), Colon, Paren([Float(r), Comma, Float(g), Comma, Float(b)])]
  }

  /** Entries separated by commas, with an optional comma after the last. */
  function Declaration(es: seq<EntrySyntax>, trailingComma: bool): seq<Token>
    decreases |es|
  {
    if |es| == 0 then []
    else if |es| == 1 then EntryTokens(es[0]) + (if trailingComma then [Comma] else [])
    else EntryTokens(es[0]) + [Comma] + Declaration(es[1..], trailingComma)
  }

  /** An entry whose hex literal (if it has one) decodes. */
  predicate ValidEntry(e: EntrySyntax) {
    e.HexEntry? ==> ParseHexColor(e.literal).Ok?
  }

  /** The definition an entry stands for: its decoded hex, or its saturated triple made opaque. */
  function Meaning(e: EntrySyntax): ColorDef
    requires ValidEntry(e)
  {
    match e
    case HexEntry(n, lit) =>
      var c := ParseHexColor(lit).value;
      ColorDef(n, c.r, c.g, c.b, c.a)
    case TripleEntry(n, r, g, b) => ColorDef(n, SaturateU8(r), SaturateU8(g), SaturateU8(b), 255)
  }

  function Meanings(es: seq<EntrySyntax>): (ds: seq<ColorDef>)
    requires forall i | 0 <= i < |es| :: ValidEntry(es[i])
    ensures |ds| == |es| && forall i | 0 <= i < |es| :: ds[i] == Meaning(es[i])
  {
    seq(|es|, i requires 0 <= i < |es| => Meaning(es[i]))
  }

  lemma EntryParses(e: EntrySyntax, rest: seq<Token>)
    requires ValidEntry(e)
    ensures ParseColorDef(EntryTokens(e) + rest) == Ok(Meaning(e))
  {
    var ts := EntryTokens(e) + rest;
    assert ts[0] == EntryTokens(e)[0] && ts[1] == Colon && ts[2] == EntryTokens(e)[2];
  }

  /** One step of the entry loop: an entry followed by a comma and more tokens. */
  lemma EntriesStep(c: seq<Token>)
    requires |c| > 4 && ParseColorDef(c).Ok? && c[3] == Comma
    ensures ParseEntries(c) == Prepend([ParseColorDef(c).value], ParseEntries(c[4..]))
  {
  }

  /** The last step of the entry loop: an entry alone, or followed only by a comma. */
  lemma EntriesLast(c: seq<Token>)
    requires ParseColorDef(c).Ok? && (|c| == 3 || (|c| == 4 && c[3] == Comma))
    ensures ParseEntries(c) == Ok([ParseColorDef(c).value])
  {
    if |c| == 4 {
      assert c[4..] == [];
      assert [ParseColorDef(c).value] + [] == [ParseColorDef(c).value];
    }
  }

  /**
   * A declaration of valid entries parses to one definition per entry, in
   * declaration order, with or without the trailing comma; the empty block
   * gives no entries.
   */
  lemma {:induction false} DeclarationParses(es: seq<EntrySyntax>, trailingComma: bool)
    requires forall i | 0 <= i < |es| :: ValidEntry(es[i])
    ensures ParseEntries(Declaration(es, trailingComma)) == Ok(Meanings(es))
    decreases |es|
  {
    if |es| == 1 {
      SingleEntryParses(es, trailingComma);
    } else if |es| > 1 {
      DeclarationParses(es[1..], trailingComma);
      LongerDeclarationParses(es, trailingComma);
    }
  }

  /** A declaration of one valid entry, with or without the trailing comma. */
  lemma SingleEntryParses(es: seq<EntrySyntax>, trailingComma: bool)
    requires |es| == 1 && ValidEntry(es[0])
    ensures ParseEntries(Declaration(es, trailingComma)) == Ok(Meanings(es))
  {
    var c := Declaration(es, trailingComma);
    EntryParses(es[0], if trailingComma then [Comma] else []);
    EntriesLast(c);
    assert Meanings(es) == [Meaning(es[0])];
  }

  /** A declaration of two or more valid entries parses when the one after its first entry does. */
  lemma LongerDeclarationParses(es: seq<EntrySyntax>, trailingComma: bool)
    requires |es| > 1 && forall i | 0 <= i < |es| :: ValidEntry(es[i])
    requires ParseEntries(Declaration(es[1..], trailingComma)) == Ok(Meanings(es[1..]))
    ensures ParseEntries(Declaration(es, trailingComma)) == Ok(Meanings(es))
  {
    var tail := Declaration(es[1..], trailingComma);
    assert es == [es[0]] + es[1..];
    DeclarationCons(es[0], es[1..], trailingComma);
    MeaningsCons(es[0], es[1..]);
    EntryThenMore(Declaration(es, trailingComma), es[0], tail, Meanings(es[1..]));
  }

  /** An entry, a comma and a block that parses. */
  lemma EntryThenMore(c: seq<Token>, e: EntrySyntax, tail: seq<Token>, ms: seq<ColorDef>)
    requires ValidEntry(e) && ParseEntries(tail) == Ok(ms) && |tail| > 0
    requires c == EntryTokens(e) + [Comma] + tail
    ensures ParseEntries(c) == Ok([Meaning(e)] + ms)
  {
    assert c == EntryTokens(e) + ([Comma] + tail);
    EntryParses(e, [Comma] + tail);
    assert c[4..] == tail;
    EntriesStep(c);
  }

  /** The same for a whole macro input. */
  lemma PaletteParses(name: string, es: seq<EntrySyntax>, trailingComma: bool)
    requires forall i | 0 <= i < |es| :: ValidEntry(es[i])
    ensures ParsePalette([Ident(name), Brace(Declaration(es, trailingComma))]) == Ok(PaletteDef(name, Meanings(es)))
  {
    DeclarationParses(es, trailingComma);
  }

  /** Two entries without a comma between them are refused with "Expected comma or end of block.". */
  lemma MissingComma(e1: EntrySyntax, e2: EntrySyntax, rest: seq<Token>)
    requires ValidEntry(e1)
    ensures ParseEntries(EntryTokens(e1) + EntryTokens(e2) + rest) == Err(MissingSeparator)
  {
    var c := EntryTokens(e1) + EntryTokens(e2) + rest;
    assert c == EntryTokens(e1) + (EntryTokens(e2) + rest);
    EntryParses(e1, EntryTokens(e2) + rest);
    assert c[3] == Str(e2.name);
  }

  /**
   * Conversely, every block `PaletteDef::parse` accepts is a declaration:
   * entries of three tokens each, separated by commas, with an optional
   * trailing comma; its definitions are those entries' meanings.
   */
  lemma OnlyDeclarationsParse(c: seq<Token>)
    requires ParseEntries(c).Ok?
    ensures exists es: seq<EntrySyntax>, tc: bool ::
      (forall i | 0 <= i < |es| :: ValidEntry(es[i])) && c == Declaration(es, tc)
      && ParseEntries(c).value == Meanings(es)
  {
    var es, tc := EntriesOf(c);
  }

  /** The entries an accepted block is made of. */
  lemma {:induction false} EntriesOf(c: seq<Token>) returns (es: seq<EntrySyntax>, tc: bool)
    requires ParseEntries(c).Ok?
    ensures forall i | 0 <= i < |es| :: ValidEntry(es[i])
    ensures c == Declaration(es, tc) && ParseEntries(c).value == Meanings(es)
    ensures |c| > 0 ==> |es| > 0
    decreases |c|
  {
    if |c| == 0 {
      es, tc := [], false;
      assert Meanings(es) == [];
    } else if |c| == 3 || |c| == 4 {
      var e := EntryOf(c);
      EntriesLast(c);
      es, tc := [e], |c| == 4;
      assert c == c[..3] + (if tc then [Comma] else []);
      assert Meanings([e]) == [Meaning(e)];
    } else {
      EntriesStep(c);
      var rest, t := EntriesOf(c[4..]);
      es, tc := [EntryOf(c)] + rest, t;
      EntriesCons(c, rest, t);
    }
  }

  /** One more entry and its comma in front of the entries of the rest. */
  lemma EntriesCons(c: seq<Token>, rest: seq<EntrySyntax>, tc: bool)
    requires |c| > 4 && ParseColorDef(c).Ok? && c[3] == Comma
    requires ParseEntries(c) == Prepend([ParseColorDef(c).value], ParseEntries(c[4..]))
    requires forall i | 0 <= i < |rest| :: ValidEntry(rest[i])
    requires c[4..] == Declaration(rest, tc) && ParseEntries(c[4..]) == Ok(Meanings(rest)) && |rest| > 0
    ensures forall i | 0 <= i < |[EntryOf(c)] + rest| :: ValidEntry(([EntryOf(c)] + rest)[i])
    ensures c == Declaration([EntryOf(c)] + rest, tc)
    ensures ParseEntries(c) == Ok(Meanings([EntryOf(c)] + rest))
  {
    var e := EntryOf(c);
    DeclarationCons(e, rest, tc);
    MeaningsCons(e, rest);
    assert c == c[..3] + [Comma] + c[4..];
  }

  lemma DeclarationCons(e: EntrySyntax, es: seq<EntrySyntax>, tc: bool)
    requires |es| > 0
    ensures Declaration([e] + es, tc) == EntryTokens(e) + [Comma] + Declaration(es, tc)
  {
    assert ([e] + es)[1..] == es;
  }

  lemma MeaningsCons(e: EntrySyntax, es: seq<EntrySyntax>)
    requires ValidEntry(e) && forall i | 0 <= i < |es| :: ValidEntry(es[i])
    ensures forall i | 0 <= i < |[e] + es| :: ValidEntry(([e] + es)[i])
    ensures Meanings([e] + es) == [Meaning(e)] + Meanings(es)
  {
  }

  /** The entry the first three tokens of an accepted block spell. */
  function EntryOf(c: seq<Token>): (e: EntrySyntax)
    requires ParseColorDef(c).Ok?
    ensures ValidEntry(e) && c[..3] == EntryTokens(e) && Meaning(e) == ParseColorDef(c).value
  {
    if c[2].Str? then HexEntry(c[0].value, c[2].value)
    else
      var t := ParseTriple(c[2].inner).value;
      assert c[2].inner == [Float(t.0), Comma, Float(t.1), Comma, Float(t.2)];
      TripleEntry(c[0].value, t.0, t.1, t.2)
  }

  /** Saturation of the float form, both ways: (1.5, -1.0, 0.5) scales to (382, -255, 127) and gives (255, 0, 127, 255). */
  lemma TripleSaturates()
    ensures Meaning(TripleEntry("c", 382, -255, 127)) == ColorDef("c", 255, 0, 127, 255)
  {
  }
}
