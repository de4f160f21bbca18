# bevy-color-palettes, modelled in Dafny

This project models the core of `bevy-color-palettes`, which has three parts:

- the `palette!` procedural macro. It parses a palette declaration such as
  `Name { "red": "#ff0000", "sky": (0.2, 0.4, 0.9) }`, decodes HTML hex colours
  and saturating float triples, and derives an `UPPER_SNAKE_CASE` constant and a
  `lower_snake_case` accessor from each colour name. It also generates a
  palette type with `all()`, `len()`, `iter()`, `IntoIterator` and a
  name-insensitive `get()`;
- the runtime `Color` value: `Color::new`, its alpha and intensity setters, and
  `Color::try_parse`, which reads `#rrggbbaa`-style text with an optional
  `+iiii` intensity suffix;
- the Python GIMP-palette importer. It reads `.gpl` lines, keeps the colour
  entries, names them in snake case, formats them as `#rrggbbaa` and drops
  duplicates. It also derives PascalCase palette names from file stems.

Modules, one per file:

- `Wrappers` (wrappers.dfy): `Option` and `Result`.
- `Numeric` (numeric.dfy): the fixed-width integer types; `from_str_radix(_, 16)`
  for `u8` and `u16`, with Rust's error kinds and its acceptance of a leading
  `+`; two- and four-digit hex formatting; the saturating `u8` conversion used
  for triples.
- `HexBody` (hex_body.dfy): the length dispatch (8, 6, 4 or 3 digits) that
  `parse_hex_color` and `Color::try_parse` share, and the errors it reports.
- `MacroHex` (macro_hex.dfy): `parse_hex_color` with its exact error messages.
- `ColorValue` (color.dfy): the `Color` struct, its setters and `try_parse`.
- `MacroNames` (macro_names.dfy): `to_upper_snake_case`, `to_lower_snake_case`
  and `normalize_color_name`. Both case conversions are the source's
  character-by-character loops.
- `MacroParser` (macro_parser.dfy): `ColorDef::parse` and `PaletteDef::parse`
  over an abstract token stream, plus a grammar of well-formed declarations.
- `MacroPalette` (macro_palette.dfy): the expansion loop of `palette()` and the
  observable behaviour of the generated items.
- `GplImporter` (importer.dfy): `parse_gpl`, `snake_case`, `pascal_case` and
  `rgba_to_hex`. The duplicate-dropping loop is a method proved against a fold.

Modelling conventions:

- Strings are `seq<char>` read as ASCII, one character per byte.
- A float literal of a colour triple is a token carrying the `i32` that
  `(x * 255.0) as i32` produces.
- The fallible Rust calls return `Result`; every error path is modelled with its
  message text.
- `with_intensity_f32_experimental` (src/color.rs:130-143) keeps a scaled
  intensity in `0..=65280` as given, maps negative values to 0 and maps
  anything above 65280 back to the neutral 256.

## Model

| member | source | states |
|---|---|---|
| Numeric.FromStrRadix16 | src/color.rs:45-100 | parsing hex text into a value below the type's bound returns a value below that bound; the error is `Empty` exactly for empty text |
| Numeric.Accumulate | src/color.rs:45-57 | the digit loop of `from_str_radix` yields a value no smaller than its start and below the type's bound, and never reports `Empty` |
| Numeric.ParseU8 | src/color.rs:45-100 | `u8::from_str_radix(_, 16)` fails exactly when the unbounded radix-16 reading fails with bound 256 |
| Numeric.ParseU16 | src/color.rs:37-39 | `u16::from_str_radix(_, 16)` fails exactly when the unbounded radix-16 reading fails with bound 65536 |
| Numeric.ParseU8OfTwo | macros/src/lib.rs:122-141 | a two-character group parses as a `u8` exactly when it is two hex digits or `+` and one digit; its value is then 16·high + low; every refusal of such a group is `InvalidDigit` |
| Numeric.AccumulateOne | src/color.rs:45-100 | one radix-16 step refuses a non-digit, reports positive overflow at the bound, and otherwise shifts the digit in |
| Numeric.ParseU16OfFour | src/color.rs:37-39 | a four-character intensity suffix parses exactly when it is four hex digits or `+` and three; its value is then the positional sum |
| Numeric.Hex2 | importer.py:19-20 | the two-digit lowercase hex of a byte is a valid byte text whose value is that byte |
| Numeric.Hex4 | src/color.rs:35-41 | the four-digit hex of a `u16` reads back as that value |
| Numeric.SaturateU8 | macros/src/lib.rs:64-111 | the `i32`-to-`u8` conversion of a triple component clamps to 0..255 and keeps in-range values |
| HexBody.FormOf | macros/src/lib.rs:121-167 | only body lengths 8, 6, 4 and 3 select a layout, each that length's own |
| HexBody.DecodeBody | macros/src/lib.rs:121-167 | refuses a body as badly sized exactly when its length is not 8, 6, 4 or 3; the 6- and 3-digit forms are opaque |
| HexBody.DecodeLong | macros/src/lib.rs:122-141 | an 8- or 6-digit body is accepted exactly when every two-character group is a byte text; the channels are those groups' values, and alpha is 255 in the 6-digit form |
| HexBody.LongReads | src/color.rs:44-72 | a long body decodes exactly when each group is accepted by `u8::from_str_radix`, with those values as channels |
| HexBody.DecodeShort | macros/src/lib.rs:142-161 | a 4- or 3-digit body is accepted exactly when every character is a hex digit; each channel is the digit doubled (17·d), and alpha is 255 in the 3-digit form |
| HexBody.DoubledDigit | macros/src/lib.rs:142-161 | a digit repeated twice parses exactly when it is a hex digit, with value 17·d |
| HexBody.DecodeRoundTrip | macros/src/lib.rs:122-141 | the zero-padded hex of any four bytes decodes back to them; the 6-digit form yields the same colour made opaque |
| MacroHex.ParseHexColor | macros/src/lib.rs:116-171 | text without `#` gets the missing-hash error; a wrong body length gets the length error; otherwise the result is accepted exactly when the body decodes, and its channels are the decoded ones |
| MacroHex.ParseHexColorChannels | macros/src/lib.rs:116-171 | an accepted string has 9, 7, 5 or 4 characters; it is opaque in the 6- and 3-digit forms; the short forms' channels are 17 times their digits |
| MacroHex.ParseHexColorRoundTrip | macros/src/lib.rs:116-171 | `#` plus the canonical 8- or 6-digit body of any colour parses back to that colour, made opaque in the 6-digit case |
| MacroHex.ParseHexColorRed8 | macros/src/lib.rs:122-132 | `"#ff0000ff"` is opaque red |
| MacroHex.ParseHexColorRed3 | macros/src/lib.rs:153-161 | `"#f00"` is opaque red |
| MacroHex.ParseHexColorBadDigit | macros/src/lib.rs:153-161 | `"#xyz"` is refused with the message `#Rgb R was invalid.` |
| MacroHex.ParseHexColorNoIntensity | macros/src/lib.rs:162-167 | the macro does not accept an intensity suffix: `"#ff0000+0100"` gets the length error |
| ColorValue.New | src/color.rs:15-23 | a new colour has the given channels and the neutral intensity 256 |
| ColorValue.HasIntensitySuffix | src/color.rs:36 | a body shorter than five characters never has a suffix (the release-build reading of the wrapped index); a body with a suffix is a prefix, `+` and four characters |
| ColorValue.WithIntensityU16 | src/color.rs:146-154 | sets the intensity to the given value and changes nothing else |
| ColorValue.WithAlphaU8 | src/color.rs:125-127 | replaces alpha and resets the intensity to neutral, keeping the channels |
| ColorValue.WithAlphaF32 | src/color.rs:109-122 | alpha is the scaled value clamped to 0..255; intensity resets to neutral; the colour channels are kept |
| ColorValue.ClampIntensity | src/color.rs:130-143 | negative maps to 0, values up to 65280 are kept, larger values map to the neutral 256 |
| ColorValue.WithIntensityF32 | src/color.rs:130-143 | the new intensity is the clamped scaled value; everything else is kept |
| ColorValue.DecodeWith | src/color.rs:43-105 | a body with a given intensity decodes exactly when its channels decode, and the result carries that intensity |
| ColorValue.TryParse | src/color.rs:28-106 | text without `#` is refused with its message; without an intensity suffix the result has the neutral intensity |
| ColorValue.TryParseAgreesWithMacro | src/color.rs:28-106 | without an intensity suffix, `try_parse` accepts exactly what the macro's decoder accepts, with the same channels and the neutral intensity |
| ColorValue.TryParseIntensity | src/color.rs:35-41 | with a `+` fifth from the end, a bad four-digit suffix is refused; a good one sets the intensity of the colour the shortened text parses to |
| ColorValue.Format | src/color.rs:28-33 | the canonical text of a colour starts with `#` |
| ColorValue.TryParseFormat | src/color.rs:28-106 | round trip: `try_parse` reads the canonical text of any colour (8 digits, plus `+iiii` when the intensity is not neutral) back to that exact colour |
| ColorValue.FormatNeutral | src/color.rs:28-106 | the round trip for colours of neutral intensity |
| ColorValue.FormatWithIntensity | src/color.rs:35-41 | the round trip for colours with an intensity suffix |
| ColorValue.PlainText | src/color.rs:35-43 | an 8-digit body without a suffix is decoded with the neutral intensity |
| ColorValue.SuffixedText | src/color.rs:35-41 | a body followed by `+` and four valid hex digits is decoded with that intensity |
| ColorValue.DecodeWithChannels | src/color.rs:43-105 | decoding a colour's own 8-digit body with its own intensity gives that colour back |
| ColorValue.TryParseBody8 | src/color.rs:44-55 | `#` plus the 8-digit body of four bytes parses to `Color::new` of those bytes |
| ColorValue.TryParseDebug | src/color.rs:35-36 | in a debug build, `try_parse` panics exactly on `#` followed by fewer than five characters; otherwise it returns what the release build returns |
| ColorValue.ShortFormUnderflow | src/color.rs:36 | `"#f00"` panics in a debug build, although the 3-digit form decodes it to opaque red |
| ColorValue.IntensityInEquality | src/color.rs:4-11 | two colours with the same channels are equal only if their intensities are equal as well |
| MacroNames.ToAsciiUpper | macros/src/lib.rs:207 | an uppercased character is never lowercase, and stays alphanumeric exactly when the original is |
| MacroNames.ToAsciiLower | macros/src/lib.rs:220 | a lowercased character is never uppercase, stays alphanumeric exactly when the original is, and lowercasing after uppercasing gives the lowercase character |
| MacroNames.AsciiUpper | macros/src/lib.rs:201-210 | uppercasing a string maps each character and keeps the length |
| MacroNames.AsciiLower | macros/src/lib.rs:420-425 | lowercasing a string maps each character and keeps the length |
| MacroNames.ToUpperSnakeCase | macros/src/lib.rs:201-210 | the loop builds `UpperSnake`: each character uppercased, with `_` before an uppercase character whose predecessor is not uppercase |
| MacroNames.ToLowerSnakeCase | macros/src/lib.rs:213-226 | the loop builds `LowerSnake`: uppercase characters lowercased and given the same `_` before them, others kept |
| MacroNames.UpperSnake | macros/src/lib.rs:201-210 | the constant name has the declared name's lookup key, and is the ASCII uppercasing of the accessor name |
| MacroNames.LowerSnake | macros/src/lib.rs:213-226 | the accessor name has the declared name's lookup key |
| MacroNames.Normalize | macros/src/lib.rs:420-425 | a lookup key is no longer than its name and holds only lowercase letters and digits |
| MacroNames.NormalizeConcat | macros/src/lib.rs:420-425 | normalising distributes over concatenation |
| MacroNames.NormalizeIdempotent | macros/src/lib.rs:420-425 | normalising a key again changes nothing |
| MacroNames.NormalizeKeepsKeys | macros/src/lib.rs:420-425 | text of lowercase letters and digits is its own key |
| MacroNames.NormalizeIgnoresCase | macros/src/lib.rs:420-425 | an uppercased name has the same key as the name |
| MacroNames.PieceKeys | macros/src/lib.rs:201-226 | each character's contribution to either snake case has the key of that character |
| MacroNames.SnakeCaseKeys | macros/src/lib.rs:201-226 | every prefix of either snake case has the same key as the same prefix of the name, so `get` finds a colour under its declared, constant and accessor spellings |
| MacroNames.UpperIsUppercasedLower | macros/src/lib.rs:201-226 | the upper snake case is the uppercased lower snake case, on every prefix |
| MacroNames.AsciiUpperConcat | macros/src/lib.rs:207 | uppercasing distributes over concatenation |
| MacroNames.UpperSnakeCustomColor | tests/palettes.rs:13-31 | `customColor` gives the constant `CUSTOM_COLOR` |
| MacroNames.LowerSnakeCustomColor | tests/palettes.rs:13-31 | `customColor` gives the accessor `custom_color` |
| MacroNames.UpperSnakeCapitalRun | macros/src/lib.rs:204 | an uppercase run gets no inner underscore: `HTMLColor` gives `HTMLCOLOR` |
| MacroParser.ParseTriple | macros/src/lib.rs:64-111 | a parenthesised group is a triple exactly when it is three float literals separated by two commas, and yields their scaled values in order |
| MacroParser.ParseColorDef | macros/src/lib.rs:43-114 | an accepted entry starts with its name's string literal and a colon; a triple entry is opaque |
| MacroParser.ParseEntries | macros/src/lib.rs:184-194 | an accepted block has at most one entry per four tokens (plus a trailing one), and a non-empty accepted block has at least one entry |
| MacroParser.ParsePalette | macros/src/lib.rs:174-198 | an accepted input is exactly an identifier, which names the palette, and one braced block |
| MacroParser.PrependNothing | macros/src/lib.rs:185-194 | prepending no entries leaves a parse result unchanged |
| MacroParser.PrependTwice | macros/src/lib.rs:185-194 | prepending in two steps equals prepending the concatenation |
| MacroParser.ParsePaletteDef | macros/src/lib.rs:174-198 | the entry loop computes `ParsePalette`, which the lemmas below characterise |
| MacroParser.Meanings | macros/src/lib.rs:43-114 | the meaning of a list of entries is the meaning of each, in order |
| MacroParser.EntryParses | macros/src/lib.rs:43-114 | every well-formed entry parses to its meaning (hex colour decoded, triple saturated, opaque), whatever follows it |
| MacroParser.EntriesStep | macros/src/lib.rs:185-194 | an entry followed by a comma and more tokens contributes its definition ahead of the rest |
| MacroParser.EntriesLast | macros/src/lib.rs:185-194 | a last entry, with or without a trailing comma, is the whole list |
| MacroParser.DeclarationParses | macros/src/lib.rs:185-194 | any comma-separated list of well-formed entries, with or without a trailing comma, parses to their meanings in order |
| MacroParser.SingleEntryParses | macros/src/lib.rs:185-194 | a block of one well-formed entry, with or without a trailing comma, parses to that entry's meaning |
| MacroParser.LongerDeclarationParses | macros/src/lib.rs:185-194 | a block of two or more well-formed entries parses to their meanings when the block after its first entry does |
| MacroParser.EntryThenMore | macros/src/lib.rs:185-194 | an entry, a comma and a parsable remainder parse to the entry's meaning followed by the remainder's |
| MacroParser.PaletteParses | macros/src/lib.rs:174-198 | an identifier followed by a braced well-formed list parses to the palette of that name and those meanings |
| MacroParser.MissingComma | macros/src/lib.rs:191-193 | two entries without a comma are refused with `Expected comma or end of block.` |
| MacroParser.OnlyDeclarationsParse | macros/src/lib.rs:185-194 | conversely, every token list the loop accepts is a well-formed declaration, and the result is its meanings |
| MacroParser.EntriesOf | macros/src/lib.rs:185-194 | builds, for an accepted token list, the entries it is made of and whether it ends in a comma |
| MacroParser.EntriesCons | macros/src/lib.rs:185-194 | an accepted entry in front of a decomposed remainder extends that decomposition |
| MacroParser.DeclarationCons | macros/src/lib.rs:185-194 | a declaration of two or more entries is the first entry, a comma and the rest |
| MacroParser.MeaningsCons | macros/src/lib.rs:185-194 | the meaning of a list is its head's meaning followed by its tail's |
| MacroParser.EntryOf | macros/src/lib.rs:43-114 | the well-formed entry an accepted parse came from: its tokens are the parsed prefix, and its meaning is the result |
| MacroParser.TripleSaturates | macros/src/lib.rs:64-111 | the triple (382, -255, 127) saturates to the colour (255, 0, 127, 255); the general clamp is `Numeric.SaturateU8` |
| MacroPalette.Expansion | macros/src/lib.rs:282-339 | the generated type has the palette's name and one item per entry, in order |
| MacroPalette.Expand | macros/src/lib.rs:282-339 | the loop emits, for each entry, its key, constant, accessor and `Color::new` value, in declaration order |
| MacroPalette.ItemOf | macros/src/lib.rs:282-311 | an entry's `get` key, constant name and accessor name share the declared name's key; the constant is the uppercased accessor; the value has the entry's channels and neutral intensity |
| MacroPalette.All | macros/src/lib.rs:373-375 | `all()` lists the constants' values in declaration order |
| MacroPalette.Len | macros/src/lib.rs:377-380 | `len()` is the entry count and the length of `all()` |
| MacroPalette.Iter | macros/src/lib.rs:382-413 | `iter()` and both `into_iter()` yield `len()` colours, the entries' colours in declaration order |
| MacroPalette.Const | macros/src/lib.rs:309-312 | a constant exists exactly when some entry declares that identifier |
| MacroPalette.Accessor | macros/src/lib.rs:315-320 | an accessor exists exactly when some entry declares that identifier as its accessor |
| MacroPalette.Lookup | macros/src/lib.rs:390-393 | the match finds nothing exactly when no arm has the key; a hit is the colour of an arm with that key |
| MacroPalette.Get | macros/src/lib.rs:387-394 | `get(q)` is `None` exactly when no entry's key is `q`'s key; a hit is the colour of an entry with that key |
| MacroPalette.LookupFirst | macros/src/lib.rs:388-394 | the match finds nothing exactly when no key matches, and otherwise the value of the first matching arm |
| MacroPalette.GetFirst | macros/src/lib.rs:388-394 | `get(q)` finds nothing exactly when no entry's key is `q`'s key, and otherwise the first such entry's constant |
| MacroPalette.GetByDerivedNames | macros/src/lib.rs:282-394 | every entry is found under its declared name, its constant's name and its accessor's name, and all three give the same colour |
| MacroPalette.GetDeclared | macros/src/lib.rs:282-394 | when no earlier entry has the same key, `get` of an entry's name returns that entry's colour |
| MacroPalette.ExpandedSequence | macros/src/lib.rs:373-413 | `len()`, `all()`, `iter()` and both `into_iter()` agree: one neutral-intensity colour per entry, in declaration order |
| MacroPalette.AccessorReturnsConst | macros/src/lib.rs:315-320 | in a palette that compiles, each accessor returns its own entry's constant |
| MacroPalette.AccessorAt | macros/src/lib.rs:315-320 | with pairwise different identifiers, the lookup of any entry's accessor or constant yields that entry's colour |
| MacroPalette.EmptyPalette | macros/src/lib.rs:174-198 | an empty declaration parses and expands to a palette of length 0 in which `get` finds nothing |
| MacroPalette.TestPaletteParses | tests/palettes.rs:4-9 | the test crate's declaration parses to its four entries |
| MacroPalette.CustomColorSpellings | tests/palettes.rs:102-129 | a palette declaring `customColor` answers `custom_color` and `CUSTOM_COLOR` with that same colour |
| MacroPalette.InitialMisses | macros/src/lib.rs:388-394 | a query whose key starts with a letter no entry's name starts with finds nothing |
| MacroPalette.KeyInitial | macros/src/lib.rs:420-425 | a name beginning with a lowercase letter has a key beginning with that letter |
| MacroPalette.TestShapedHits | tests/palettes.rs:102-129 | in any palette shaped like the test palette, the three spellings of `customColor` find grey (127, 127, 127) |
| MacroPalette.TestPaletteHits | tests/palettes.rs:102-129 | the test palette has length 4 and finds `customColor` under all three spellings |
| MacroPalette.TestPaletteMiss | tests/palettes.rs:102-129 | `get("nonexistent")` on the test palette is `None` |
| GplImporter.Word | importer.py:41 | a word taken at a non-separator is not empty |
| GplImporter.WordsAreWords | importer.py:41 | `str.split()` yields only non-empty words without separators |
| GplImporter.WordAt | importer.py:41 | the word at any position of `str.split()` is non-empty and holds no separator |
| GplImporter.TrimEnd | importer.py:28 | trailing whitespace is removed and nothing else |
| GplImporter.Strip | importer.py:28 | `str.strip()` leaves no whitespace at either end |
| GplImporter.WordsLength | importer.py:41 | `str.split()` and the part filter of `re.split` give no more parts than the text has characters |
| GplImporter.NoWords | importer.py:41-43 | a text has no words exactly when every character is a separator |
| GplImporter.WordsCons | importer.py:41 | past the leading separators, the words are the first maximal run of non-separators followed by the words of the rest |
| GplImporter.PyInt | importer.py:45-57 | `int()` of empty text fails |
| GplImporter.HexDigits | importer.py:19-20 | the hex digits of a number are lowercase, and at least two for values of 16 and above, three for 256 and above |
| GplImporter.Format02x | importer.py:19-20 | `format(n, "02x")` is at least two characters, starts with `-` exactly for negative numbers, and has a hex digit second |
| GplImporter.RgbaToHex | importer.py:19-20 | the formatted colour starts with `#` and has at least nine characters |
| GplImporter.TrimEndUnderscores | importer.py:16 | trailing underscores are all removed, and only they |
| GplImporter.SubRuns | importer.py:15 | `re.sub("[^a-z0-9]+", "_", …)` never lengthens the text |
| GplImporter.StripUnderscores | importer.py:16 | `strip("_")` never lengthens the text and leaves no `_` at either end |
| GplImporter.SnakeCase | importer.py:13-16 | a snake-case name is never longer than the name and neither starts nor ends with `_` |
| GplImporter.Capitalize | importer.py:10 | `str.capitalize()` keeps the length and the letters up to case; the first character is not lowercase and every other character is not uppercase |
| GplImporter.CapitalizeAll | importer.py:10 | every part is capitalised, in order |
| GplImporter.PascalCase | importer.py:8-10 | a PascalCase palette name holds only letters and digits, and has the same lookup key as the file stem it came from |
| GplImporter.PascalCaseParts | importer.py:8-10 | `pascal_case` joins, in order, one part per alphanumeric run of the name; each part is that run capitalised (first character not lowercase, the rest not uppercase, the same letters up to case) and holds only letters and digits |
| GplImporter.EntryName | importer.py:62-68 | a colour's name never equals its hex code with or without alpha; `untitled` and hex-like names get the `color_` prefix, other names are kept |
| GplImporter.ClassifyLine | importer.py:28-69 | an accepted line yields a hex code of at least nine characters that starts with `#` |
| GplImporter.ClassifyFields | importer.py:45-69 | the entry built from a line's fields has a hex code of at least nine characters starting with `#` |
| GplImporter.AlphaField | importer.py:52-60 | the name starts at the fourth or at the fifth field, never elsewhere |
| GplImporter.ClassifiedEntry | importer.py:28-69 | any line yields an entry only when, stripped, it is non-empty, not a comment, holds no `:` and has at least four words; the hex code is `rgba_to_hex` of its numbers with an alpha in 0..255, and the name differs from the code |
| GplImporter.SkipRules | importer.py:28-50 | a line yields an entry exactly when, stripped, it is non-empty, not a comment, holds no `:`, is not `gimp palette` in any case, has at least four fields, and its first three fields are integers |
| GplImporter.LineFields | importer.py:28-43 | a line not skipped for its shape is classified by its white-space separated fields alone |
| GplImporter.AlphaHeuristic | importer.py:52-69 | for such a line, a fourth field that is an integer in 0..255 becomes the alpha and the name is taken from the fifth field on; otherwise the alpha is 255 and the name is taken from the fourth field on |
| GplImporter.FieldsHeuristic | importer.py:52-69 | the alpha heuristic stated on the fields: an in-range integer fourth field is the alpha and the name follows it; otherwise alpha 255 and the name from the fourth field |
| GplImporter.Step | importer.py:69-71 | one line's outcome extends the entries so far by at most one, keeping them as a prefix |
| GplImporter.StepMembers | importer.py:70-71 | after one line an entry is present exactly when it was before or the line yields it |
| GplImporter.GatherLength | importer.py:69-71 | the fold over the line outcomes keeps at most one entry per line |
| GplImporter.Outcomes | importer.py:27-69 | each line is classified on its own |
| GplImporter.GatherSnoc | importer.py:69-71 | gathering one more line is one more step of the fold |
| GplImporter.AddEntry | importer.py:70-71 | appends an entry unless it is already present |
| GplImporter.ParseGpl | importer.py:23-73 | the kept entries are the fold over the lines; no entry appears twice; an entry is kept exactly when some line yields it |
| GplImporter.Format02xByte | importer.py:19-20 | for a byte, `02x` formatting is the two-digit hex of the byte |
| GplImporter.ImportedHexDecodes | importer.py:19-20 | the importer's hex code for byte channels is parsed by `palette!` and by `Color::try_parse` back to those channels |
| GplImporter.ImportedHexIsBody8 | importer.py:19-20 | the importer's hex code for byte channels is `#` and the canonical 8-digit body |
| GplImporter.OutOfRangeRefused | importer.py:45-50 | a colour channel outside 0..255, which the importer lets through, yields a code that `palette!` refuses |
| GplImporter.GroupsRefused | macros/src/lib.rs:122-132 | a body built from groups one of which is wider than two characters or starts with `-` is refused |
| GplImporter.WideWhenAbove | importer.py:19-20 | a value above 255 formats to three or more characters |
| GplImporter.MinusGroupRefused | macros/src/lib.rs:122-132 | an 8-digit body with `-` at the start of a group is refused |
| GplImporter.DecimalDigits | importer.py:45-57 | the decimal text of a number is all digits |
| GplImporter.DecimalDigitsValue | importer.py:45-57 | the decimal text reads back as the number |
| GplImporter.PyIntDecimal | importer.py:45-57 | `int()` reads the decimal text of any integer, negative ones included, back to that integer |
| GplImporter.GatherDistinct | importer.py:69-71 | the gathered entries are pairwise distinct |
| GplImporter.GatherFacts | importer.py:69-71 | the gathered entries are distinct and are exactly the entries some line yields |
| GplImporter.GatherMembers | importer.py:69-71 | an entry is gathered exactly when some line yields it |
| GplImporter.GatherPrefix | importer.py:69-71 | entries gathered from a prefix of the lines stay, in order, at the front of the result |
| GplImporter.SubRunsShape | importer.py:15 | `re.sub("[^a-z0-9]+", "_", …)` leaves only key characters and lone underscores |
| GplImporter.ConsShape | importer.py:15 | putting one character in front of a snake-shaped text keeps the shape, unless it makes a double underscore |
| GplImporter.SliceShape | importer.py:16 | every slice of a snake-shaped text is snake-shaped |
| GplImporter.SnakeCaseShape | importer.py:13-16 | a snake-case name holds only lowercase letters, digits and single underscores, and does not start or end with `_` |
| GplImporter.SubRunsFixed | importer.py:15 | the substitution leaves snake-shaped text unchanged |
| GplImporter.SnakeNameFixed | importer.py:13-16 | a text that is already a snake name is its own snake case |
| GplImporter.SnakeCaseIdempotent | importer.py:13-16 | snake-casing twice equals snake-casing once |
| GplImporter.NormalizeDropLast | macros/src/lib.rs:420-425 | a final non-alphanumeric character does not affect the key |
| GplImporter.NormalizeSkip | macros/src/lib.rs:420-425 | skipping leading separators does not change the key |
| GplImporter.SkipStep | importer.py:41 | skipping separators past one separator continues after it, and the key ignores that separator |
| GplImporter.NormalizeTrimEnd | importer.py:14 | stripping trailing whitespace does not change the key |
| GplImporter.NormalizeTrimEndUnderscores | importer.py:16 | stripping trailing underscores does not change the key |
| GplImporter.NormalizeLower | importer.py:14 | lowercasing does not change the key |
| GplImporter.NormalizeSubRuns | importer.py:15 | replacing runs of non-key characters with `_` does not change the key of lowercase text |
| GplImporter.SnakeCaseKey | importer.py:13-16 | the importer's snake-case name has the same `get` key as the original `.gpl` name, so the generated palette finds the colour under either |
| GplImporter.ConcatAlphanumeric | importer.py:10 | joining alphanumeric parts gives alphanumeric text |
| GplImporter.CapitalizeAlphanumeric | importer.py:10 | capitalising an alphanumeric word keeps it alphanumeric |
| GplImporter.NormalizeCapitalize | importer.py:10 | capitalising a part does not change its key |
| GplImporter.NormalizeCapitalizeAll | importer.py:10 | capitalising every part does not change the key of their concatenation |
| GplImporter.NormalizeWords | importer.py:9 | splitting on runs of non-alphanumeric characters and joining the parts does not change the key |
| GplImporter.NormalizeWordStep | importer.py:9 | one word in front of the rest of the parts equals the text it was taken from, in key |

## Left out

- `crate_root` (macros/src/lib.rs:16-25) resolves the crate path through Cargo metadata. It affects no value and is not modelled.
- The generated doc strings, rustdoc HTML and the `rgba(…%)` percentage formatting (macros/src/lib.rs:293-306, 332-350) are float formatting for documentation only.
- Float arithmetic: a triple's float literal is a token carrying the truncated `i32` of `x * 255.0`, and `with_alpha_f32` / `with_intensity_f32` take that truncated value as their input. NaN and rounding of the multiplication are not modelled.
- The `From` conversions to and from the bevy and egui colour types (src/color.rs:157-243) call foreign types.
- Tokenisation and spans belong to `syn` and `proc_macro2`. The parser works on an abstract token list whose string literals are already unescaped, and errors carry their message without a span.
- syn reports leftover tokens inside a parenthesised triple when the group is dropped. The model reports them at the entry, so the reporting order can differ when a later entry also has an error.
- Strings are ASCII. Unicode `is_uppercase`, `is_alphanumeric`, `isspace`, `str.lower` and `str.capitalize` beyond ASCII are not modelled.
- `Ident::new` and `format_ident!` panic on names that are not Rust identifiers (`"red green"`, `"1st"`); that check is not modelled, and `MacroPalette.Compiles` says nothing about identifier shape. Rust's refusal of duplicate associated items and of names clashing with the built-in methods is stated as the `MacroPalette.Compiles` predicate.
- The importer's `main` (importer.py:76-95) is file I/O and is not modelled: the sorted `rglob`, decoding with `errors="ignore"`, skipping palettes with no colours, and writing the output file. Its `pascal_case` naming of palettes is modelled.
- src/lib.rs, src/common.rs and src/error.rs are not part of this model. `Error` is modelled as its `ParseError(message)` case only.
- ColorValue.TryParseIntensity: states the suffix case only when the shortened text has no suffix of its own. Text with two suffixes is covered by `TryParse` itself but has no lemma.
- ColorValue.TryParseAgreesWithMacro: requires text without an intensity suffix. An 8-digit body whose fourth character is `+` (for example `#abc+1234`) is read by `try_parse` as a 3-digit body with an intensity, while the macro reads it as eight digits.
- GplImporter.ClassifyLine: its own ensures states only the shape of the hex code. The accepted lines and the entry each yields are characterised by `GplImporter.SkipRules` and `GplImporter.AlphaHeuristic`.
- GplImporter.PyInt: states only that empty text fails. Its agreement with `int()` on decimal text is `GplImporter.PyIntDecimal`. It accepts a sign, ASCII digits and single `_` between digits; Python's acceptance of non-ASCII digits and surrounding white space is not modelled, since `str.split()` leaves no white space in a field.

## Findings

| source | as written | input that shows it | evidently intended | confidence | as-written member | corrected member |
|---|---|---|---|---|---|---|
| src/color.rs:36 | `hex.len() - 5` is evaluated before any length check, so in a debug build it underflows and panics for any body shorter than five characters | `Color::try_parse("#f00")` panics in a debug build, although the 3- and 4-digit forms are decoded further down | bodies of fewer than five characters have no intensity suffix and are decoded by their length, as the release build does through wrap-around | not executed | ColorValue.TryParseDebug | ColorValue.TryParse |
