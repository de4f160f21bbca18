/**
 * The observable contract of the type `palette!` generates: one constant
 * and one accessor per entry, the fixed-size `all()` array, `len()`,
 * `iter()`, both `IntoIterator` impls and the name lookup `get`.
 */
module MacroPalette {
  import opened Wrappers
  import opened MacroNames
  import opened MacroParser
  import opened ColorValue

  /** What the expansion emits for one entry: its `get` key, its constant, its accessor and its value. */
  datatype Item = Item(key: string, constName: string, methodName: string, color: Color)

  /** The generated palette type: its name and its items in declaration order. */
  datatype Generated = Generated(name: string, items: seq<Item>)

  /**
   * The item of one parsed entry: `Color::new` of its channels, named by the
   * case conversions. The constant and the accessor have the declared
   * name's key, and the constant is the upper-cased accessor.
   */
  function ItemOf(d: ColorDef): (it: Item)
    ensures it.key == Normalize(d.name) == Normalize(it.constName) == Normalize(it.methodName)
    ensures it.constName == AsciiUpper(it.methodName)
    ensures it.color.intensity16 == NeutralIntensity
    ensures (it.color.r8, it.color.g8, it.color.b8, it.color.a8) == (d.r8, d.g8, d.b8, d.a8)
  {
    Item(Normalize(d.name), UpperSnake(d.name), LowerSnake(d.name), New(d.r8, d.g8, d.b8, d.a8))
  }

  function Expansion(p: PaletteDef): (g: Generated)
    ensures g.name == p.name && |g.items| == |p.colors|
    ensures forall i | 0 <= i < |p.colors| :: g.items[i] == ItemOf(p.colors[i])
  {
    Generated(p.name, seq(|p.colors|, i requires 0 <= i < |p.colors| => ItemOf(p.colors[i])))
  }

  /** The loop of `palette()` that fills the constant, accessor, match-arm and value lists entry by entry. */
  method Expand(p: PaletteDef) returns (g: Generated)
    ensures g == Expansion(p)
  {
    var items: seq<Item> := [];
    for i := 0 to |p.colors|
      invariant items == Expansion(p).items[..i]
    {
      var d := p.colors[i];
      var constName := ToUpperSnakeCase(d.name);
      var methodName := ToLowerSnakeCase(d.name);
      items := items + [Item(Normalize(d.name), constName, methodName, New(d.r8, d.g8, d.b8, d.a8))];
      assert Expansion(p).items[..i + 1] == Expansion(p).items[..i] + [Expansion(p).items[i]];
    }
    assert Expansion(p).items[..|p.colors|] == Expansion(p).items;
    g := Generated(p.name, items);
  }

  /** `all()`: the constants in declaration order. */
  function All(g: Generated): (cs: seq<Color>)
    ensures |cs| == |g.items| && forall i | 0 <= i < |g.items| :: cs[i] == g.items[i].color
  {
    seq(|g.items|, i requires 0 <= i < |g.items| => g.items[i].color)
  }

  /** `len()`: the entry count, fixed when the palette is expanded. */
  function Len(g: Generated): (n: nat)
    ensures n == |All(g)| == |g.items|
  {
    |g.items|
  }

  /** `iter()` and `into_iter()` on the type and on a reference to it: each is `all().into_iter()`. */
  function Iter(g: Generated): (cs: seq<Color>)
    ensures |cs| == Len(g) && forall i | 0 <= i < |cs| :: cs[i] == g.items[i].color
  {
    All(g)
  }

  /** The associated constant with the given identifier. */
  function Const(items: seq<Item>, ident: string): (r: Option<Color>)
    ensures r.Some? <==> exists i | 0 <= i < |items| :: items[i].constName == ident
  {
    if |items| == 0 then None
    else if items[0].constName == ident then Some(items[0].color)
    else Const(items[1..], ident)
  }

  /** The accessor with the given identifier, which returns `Self::` its entry's constant. */
  function Accessor(items: seq<Item>, ident: string): (r: Option<Color>)
    ensures r.Some? <==> exists i | 0 <= i < |items| :: items[i].methodName == ident
    decreases |items|
  {
    if |items| == 0 then None
    else if items[0].methodName == ident then Const(items, items[0].constName)
    else Accessor(items[1..], ident)
  }

  /** Names of associated functions the expansion always emits. */
  const Builtins: set<string> := {"all", "len", "iter", "get", "normalize_color_name"}

  /**
   * What the expansion needs to compile: Rust refuses two associated items
   * with one name, so constants are pairwise distinct, accessors are
   * pairwise distinct, no constant shares its name with an accessor (a name
   * of underscores only gives both the same identifier), and accessors
   * differ from the built-in functions.
   */
  predicate Compiles(g: Generated) {
    (forall i, j | 0 <= i < j < |g.items| ::
       g.items[i].constName != g.items[j].constName && g.items[i].methodName != g.items[j].methodName)
    && (forall i, j | 0 <= i < |g.items| && 0 <= j < |g.items| :: g.items[i].constName != g.items[j].methodName)
    && forall i | 0 <= i < |g.items| :: g.items[i].methodName !in Builtins
  }

  /** The match of `get`: the first arm, in declaration order, whose key is the given one. */
  function Lookup(items: seq<Item>, key: string): (r: Option<Color>)
    ensures r.None? <==> forall i | 0 <= i < |items| :: items[i].key != key
    ensures r.Some? ==> exists i | 0 <= i < |items| :: items[i].key == key && r.value == items[i].color
  {
    if |items| == 0 then None
    else if items[0].key == key then Some(items[0].color)
    else Lookup(items[1..], key)
  }

  /** `get(name)`: the match on the normalised name. */
  function Get(g: Generated, name: string): (r: Option<Color>)
    ensures r.None? <==> forall i | 0 <= i < |g.items| :: g.items[i].key != Normalize(name)
    ensures r.Some? ==> exists i | 0 <= i < |g.items| :: g.items[i].key == Normalize(name) && r.value == g.items[i].color
  {
    Lookup(g.items, Normalize(name))
  }

  /** Entry i is the first whose key is `key`. */
  predicate FirstWithKey(items: seq<Item>, key: string, i: int) {
    0 <= i < |items| && items[i].key == key && forall j | 0 <= j < i :: items[j].key != key
  }

  /**
   * The lookup finds the first item whose key matches, and nothing when no
   * key matches, in both directions.
   */
  lemma {:induction false} LookupFirst(items: seq<Item>, key: string)
    ensures Lookup(items, key).None? <==> forall i | 0 <= i < |items| :: items[i].key != key
    ensures forall i :: FirstWithKey(items, key, i) ==> Lookup(items, key) == Some(items[i].color)
    ensures Lookup(items, key).Some? ==> exists i :: FirstWithKey(items, key, i) && Lookup(items, key) == Some(items[i].color)
    decreases |items|
  {
    if |items| > 0 {
      LookupFirst(items[1..], key);
      if items[0].key == key {
        assert FirstWithKey(items, key, 0);
      } else {
        forall i | FirstWithKey(items, key, i)
          ensures Lookup(items, key) == Some(items[i].color)
        {
          assert FirstWithKey(items[1..], key, i - 1);
        }
        if Lookup(items, key).Some? {
          var k :| FirstWithKey(items[1..], key, k) && Lookup(items[1..], key) == Some(items[1..][k].color);
          assert FirstWithKey(items, key, k + 1);
        }
      }
    }
  }

  /** `get(q)` is the colour of the first entry whose key is q's key, and None when there is none. */
  lemma GetFirst(g: Generated, q: string)
    ensures Get(g, q).None? <==> forall i | 0 <= i < |g.items| :: g.items[i].key != Normalize(q)
    ensures forall i :: FirstWithKey(g.items, Normalize(q), i) ==> Get(g, q) == Some(g.items[i].color)
    ensures Get(g, q).Some? ==> exists i :: FirstWithKey(g.items, Normalize(q), i) && Get(g, q) == Some(g.items[i].color)
  {
    LookupFirst(g.items, Normalize(q));
  }

  /**
   * The declared name, its constant's name and its accessor's name all look
   * up the same entry: the first one whose name has the same key.
   */
  lemma GetByDerivedNames(p: PaletteDef, i: int)
    requires 0 <= i < |p.colors|
    ensures var g := Expansion(p); var n := p.colors[i].name;
      Get(g, UpperSnake(n)) == Get(g, n) && Get(g, LowerSnake(n)) == Get(g, n) && Get(g, n).Some?
  {
    var n := p.colors[i].name;
    LookupFirst(Expansion(p).items, Normalize(n));
    assert Expansion(p).items[i].key == Normalize(n);
  }

  /** The declared name of the first entry with its key gets that entry's `Color::new` value. */
  lemma GetDeclared(p: PaletteDef, i: int)
    requires 0 <= i < |p.colors|
    requires forall j | 0 <= j < i :: Normalize(p.colors[j].name) != Normalize(p.colors[i].name)
    ensures var d := p.colors[i]; Get(Expansion(p), d.name) == Some(New(d.r8, d.g8, d.b8, d.a8))
  {
    var g := Expansion(p);
    LookupFirst(g.items, Normalize(p.colors[i].name));
    assert FirstWithKey(g.items, Normalize(p.colors[i].name), i);
  }

  /**
   * `len()` is the entry count, and `all()`, `iter()` and the `IntoIterator`
   * impls give the entries' colours in declaration order, each at neutral
   * intensity.
   */
  lemma ExpandedSequence(p: PaletteDef)
    ensures var g := Expansion(p);
      Len(g) == |p.colors| == |All(g)| && Iter(g) == All(g)
      && forall i | 0 <= i < |p.colors| ::
           All(g)[i] == New(p.colors[i].r8, p.colors[i].g8, p.colors[i].b8, p.colors[i].a8)
           && All(g)[i].intensity16 == NeutralIntensity
  {
  }

  /** In a palette that compiles, each accessor returns its own entry's constant. */
  lemma AccessorReturnsConst(g: Generated, i: int)
    requires Compiles(g) && 0 <= i < |g.items|
    ensures Accessor(g.items, g.items[i].methodName) == Some(g.items[i].color)
    ensures Const(g.items, g.items[i].constName) == Some(g.items[i].color)
  {
    AccessorAt(g.items, i);
  }

  lemma {:induction false} AccessorAt(items: seq<Item>, i: int)
    requires 0 <= i < |items|
    requires forall a, b | 0 <= a < b < |items| ::
      items[a].constName != items[b].constName && items[a].methodName != items[b].methodName
    ensures Accessor(items, items[i].methodName) == Some(items[i].color)
    ensures Const(items, items[i].constName) == Some(items[i].color)
    decreases |items|
  {
    if i > 0 {
      assert items[0].constName != items[i].constName && items[0].methodName != items[i].methodName;
      AccessorAt(items[1..], i - 1);
    }
  }

  /** The empty declaration expands to a palette of length zero in which every lookup misses. */
  lemma EmptyPalette(name: string, q: string)
    ensures ParsePalette([Ident(name), Brace([])]) == Ok(PaletteDef(name, []))
    ensures Len(Expansion(PaletteDef(name, []))) == 0 && Get(Expansion(PaletteDef(name, [])), q) == None
  {
    PaletteParses(name, [], false);
    assert Declaration([], false) == [];
  }

  /** The crate's test palette: three primaries and `"customColor"` at (0.5, 0.5, 0.5), with a trailing comma. */
  const TestEntries: seq<EntrySyntax> := [
    TripleEntry("red", 255, 0, 0), TripleEntry("green", 0, 255, 0),
    TripleEntry("blue", 0, 0, 255), TripleEntry("customColor", 127, 127, 127)]

  function TestDeclaration(): seq<Token> {
    [Ident("TestPalette"), Brace(Declaration(TestEntries, true))]
  }

  /** The definition the test declaration parses to: float triples scaled by 255 and made opaque. */
  const TestDef := PaletteDef("TestPalette", [
    ColorDef("red", 255, 0, 0, 255), ColorDef("green", 0, 255, 0, 255),
    ColorDef("blue", 0, 0, 255, 255), ColorDef("customColor", 127, 127, 127, 255)])

  lemma TestPaletteParses()
    ensures ParsePalette(TestDeclaration()) == Ok(TestDef)
  {
    PaletteParses("TestPalette", TestEntries, true);
    assert Meanings(TestEntries) == TestDef.colors;
  }

  /**
   * As in the crate's tests: an entry declared as `"customColor"` is found
   * as `"customColor"`, `"custom_color"` and `"CUSTOM_COLOR"` alike.
   */
  lemma CustomColorSpellings(p: PaletteDef, i: int)
    requires 0 <= i < |p.colors| && p.colors[i].name == "customColor"
    ensures var g := Expansion(p);
      Get(g, "customColor").Some? && Get(g, "custom_color") == Get(g, "customColor")
      && Get(g, "CUSTOM_COLOR") == Get(g, "customColor")
  {
    GetByDerivedNames(p, i);
    UpperSnakeCustomColor();
    LowerSnakeCustomColor();
  }

  /** A name starting with a lowercase letter that starts no entry's name is not found. */
  lemma InitialMisses(p: PaletteDef, q: string)
    requires |q| > 0 && IsLower(q[0])
    requires forall i | 0 <= i < |p.colors| ::
      |p.colors[i].name| > 0 && IsLower(p.colors[i].name[0]) && p.colors[i].name[0] != q[0]
    ensures Get(Expansion(p), q) == None
  {
    var g := Expansion(p);
    assert Normalize(q) == [q[0]] + Normalize(q[1..]);
    assert Normalize(q)[0] == q[0];
    forall i | 0 <= i < |g.items|
      ensures g.items[i].key != Normalize(q)
    {
      var n := p.colors[i].name;
      assert g.items[i].key == Normalize(n);
      assert Normalize(n) == [n[0]] + Normalize(n[1..]);
      assert Normalize(n)[0] == n[0];
    }
    LookupFirst(g.items, Normalize(q));
  }

  lemma TestPaletteMiss()
    ensures Get(Expansion(TestDef), "nonexistent") == None
  {
    InitialMisses(TestDef, "nonexistent");
  }

  /** A name starting with a lowercase letter has a key starting with that letter. */
  lemma KeyInitial(s: string)
    requires |s| > 0 && IsLower(s[0])
    ensures |Normalize(s)| > 0 && Normalize(s)[0] == s[0]
  {
    assert Normalize(s) == [s[0]] + Normalize(s[1..]);
  }

  /**
   * A palette declared like the crate's test palette has four colours, and
   * its custom entry is found as `"customColor"`, `"custom_color"` and
   * `"CUSTOM_COLOR"` with the value the tests expect.
   */
  lemma TestShapedHits(p: PaletteDef)
    requires |p.colors| == 4 && p.colors[3] == ColorDef("customColor", 127, 127, 127, 255)
    requires forall j | 0 <= j < 3 :: |p.colors[j].name| > 0 && IsLower(p.colors[j].name[0]) && p.colors[j].name[0] != 'c'
    ensures var g := Expansion(p);
      var custom := Some(New(127, 127, 127, 255));
      Len(g) == 4 && Get(g, "customColor") == custom && Get(g, "custom_color") == custom
      && Get(g, "CUSTOM_COLOR") == custom
  {
    KeyInitial(p.colors[3].name);
    forall j | 0 <= j < 3
      ensures Normalize(p.colors[j].name) != Normalize(p.colors[3].name)
    {
      KeyInitial(p.colors[j].name);
    }
    GetDeclared(p, 3);
    CustomColorSpellings(p, 3);
  }

  lemma TestPaletteHits()
    ensures var g := Expansion(TestDef);
      var custom := Some(New(127, 127, 127, 255));
      Len(g) == 4 && Get(g, "customColor") == custom && Get(g, "custom_color") == custom
      && Get(g, "CUSTOM_COLOR") == custom
  {
    TestShapedHits(TestDef);
  }
}
