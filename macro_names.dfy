/**
 * The names the `palette!` macro derives from a declared colour name: the
 * constant name (`to_upper_snake_case`), the accessor name
 * (`to_lower_snake_case`) and the key `get` looks names up by
 * (`normalize_color_name`). Characters are classified with ASCII rules.
 */
module MacroNames {

  predicate IsUpper(c: char) { 'A' <= c <= 'Z' }

  predicate IsLower(c: char) { 'a' <= c <= 'z' }

  predicate IsDigit(c: char) { '0' <= c <= '9' }

  predicate IsAlphanumeric(c: char) { IsUpper(c) || IsLower(c) || IsDigit(c) }

  function ToAsciiUpper(c: char): (u: char)
    ensures !IsLower(u)
    ensures IsAlphanumeric(u) <==> IsAlphanumeric(c)
  {
    if IsLower(c) then (c as int - 32) as char else c
  }

  function ToAsciiLower(c: char): (l: char)
    ensures !IsUpper(l)
    ensures IsAlphanumeric(l) <==> IsAlphanumeric(c)
    ensures ToAsciiLower(ToAsciiUpper(c)) == l
  {
    if IsUpper(c) then (c as int + 32) as char else c
  }

  /** Every character upper-cased, as `str::to_ascii_uppercase` does. */
  function AsciiUpper(s: string): (r: string)
    ensures |r| == |s| && forall i | 0 <= i < |s| :: r[i] == ToAsciiUpper(s[i])
  {
    seq(|s|, i requires 0 <= i < |s| => ToAsciiUpper(s[i]))
  }

  function AsciiLower(s: string): (r: string)
    ensures |r| == |s| && forall i | 0 <= i < |s| :: r[i] == ToAsciiLower(s[i])
  {
    seq(|s|, i requires 0 <= i < |s| => ToAsciiLower(s[i]))
  }

  /**
   * The boundary rule of both snake cases: an underscore goes before the
   * character at i exactly when it is upper case, is not the first, and
   * does not follow another upper-case character.
   */
  predicate Boundary(s: string, i: nat)
    requires i < |s|
  {
    IsUpper(s[i]) && i > 0 && !IsUpper(s[i - 1])
  }

  /** What `to_upper_snake_case` pushes for the character at i. */
  function UpperPiece(s: string, i: nat): string
    requires i < |s|
  {
    (if Boundary(s, i) then "_" else "") + [ToAsciiUpper(s[i])]
  }

  /** What `to_lower_snake_case` pushes for the character at i. */
  function LowerPiece(s: string, i: nat): string
    requires i < |s|
  {
    if IsUpper(s[i]) then (if Boundary(s, i) then "_" else "") + [ToAsciiLower(s[i])]
    else [s[i]]
  }

  /** The output of `to_upper_snake_case` after its first n characters. */
  function UpperSnakeUpTo(s: string, n: nat): string
    requires n <= |s|
  {
    if n == 0 then "" else UpperSnakeUpTo(s, n - 1) + UpperPiece(s, n - 1)
  }

  /** The output of `to_lower_snake_case` after its first n characters. */
  function LowerSnakeUpTo(s: string, n: nat): string
    requires n <= |s|
  {
    if n == 0 then "" else LowerSnakeUpTo(s, n - 1) + LowerPiece(s, n - 1)
  }

  /**
   * The constant name of a declared name: it has the declared name's lookup
   * key, and it is the upper-casing of the accessor name.
   */
  function UpperSnake(s: string): (r: string)
    ensures Normalize(r) == Normalize(s)
    ensures r == AsciiUpper(LowerSnake(s))
  {
    SnakeCaseKeys(s, |s|);
    UpperIsUppercasedLower(s, |s|);
    assert s[..|s|] == s;
    UpperSnakeUpTo(s, |s|)
  }

  /** The accessor name of a declared name: it has the declared name's lookup key. */
  function LowerSnake(s: string): (r: string)
    ensures Normalize(r) == Normalize(s)
  {
    SnakeCaseKeys(s, |s|);
    assert s[..|s|] == s;
    LowerSnakeUpTo(s, |s|)
  }

  /** `to_upper_snake_case`: the loop that pushes each character's piece into `result`. */
  method ToUpperSnakeCase(s: string) returns (result: string)
    ensures result == UpperSnake(s)
  {
    result := "";
    for i := 0 to |s|
      invariant result == UpperSnakeUpTo(s, i)
    {
      if IsUpper(s[i]) && i > 0 && !IsUpper(s[i - 1]) {
        result := result + "_";
      }
      result := result + [ToAsciiUpper(s[i])];
    }
  }

  /** `to_lower_snake_case`: like the upper case, but upper-case letters are lowered and the rest kept. */
  method ToLowerSnakeCase(s: string) returns (result: string)
    ensures result == LowerSnake(s)
  {
    result := "";
    for i := 0 to |s|
      invariant result == LowerSnakeUpTo(s, i)
    {
      if IsUpper(s[i]) {
        if i > 0 && !IsUpper(s[i - 1]) {
          result := result + "_";
        }
        result := result + [ToAsciiLower(s[i])];
      } else {
        result := result + [s[i]];
      }
    }
  }

  /** `normalize_color_name`: the alphanumeric characters, lower-cased. */
  function Normalize(s: string): (key: string)
    ensures |key| <= |s|
    ensures forall i | 0 <= i < |key| :: IsLower(key[i]) || IsDigit(key[i])
  {
    if |s| == 0 then ""
    else (if IsAlphanumeric(s[0]) then [ToAsciiLower(s[0])] else "") + Normalize(s[1..])
  }

  lemma {:induction false} NormalizeConcat(a: string, b: string)
    ensures Normalize(a + b) == Normalize(a) + Normalize(b)
    decreases |a|
  {
    if |a| > 0 {
      assert (a + b)[1..] == a[1..] + b;
      NormalizeConcat(a[1..], b);
    } else {
      assert a + b == b;
    }
  }

  /** A key is already normalised: `normalize_color_name` is idempotent. */
  lemma {:induction false} NormalizeIdempotent(s: string)
    ensures Normalize(Normalize(s)) == Normalize(s)
    decreases |s|
  {
    if |s| > 0 {
      var head := if IsAlphanumeric(s[0]) then [ToAsciiLower(s[0])] else "";
      NormalizeConcat(head, Normalize(s[1..]));
      NormalizeIdempotent(s[1..]);
      if IsAlphanumeric(s[0]) {
        assert head[1..] == "";
      }
    }
  }

  /** A lookup key is its own key: lowercase letters and digits pass through unchanged. */
  lemma {:induction false} NormalizeKeepsKeys(s: string)
    requires forall i | 0 <= i < |s| :: IsLower(s[i]) || IsDigit(s[i])
    ensures Normalize(s) == s
    decreases |s|
  {
    if |s| > 0 {
      NormalizeKeepsKeys(s[1..]);
      assert s == [s[0]] + s[1..];
    }
  }

  /** Lookup ignores case: upper-casing a name does not change its key. */
  lemma {:induction false} NormalizeIgnoresCase(s: string)
    ensures Normalize(AsciiUpper(s)) == Normalize(s)
    decreases |s|
  {
    if |s| > 0 {
      NormalizeIgnoresCase(s[1..]);
      assert AsciiUpper(s)[1..] == AsciiUpper(s[1..]);
    }
  }

  lemma PieceKeys(s: string, i: nat)
    requires i < |s|
    ensures Normalize(UpperPiece(s, i)) == Normalize([s[i]])
    ensures Normalize(LowerPiece(s, i)) == Normalize([s[i]])
  {
    var c := s[i];
    assert Normalize([c]) == (if IsAlphanumeric(c) then [ToAsciiLower(c)] else "") + Normalize([]) by {
      assert [c][1..] == [];
    }
    var u := ToAsciiUpper(c);
    assert Normalize([u]) == (if IsAlphanumeric(u) then [ToAsciiLower(u)] else "") + Normalize([]) by {
      assert [u][1..] == [];
    }
    var l := ToAsciiLower(c);
    assert Normalize([l]) == (if IsAlphanumeric(l) then [ToAsciiLower(l)] else "") + Normalize([]) by {
      assert [l][1..] == [];
    }
    assert Normalize("_") == "";
    NormalizeConcat("_", [u]);
    NormalizeConcat("_", [l]);
  }

  /**
   * The constant and accessor names the macro emits normalise to the same
   * key as the declared name, so `get` finds an entry under all three
   * spellings ("customColor", "CUSTOM_COLOR", "custom_color").
   */
  lemma {:induction false} SnakeCaseKeys(s: string, n: nat)
    requires n <= |s|
    ensures Normalize(UpperSnakeUpTo(s, n)) == Normalize(s[..n])
    ensures Normalize(LowerSnakeUpTo(s, n)) == Normalize(s[..n])
  {
    if n > 0 {
      SnakeCaseKeys(s, n - 1);
      PieceKeys(s, n - 1);
      assert s[..n] == s[..n - 1] + [s[n - 1]];
      NormalizeConcat(UpperSnakeUpTo(s, n - 1), UpperPiece(s, n - 1));
      NormalizeConcat(LowerSnakeUpTo(s, n - 1), LowerPiece(s, n - 1));
      NormalizeConcat(s[..n - 1], [s[n - 1]]);
    }
  }

  /** The constant name is always the ASCII upper-casing of the accessor name. */
  lemma {:induction false} UpperIsUppercasedLower(s: string, n: nat)
    requires n <= |s|
    ensures UpperSnakeUpTo(s, n) == AsciiUpper(LowerSnakeUpTo(s, n))
  {
    if n > 0 {
      UpperIsUppercasedLower(s, n - 1);
      var i := n - 1;
      assert UpperPiece(s, i) == AsciiUpper(LowerPiece(s, i));
      AsciiUpperConcat(LowerSnakeUpTo(s, i), LowerPiece(s, i));
    }
  }

  lemma AsciiUpperConcat(a: string, b: string)
    ensures AsciiUpper(a + b) == AsciiUpper(a) + AsciiUpper(b)
  {
  }

  /** The test palette's `"customColor"` becomes the constant `CUSTOM_COLOR`. */
  lemma UpperSnakeCustomColor()
    ensures UpperSnake("customColor") == "CUSTOM_COLOR"
  {
    var s := "customColor";
    assert UpperSnakeUpTo(s, 1) == "C";
    assert UpperSnakeUpTo(s, 2) == "CU";
    assert UpperSnakeUpTo(s, 3) == "CUS";
    assert UpperSnakeUpTo(s, 4) == "CUST";
    assert UpperSnakeUpTo(s, 5) == "CUSTO";
    assert UpperSnakeUpTo(s, 6) == "CUSTOM";
    assert UpperSnakeUpTo(s, 7) == "CUSTOM_C";
    assert UpperSnakeUpTo(s, 8) == "CUSTOM_CO";
    assert UpperSnakeUpTo(s, 9) == "CUSTOM_COL";
    assert UpperSnakeUpTo(s, 10) == "CUSTOM_COLO";
    assert UpperSnakeUpTo(s, 11) == "CUSTOM_COLOR";
  }

  /** and the accessor `custom_color`. */
  lemma LowerSnakeCustomColor()
    ensures LowerSnake("customColor") == "custom_color"
  {
    var s := "customColor";
    assert LowerSnakeUpTo(s, 1) == "c";
    assert LowerSnakeUpTo(s, 2) == "cu";
    assert LowerSnakeUpTo(s, 3) == "cus";
    assert LowerSnakeUpTo(s, 4) == "cust";
    assert LowerSnakeUpTo(s, 5) == "custo";
    assert LowerSnakeUpTo(s, 6) == "custom";
    assert LowerSnakeUpTo(s, 7) == "custom_c";
    assert LowerSnakeUpTo(s, 8) == "custom_co";
    assert LowerSnakeUpTo(s, 9) == "custom_col";
    assert LowerSnakeUpTo(s, 10) == "custom_colo";
    assert LowerSnakeUpTo(s, 11) == "custom_color";
  }

  /** `"HTMLColor"` becomes `HTMLCOLOR`: no break inside a run of capitals. */
  lemma UpperSnakeCapitalRun()
    ensures UpperSnake("HTMLColor") == "HTMLCOLOR"
  {
    var s := "HTMLColor";
    assert UpperSnakeUpTo(s, 1) == "H";
    assert UpperSnakeUpTo(s, 2) == "HT";
    assert UpperSnakeUpTo(s, 3) == "HTM";
    assert UpperSnakeUpTo(s, 4) == "HTML";
    assert UpperSnakeUpTo(s, 5) == "HTMLC";
    assert UpperSnakeUpTo(s, 6) == "HTMLCO";
    assert UpperSnakeUpTo(s, 7) == "HTMLCOL";
    assert UpperSnakeUpTo(s, 8) == "HTMLCOLO";
    assert UpperSnakeUpTo(s, 9) == "HTMLCOLOR";
  }
}
