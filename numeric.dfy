/**
 * Fixed-width integers and the digit-level conversions that the Rust crate
 * and the Python importer rely on: Rust's `from_str_radix` in base 16, the
 * lower-case two-digit hex formatting, and the saturating clamp of a
 * truncated `f32 * 255.0` into a `u8`.
 */
module Numeric {
  import opened Wrappers

  /** Rust's `u8`, `u16` and `i32` as ranges of the unbounded integers. */
  type U8 = x: int | 0 <= x < 0x100
  type U16 = x: int | 0 <= x < 0x1_0000
  type I32 = x: int | -0x8000_0000 <= x < 0x8000_0000

  predicate IsHexDigit(c: char) {
    '0' <= c <= '9' || 'a' <= c <= 'f' || 'A' <= c <= 'F'
  }

  /** The value of a base-16 digit, either case (`char::to_digit(16)`). */
  function HexValue(c: char): (d: nat)
    requires IsHexDigit(c)
    ensures d < 16
  {
    if '0' <= c <= '9' then c as int - '0' as int
    else if 'a' <= c <= 'f' then c as int - 'a' as int + 10
    else c as int - 'A' as int + 10
  }

  /** The lower-case digit that the `x` format of Rust and Python prints for d. */
  function HexChar(d: nat): (c: char)
    requires d < 16
    ensures IsHexDigit(c) && HexValue(c) == d
    ensures '0' <= c <= '9' || 'a' <= c <= 'f'
  {
    if d < 10 then ('0' as int + d) as char else ('a' as int + d - 10) as char
  }

  /** Why `from_str_radix` refused its input (Rust's `IntErrorKind`). */
  datatype IntErrorKind = Empty | InvalidDigit | PosOverflow

  /** The text Rust's `ParseIntError` displays for each kind. */
  function IntErrorText(k: IntErrorKind): string {
    match k
    case Empty => "cannot parse integer from empty string"
    case InvalidDigit => "invalid digit found in string"
    case PosOverflow => "number too large to fit in target type"
  }

  /**
   * The digit loop of `from_str_radix`: digits are read left to right, each
   * one first checked to be a digit and then multiplied in, failing as soon
   * as the value no longer fits below `bound`.
   */
  function Accumulate(digits: string, acc: nat, bound: nat): (r: Result<nat, IntErrorKind>)
    requires acc < bound
    ensures r.Ok? ==> acc <= r.value < bound
    ensures r.Err? ==> r.error != Empty
    decreases |digits|
  {
    if |digits| == 0 then Ok(acc)
    else if !IsHexDigit(digits[0]) then Err(InvalidDigit)
    else if acc * 16 + HexValue(digits[0]) >= bound then Err(PosOverflow)
    else Accumulate(digits[1..], acc * 16 + HexValue(digits[0]), bound)
  }

  /**
   * `from_str_radix(s, 16)` for an unsigned type whose values are below
   * `bound`: an optional leading `+`, then one or more hex digits of either
   * case. A lone sign is an invalid digit; `-` is never accepted.
   */
  function FromStrRadix16(s: string, bound: nat): (r: Result<nat, IntErrorKind>)
    requires 0 < bound
    ensures r.Ok? ==> r.value < bound
    ensures r == Err(Empty) <==> |s| == 0
  {
    if |s| == 0 then Err(Empty)
    else if (s[0] == '+' || s[0] == '-') && |s| == 1 then Err(InvalidDigit)
    else Accumulate(if s[0] == '+' then s[1..] else s, 0, bound)
  }

  /** `u8::from_str_radix(s, 16)`. */
  function ParseU8(s: string): (r: Result<U8, IntErrorKind>)
    ensures r.Err? <==> FromStrRadix16(s, 0x100).Err?
  {
    match FromStrRadix16(s, 0x100)
    case Ok(v) => Ok(v)
    case Err(k) => Err(k)
  }

  /** `u16::from_str_radix(s, 16)`. */
  function ParseU16(s: string): (r: Result<U16, IntErrorKind>)
    ensures r.Err? <==> FromStrRadix16(s, 0x1_0000).Err?
  {
    match FromStrRadix16(s, 0x1_0000)
    case Ok(v) => Ok(v)
    case Err(k) => Err(k)
  }

  /** A two-character group `u8::from_str_radix` accepts: two hex digits, or `+` and one. */
  predicate IsByteText(t: string) {
    |t| == 2 && (IsHexDigit(t[0]) || t[0] == '+') && IsHexDigit(t[1])
  }

  /** The value of a group that `IsByteText` accepts. */
  function ByteTextValue(t: string): nat
    requires IsByteText(t)
  {
    if t[0] == '+' then HexValue(t[1]) else 16 * HexValue(t[0]) + HexValue(t[1])
  }

  /**
   * The exact acceptance rule of `u8::from_str_radix` on the two-character
   * groups the hex decoders cut out: `"ff"` and `"+f"` parse, `"++"`, `"-f"`
   * and anything with a non-digit do not.
   */
  lemma ParseU8OfTwo(t: string)
    requires |t| == 2
    ensures ParseU8(t).Ok? <==> IsByteText(t)
    ensures ParseU8(t).Ok? ==> ParseU8(t).value == ByteTextValue(t)
    ensures ParseU8(t).Err? ==> ParseU8(t).error == InvalidDigit
  {
    if t[0] == '+' {
      assert FromStrRadix16(t, 0x100) == Accumulate([t[1]], 0, 0x100) by {
        assert t[1..] == [t[1]];
      }
      AccumulateOne(t[1], 0, 0x100);
    } else {
      assert FromStrRadix16(t, 0x100) == Accumulate(t, 0, 0x100);
      if IsHexDigit(t[0]) {
        assert Accumulate(t, 0, 0x100) == Accumulate([t[1]], HexValue(t[0]), 0x100) by {
          assert t[1..] == [t[1]];
        }
        AccumulateOne(t[1], HexValue(t[0]), 0x100);
      }
    }
  }

  /** One step of the digit loop, written out. */
  lemma AccumulateOne(c: char, acc: nat, bound: nat)
    requires acc < bound
    ensures Accumulate([c], acc, bound) ==
      if !IsHexDigit(c) then Err(InvalidDigit)
      else if acc * 16 + HexValue(c) >= bound then Err(PosOverflow)
      else Ok(acc * 16 + HexValue(c))
  {
    if IsHexDigit(c) && acc * 16 + HexValue(c) < bound {
      assert [c][1..] == [];
    }
  }

  /** A four-character intensity text `u16::from_str_radix` accepts: four hex digits, or `+` and three. */
  predicate IsWordText(t: string) {
    |t| == 4 && (IsHexDigit(t[0]) || t[0] == '+')
    && IsHexDigit(t[1]) && IsHexDigit(t[2]) && IsHexDigit(t[3])
  }

  /** The value of a text that `IsWordText` accepts. */
  function WordTextValue(t: string): nat
    requires IsWordText(t)
  {
    var low := 256 * HexValue(t[1]) + 16 * HexValue(t[2]) + HexValue(t[3]);
    if t[0] == '+' then low else 4096 * HexValue(t[0]) + low
  }

  /** The exact acceptance rule of `u16::from_str_radix` on four characters. */
  lemma ParseU16OfFour(t: string)
    requires |t| == 4
    ensures ParseU16(t).Ok? <==> IsWordText(t)
    ensures ParseU16(t).Ok? ==> ParseU16(t).value == WordTextValue(t)
  {
    var bound := 0x1_0000;
    if t[0] == '+' {
      assert FromStrRadix16(t, bound) == Accumulate(t[1..], 0, bound);
      AccumulateThree(t[1..], 0, bound);
    } else {
      assert FromStrRadix16(t, bound) == Accumulate(t, 0, bound);
      if IsHexDigit(t[0]) {
        assert t[1..][0] == t[1];
        assert Accumulate(t, 0, bound) == Accumulate(t[1..], HexValue(t[0]), bound);
        AccumulateThree(t[1..], HexValue(t[0]), bound);
      }
    }
  }

  /** Three steps of the digit loop, for an accumulator small enough that nothing overflows a u16. */
  lemma AccumulateThree(u: string, acc: nat, bound: nat)
    requires |u| == 3 && acc < 16 && bound == 0x1_0000
    ensures Accumulate(u, acc, bound).Ok? <==> IsHexDigit(u[0]) && IsHexDigit(u[1]) && IsHexDigit(u[2])
    ensures Accumulate(u, acc, bound).Ok? ==>
      Accumulate(u, acc, bound).value == 4096 * acc + 256 * HexValue(u[0]) + 16 * HexValue(u[1]) + HexValue(u[2])
  {
    if IsHexDigit(u[0]) {
      var a1 := acc * 16 + HexValue(u[0]);
      assert a1 < 0x100;
      assert u[1..][0] == u[1] && u[1..][1..] == [u[2]];
      assert Accumulate(u, acc, bound) == Accumulate(u[1..], a1, bound);
      if IsHexDigit(u[1]) {
        var a2 := a1 * 16 + HexValue(u[1]);
        assert a2 < 0x1000;
        assert Accumulate(u[1..], a1, bound) == Accumulate([u[2]], a2, bound);
        AccumulateOne(u[2], a2, bound);
      }
    }
  }

  /** Two lower-case hex digits, zero padded: Rust's `{:02x}` and Python's `f"{b:02x}"` of a byte. */
  function Hex2(b: U8): (t: string)
    ensures IsByteText(t) && ByteTextValue(t) == b
    ensures forall i | 0 <= i < |t| :: '0' <= t[i] <= '9' || 'a' <= t[i] <= 'f'
  {
    [HexChar(b / 16), HexChar(b % 16)]
  }

  /** Four lower-case hex digits, zero padded, of a `u16`. */
  function Hex4(w: U16): (t: string)
    ensures IsWordText(t) && WordTextValue(t) == w
  {
    var q1, d3 := w / 16, w % 16;
    var q2, d2 := q1 / 16, q1 % 16;
    var d0, d1 := q2 / 16, q2 % 16;
    assert w == 16 * q1 + d3 && q1 == 16 * q2 + d2 && q2 == 16 * d0 + d1;
    assert d0 < 16;
    [HexChar(d0), HexChar(d1), HexChar(d2), HexChar(d3)]
  }

  function Min(a: int, b: int): int { if a <= b then a else b }
  function Max(a: int, b: int): int { if a >= b then a else b }

  /**
   * The saturating narrowing the crate applies to a truncated `x * 255.0`
   * (`if t <= 255 { if t >= 0 { t as u8 } else { 0 } } else { 255 }`):
   * the nearest byte to t.
   */
  function SaturateU8(t: I32): (r: U8)
    ensures r == Max(0, Min(255, t))
    ensures 0 <= t <= 255 ==> r == t
  {
    if t <= 255 then (if t >= 0 then t else 0) else 255
  }
}
