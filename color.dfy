/**
 * `getListColor`: the swatch drawn beside each list, chosen by a running
 * hash of the list's id over its UTF-16 code units.
 */
module ListColor {

  /** The eight swatch colours, in the order the hash indexes them. */
  const Palette: seq<string> :=
    ["#7c5cff", "#ff8a65", "#4dd0e1", "#ffee58", "#a5d6a7", "#f06292", "#9fa8da", "#8ed0b3"]

  /** The UTF-16 code units of one character, the values `charCodeAt` reports. */
  function CodeUnits(c: char): (u: seq<nat>)
    ensures 1 <= |u| <= 2
    ensures forall i :: 0 <= i < |u| ==> u[i] < 0x1_0000
    ensures (c as int) < 0x1_0000 <==> u == [c as int]
    ensures 0x1_0000 <= c as int ==>
      && |u| == 2 && 0xD800 <= u[0] < 0xDC00 && 0xDC00 <= u[1] < 0xE000
      && (u[0] - 0xD800) * 0x400 + (u[1] - 0xDC00) + 0x1_0000 == c as int
  {
    var n := c as int;
    if n < 0x1_0000 then [n]
    else [0xD800 + (n - 0x1_0000) / 0x400, 0xDC00 + (n - 0x1_0000) % 0x400]
  }

  /** A JavaScript string: the UTF-16 encoding of a sequence of characters. */
  function Utf16(s: string): (u: seq<nat>)
    ensures |u| >= |s|
    ensures forall i :: 0 <= i < |u| ==> u[i] < 0x1_0000
  {
    if s == [] then [] else CodeUnits(s[0]) + Utf16(s[1..])
  }

  /** For text in the basic multilingual plane, `charCodeAt(i)` is the i-th character's code. */
  lemma {:induction false} Utf16Basic(s: string)
    requires forall i :: 0 <= i < |s| ==> (s[i] as int) < 0x1_0000
    ensures |Utf16(s)| == |s|
    ensures forall i :: 0 <= i < |s| ==> Utf16(s)[i] == s[i] as int
  {
    if s != [] {
      Utf16Basic(s[1..]);
    }
  }

  /**
   * The hash after reading `units` left to right: each step multiplies by
   * 31, adds the code unit and reduces modulo the palette size, so it is
   * always a valid palette index.
   */
  function ColorIndex(units: seq<nat>): (n: nat)
    ensures n < |Palette|
  {
    if units == [] then 0
    else (ColorIndex(units[..|units| - 1]) * 31 + units[|units| - 1]) % |Palette|
  }

  /** Adding a multiple of 8 leaves the remainder modulo 8 alone. */
  lemma ShiftMod8(c: int, q: int)
    ensures (c + q * 8) % 8 == c % 8
  {
    var r := c % 8;
    assert c == c / 8 * 8 + r;
    assert c + q * 8 == (c / 8 + q) * 8 + r;
  }

  /** One hash step reduces to the same value from code units that agree modulo 8. */
  lemma StepMod8(n: int, x: int, y: int)
    requires x % 8 == y % 8
    ensures (n * 31 + x) % 8 == (n * 31 + y) % 8
  {
    var c := n * 31 + y % 8;
    assert x == x / 8 * 8 + y % 8;
    assert y == y / 8 * 8 + y % 8;
    ShiftMod8(c, x / 8);
    ShiftMod8(c, y / 8);
  }

  /** Code units that agree modulo the palette size give the same colour. */
  lemma {:induction false} ColorIndexModulo(u: seq<nat>, v: seq<nat>)
    requires |u| == |v|
    requires forall i :: 0 <= i < |u| ==> u[i] % 8 == v[i] % 8
    ensures ColorIndex(u) == ColorIndex(v)
  {
    if u != [] {
      var k := |u| - 1;
      ColorIndexModulo(u[..k], v[..k]);
      StepMod8(ColorIndex(u[..k]), u[k], v[k]);
    }
  }

  /** Ids "a" and "i" are 8 apart in their only code unit, so they share a swatch. */
  lemma SameSwatchExample()
    ensures ColorIndex(Utf16("a")) == ColorIndex(Utf16("i"))
  {
    assert Utf16("a") == ['a' as int] && Utf16("i") == ['i' as int];
    ColorIndexModulo(Utf16("a"), Utf16("i"));
  }

  /** `getListColor(id)`: the loop of app.js over the id's code units. */
  method GetListColor(id: string) returns (color: string)
    ensures color == Palette[ColorIndex(Utf16(id))]
    ensures color in Palette
  {
    var units := Utf16(id);
    var n := 0;
    for i := 0 to |units|
      invariant n == ColorIndex(units[..i])
    {
      assert units[..i + 1][..i] == units[..i] && units[..i + 1][i] == units[i];
      n := (n * 31 + units[i]) % |Palette|;
    }
    assert units[..|units|] == units;
    color := Palette[n];
  }
}
