/**
 * The string helpers the to-do app relies on: JavaScript's
 * `String.prototype.trim`, used on every name and text the user types,
 * and `escapeHtml`, applied to list names and task texts before they are
 * put into markup.
 */
module Text {

  /**
   * The characters `trim` removes: ECMAScript's WhiteSpace (tab, vertical
   * tab, form feed, space, no-break space, byte order mark and the other
   * space separators) and LineTerminator (line feed, carriage return, line
   * and paragraph separator).
   */
  predicate IsSpace(c: char) {
    var n := c as int;
    n == 0x09 || n == 0x0A || n == 0x0B || n == 0x0C || n == 0x0D || n == 0x20 ||
    n == 0xA0 || n == 0x1680 || (0x2000 <= n <= 0x200A) || n == 0x2028 || n == 0x2029 ||
    n == 0x202F || n == 0x205F || n == 0x3000 || n == 0xFEFF
  }

  predicate AllSpace(s: string) {
    forall i :: 0 <= i < |s| ==> IsSpace(s[i])
  }

  /** Drops the leading white space: the longest all-space prefix goes. */
  function TrimStart(s: string): (r: string)
    ensures |r| <= |s| && r == s[|s| - |r|..]
    ensures AllSpace(s[..|s| - |r|])
    ensures r == [] || !IsSpace(r[0])
  {
    if s != [] && IsSpace(s[0]) then TrimStart(s[1..]) else s
  }

  /** Drops the trailing white space: the longest all-space suffix goes. */
  function TrimEnd(s: string): (r: string)
    ensures |r| <= |s| && r == s[..|r|]
    ensures AllSpace(s[|r|..])
    ensures r == [] || !IsSpace(r[|r| - 1])
  {
    if s != [] && IsSpace(s[|s| - 1]) then
      var r := TrimEnd(s[..|s| - 1]);
      assert s[|r|..] == s[..|s| - 1][|r|..] + [s[|s| - 1]];
      r
    else s
  }

  /** `r` is the slice of `s` starting at `a`, and everything outside it is white space. */
  predicate SliceBetweenSpaces(s: string, r: string, a: int) {
    0 <= a && a + |r| <= |s| && r == s[a..a + |r|] && AllSpace(s[..a]) && AllSpace(s[a + |r|..])
  }

  /** Removing an all-space prefix and then an all-space suffix leaves a slice between two all-space edges. */
  lemma TrimSlice(s: string, t: string, r: string)
    requires |t| <= |s| && t == s[|s| - |t|..] && AllSpace(s[..|s| - |t|])
    requires |r| <= |t| && r == t[..|r|] && AllSpace(t[|r|..])
    ensures r == [] ==> AllSpace(s)
    ensures SliceBetweenSpaces(s, r, |s| - |t|)
  {
    var a := |s| - |t|;
    assert s == s[..a] + t;
    assert s[a + |r|..] == t[|r|..];
  }

  /**
   * `s.trim()`: `s` with its leading and trailing white space removed.
   * The result is a slice of `s`, does not start or end with white space,
   * and is empty exactly when `s` is all white space.
   */
  function Trim(s: string): (r: string)
    ensures |r| <= |s|
    ensures r != [] ==> !IsSpace(r[0]) && !IsSpace(r[|r| - 1])
    ensures r == [] <==> AllSpace(s)
    ensures exists a :: SliceBetweenSpaces(s, r, a)
  {
    var t := TrimStart(s);
    var r := TrimEnd(t);
    TrimSlice(s, t, r);
    r
  }

  lemma {:induction false} TrimStartOfUntrimmed(s: string)
    requires s == [] || !IsSpace(s[0])
    ensures TrimStart(s) == s
  {
  }

  lemma {:induction false} TrimEndOfUntrimmed(s: string)
    requires s == [] || !IsSpace(s[|s| - 1])
    ensures TrimEnd(s) == s
  {
  }

  /** Trimming twice is trimming once. */
  lemma {:induction false} TrimIdempotent(s: string)
    ensures Trim(Trim(s)) == Trim(s)
  {
    TrimOfTrimmed(Trim(s));
  }

  /** A string without surrounding white space is left as it is. */
  lemma {:induction false} TrimOfTrimmed(s: string)
    requires s == [] || (!IsSpace(s[0]) && !IsSpace(s[|s| - 1]))
    ensures Trim(s) == s
  {
    TrimStartOfUntrimmed(s);
    assert TrimStart(s) == s;
    TrimEndOfUntrimmed(s);
  }

  /** The characters `escapeHtml` replaces by an entity. */
  predicate IsSpecial(c: char) {
    c == '&' || c == '<' || c == '>' || c == '"' || c == '\''
  }

  /** The characters that can open or close markup or an attribute value. */
  predicate IsMarkup(c: char) {
    c == '<' || c == '>' || c == '"' || c == '\''
  }

  /** The replacement of one character. */
  function Entity(c: char): (r: string)
    ensures IsSpecial(c) <==> r != [c]
    ensures forall i :: 0 <= i < |r| ==> !IsMarkup(r[i])
  {
    if c == '&' then "&amp;"
    else if c == '<' then "&lt;"
    else if c == '>' then "&gt;"
    else if c == '"' then "&quot;"
    else if c == '\'' then "&#39;"
    else [c]
  }

  /**
   * `escapeHtml(s)`: every one of the five special characters replaced by
   * its entity, every other character copied. The result holds no raw
   * `<`, `>`, `"` or `'`.
   */
  function EscapeHtml(s: string): (r: string)
    ensures |r| >= |s|
    ensures forall i :: 0 <= i < |r| ==> !IsMarkup(r[i])
  {
    if s == [] then [] else Entity(s[0]) + EscapeHtml(s[1..])
  }

  /** Escaping works character by character. */
  lemma {:induction false} EscapeHtmlAppend(a: string, b: string)
    ensures EscapeHtml(a + b) == EscapeHtml(a) + EscapeHtml(b)
  {
    if a == [] {
      assert a + b == b;
    } else {
      assert (a + b)[1..] == a[1..] + b;
      EscapeHtmlAppend(a[1..], b);
    }
  }

  /** Text without special characters passes through unchanged. */
  lemma {:induction false} EscapeHtmlPlain(s: string)
    requires forall i :: 0 <= i < |s| ==> !IsSpecial(s[i])
    ensures EscapeHtml(s) == s
  {
    if s != [] {
      EscapeHtmlPlain(s[1..]);
    }
  }

  predicate StartsWith(s: string, p: string) {
    |p| <= |s| && s[..|p|] == p
  }

  /**
   * The first character decoded from `s` and how many characters
   * it took: one of the five entities, or else one plain character.
   */
  function DecodeOne(s: string): (r: (char, nat))
    requires s != []
    ensures 0 < r.1 <= |s|
  {
    if s[0] != '&' then (s[0], 1)
    else if StartsWith(s, "&amp;") then ('&', 5)
    else if StartsWith(s, "&lt;") then ('<', 4)
    else if StartsWith(s, "&gt;") then ('>', 4)
    else if StartsWith(s, "&quot;") then ('"', 6)
    else if StartsWith(s, "&#39;") then ('\'', 5)
    else ('&', 1)
  }

  /** Decoding of the five entities `escapeHtml` emits; every other character is copied. */
  function UnescapeHtml(s: string): string
    decreases |s|
  {
    if s == [] then []
    else
      var (c, n) := DecodeOne(s);
      [c] + UnescapeHtml(s[n..])
  }

  lemma DecodeEntity(c: char, t: string)
    ensures DecodeOne(Entity(c) + t) == (c, |Entity(c)|)
  {
    var e := Entity(c);
    var s := e + t;
    assert s[..|e|] == e;
    if c == '&' {
      assert StartsWith(s, "&amp;");
    } else if c == '<' {
      assert s[1] == 'l' && !StartsWith(s, "&amp;");
    } else if c == '>' {
      assert s[1] == 'g' && !StartsWith(s, "&amp;") && !StartsWith(s, "&lt;");
    } else if c == '"' {
      assert s[1] == 'q' && !StartsWith(s, "&amp;") && !StartsWith(s, "&lt;") && !StartsWith(s, "&gt;");
    } else if c == '\'' {
      assert s[1] == '#' && !StartsWith(s, "&amp;") && !StartsWith(s, "&lt;") && !StartsWith(s, "&gt;");
      assert !StartsWith(s, "&quot;");
    } else {
      assert s[0] == c;
    }
  }

  lemma UnescapeEntity(c: char, t: string)
    ensures UnescapeHtml(Entity(c) + t) == [c] + UnescapeHtml(t)
  {
    var s := Entity(c) + t;
    DecodeEntity(c, t);
    assert s[|Entity(c)|..] == t;
  }

  /** Escaping loses nothing: decoding the five entities gives back the original text. */
  lemma {:induction false} UnescapeEscapeHtml(s: string)
    ensures UnescapeHtml(EscapeHtml(s)) == s
  {
    if s != [] {
      UnescapeEntity(s[0], EscapeHtml(s[1..]));
      UnescapeEscapeHtml(s[1..]);
    }
  }

  /** Hence two different texts never render the same. */
  lemma EscapeHtmlInjective(a: string, b: string)
    requires EscapeHtml(a) == EscapeHtml(b)
    ensures a == b
  {
    UnescapeEscapeHtml(a);
    UnescapeEscapeHtml(b);
  }
}
