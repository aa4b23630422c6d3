/**
 * The `java.lang.String` operations the argument wrapper delegates to that
 * take more than one line to state: `equalsIgnoreCase` and `hashCode`.
 */
module JavaString {
  import opened JavaLang

  function ToUpperAscii(c: char): char {
    if 'a' <= c <= 'z' then (c as int - 'a' as int + 'A' as int) as char else c
  }

  function ToLowerAscii(c: char): char {
    if 'A' <= c <= 'Z' then (c as int - 'A' as int + 'a' as int) as char else c
  }

  /** The string with every ASCII capital replaced by its lower-case letter. */
  function ToLowerAsciiString(s: string): (r: string)
    ensures |r| == |s|
    ensures forall i | 0 <= i < |s| :: r[i] == ToLowerAscii(s[i])
  {
    seq(|s|, i requires 0 <= i < |s| => ToLowerAscii(s[i]))
  }

  /**
   * The per-character test of `String.regionMatches(true, ...)`: the two
   * characters are equal, or their upper-case forms are, or the lower-case
   * forms of their upper-case forms are. With ASCII case mapping this is
   * equality of the lower-case forms.
   */
  function CharEqualsIgnoreCase(c1: char, c2: char): (r: bool)
    ensures r <==> ToLowerAscii(c1) == ToLowerAscii(c2)
  {
    || c1 == c2
    || ToUpperAscii(c1) == ToUpperAscii(c2)
    || ToLowerAscii(ToUpperAscii(c1)) == ToLowerAscii(ToUpperAscii(c2))
  }

  /** Lower-casing a non-empty string lower-cases its first character and the rest. */
  lemma LowerStringSplit(s: string)
    requires s != []
    ensures ToLowerAsciiString(s) == [ToLowerAscii(s[0])] + ToLowerAsciiString(s[1..])
  {
    assert forall i | 1 <= i < |s| :: s[i] == s[1..][i - 1];
  }

  /** Two strings of equal length agree exactly when their first characters and their rests do. */
  lemma ConsEquals(a: char, x: string, b: char, y: string)
    requires |x| == |y|
    ensures [a] + x == [b] + y <==> a == b && x == y
  {
    if [a] + x == [b] + y {
      assert a == ([a] + x)[0];
      assert x == ([a] + x)[1..];
      assert y == ([b] + y)[1..];
    }
  }

  /**
   * `String.regionMatches(true, 0, y, 0, |x|)` on strings of equal length:
   * it holds exactly when the two strings lower-case to the same string.
   */
  function RegionMatchesIgnoreCase(x: string, y: string): (r: bool)
    requires |x| == |y|
    ensures r <==> ToLowerAsciiString(x) == ToLowerAsciiString(y)
    decreases |x|
  {
    if x == [] then true
    else
      LowerStringSplit(x);
      LowerStringSplit(y);
      ConsEquals(ToLowerAscii(x[0]), ToLowerAsciiString(x[1..]), ToLowerAscii(y[0]), ToLowerAsciiString(y[1..]));
      CharEqualsIgnoreCase(x[0], y[0]) && RegionMatchesIgnoreCase(x[1..], y[1..])
  }

  /**
   * `x.equalsIgnoreCase(y)` for a non-null `y`: equal lengths and matching
   * regions, which is equality after lower-casing.
   */
  function EqualsIgnoreCase(x: string, y: string): (r: bool)
    ensures r <==> ToLowerAsciiString(x) == ToLowerAsciiString(y)
  {
    |x| == |y| && RegionMatchesIgnoreCase(x, y)
  }

  /**
   * `t.equalsIgnoreCase(x)` for an all-lower-case ASCII word `t` holds
   * exactly when `x` lower-cases to `t`.
   */
  lemma EqualsIgnoreCaseLowerWord(t: string, x: string)
    requires forall i | 0 <= i < |t| :: 'a' <= t[i] <= 'z'
    ensures EqualsIgnoreCase(t, x) <==> ToLowerAsciiString(x) == t
  {
    assert ToLowerAsciiString(t) == t;
  }

  /** The documented formula `s[0]*31^(n-1) + ... + s[n-1]`, without wrap-around. */
  function PolynomialHash(s: string): int {
    if s == [] then 0 else 31 * PolynomialHash(s[..|s| - 1]) + s[|s| - 1] as int
  }

  /** One step `h = 31 * h + c` gives the same `int` whether `h` was wrapped before it or not. */
  lemma WrapHornerStep(h: int, p: int, c: int)
    requires h == Wrap32(p)
    ensures Wrap32(31 * h + c) == Wrap32(31 * p + c)
  {
    var k := (h - p) / 0x1_0000_0000;
    assert h - p == k * 0x1_0000_0000;
    assert (31 * h + c) - (31 * p + c) == (31 * k) * 0x1_0000_0000;
    WrapCongruent(31 * h + c, 31 * p + c, 31 * k);
  }

  /**
   * `String.hashCode()` as the JDK computes it: `h = 31 * h + c` over the
   * characters, wrapped to `int` at every step. That is the documented
   * polynomial reduced into the `int` range once.
   */
  function HashCode(s: string): (h: int32)
    ensures h == Wrap32(PolynomialHash(s))
    decreases |s|
  {
    if s == [] then 0
    else
      var h' := HashCode(s[..|s| - 1]);
      WrapHornerStep(h', PolynomialHash(s[..|s| - 1]), s[|s| - 1] as int);
      Wrap32(31 * h' + s[|s| - 1] as int)
  }
}
