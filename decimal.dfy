/**
 * Decimal integer parsing as `Integer.parseInt`, `Long.parseLong` and
 * `Short.parseShort` perform it, and the grammar it implements.
 *
 * The grammar (`IsLiteral`, `LiteralValue`) is the reference: an optional
 * leading `+` or `-`, then one or more decimal digits. The parser
 * (`ParseDecimal`) follows the JDK's algorithm step by step: it accumulates
 * the value as a negative number, and before each step it checks against
 * `multmin` (the limit divided by ten, rounded toward zero) and then against
 * the limit itself, so that no intermediate value leaves the integer type.
 * `ParseDecimalMatchesGrammar` proves the two agree on every string.
 */
module Decimal {
  import opened JavaLang

  /** The two widths the JDK parser is instantiated at: `int` and `long`. */
  datatype Width = W32 | W64 {
    function Min(): int {
      match this
      case W32 => INT_MIN
      case W64 => LONG_MIN
    }

    function Max(): int {
      -Min() - 1
    }
  }

  // ---------------------------------------------------------------------
  // The grammar
  // ---------------------------------------------------------------------

  /** ASCII decimal digits; the JDK also accepts other Unicode digits. */
  predicate IsDigit(c: char) {
    '0' <= c <= '9'
  }

  /** `Character.digit(c, 10)` restricted to ASCII: the digit's value, or -1. */
  function DigitValue(c: char): (d: int)
    ensures IsDigit(c) ==> 0 <= d <= 9
    ensures !IsDigit(c) ==> d == -1
  {
    if IsDigit(c) then (c as int) - ('0' as int) else -1
  }

  predicate AllDigits(s: string) {
    forall i | 0 <= i < |s| :: IsDigit(s[i])
  }

  /** The value of a string of digits, read most significant digit first. */
  function DigitsValue(ds: string): (v: int)
    requires AllDigits(ds)
    ensures v >= 0
  {
    if ds == [] then 0 else DigitsValue(ds[..|ds| - 1]) * 10 + DigitValue(ds[|ds| - 1])
  }

  predicate HasSign(s: string) {
    |s| > 0 && (s[0] == '+' || s[0] == '-')
  }

  /** The string with its sign, if any, removed. */
  function Magnitude(s: string): string {
    if HasSign(s) then s[1..] else s
  }

  /** An optional sign followed by one or more decimal digits. */
  predicate IsLiteral(s: string) {
    |Magnitude(s)| > 0 && AllDigits(Magnitude(s))
  }

  /** The number a literal denotes. */
  function LiteralValue(s: string): int
    requires IsLiteral(s)
  {
    if s[0] == '-' then -DigitsValue(Magnitude(s)) else DigitsValue(Magnitude(s))
  }

  /** What parsing at width `w` must return by the grammar alone. */
  function Expected(s: string, lo: int, hi: int): Result<int, Exception> {
    if IsLiteral(s) && lo <= LiteralValue(s) <= hi then Ok(LiteralValue(s)) else Err(NumberFormat)
  }

  // ---------------------------------------------------------------------
  // The JDK parser
  // ---------------------------------------------------------------------

  /**
   * The digit loop of the JDK parser. `result` is minus the value of the
   * digits consumed so far and never drops below `limit`.
   */
  function Accumulate(digits: string, result: int, limit: int, multmin: int): (r: Option<int>)
    requires limit < 0 && multmin == Quot(limit, 10)
    requires limit <= result <= 0
    ensures r.Some? ==> limit <= r.value <= 0
    decreases |digits|
  {
    if digits == [] then Some(result)
    else
      var digit := DigitValue(digits[0]);
      if digit < 0 then None
      else if result < multmin then None
      else
        NoIntermediateOverflow(result, limit);
        if result * 10 < limit + digit then None
        else Accumulate(digits[1..], result * 10 - digit, limit, multmin)
  }

  /**
   * `Integer.parseInt(s)` (at `W32`) and `Long.parseLong(s)` (at `W64`).
   * A first character below `'0'` must be a sign and must not stand alone.
   */
  function ParseDecimal(s: string, w: Width): (r: Result<int, Exception>)
    ensures r.Ok? ==> w.Min() <= r.value <= w.Max()
    ensures r.Err? ==> r.error == NumberFormat
  {
    if |s| == 0 then Err(NumberFormat)
    else
      var first := s[0];
      if first < '0' && first != '-' && first != '+' then Err(NumberFormat)
      else if first < '0' && |s| == 1 then Err(NumberFormat)
      else
        var negative := first == '-';
        var limit := if negative then w.Min() else -w.Max();
        var start := if first < '0' then 1 else 0;
        match Accumulate(s[start..], 0, limit, Quot(limit, 10))
        case None => Err(NumberFormat)
        case Some(result) => Ok(if negative then result else -result)
  }

  /** `Short.parseShort(s)`: `Integer.parseInt(s)` followed by a range check. */
  function ParseShort(s: string): (r: Result<int, Exception>)
    ensures r.Ok? ==> SHORT_MIN <= r.value <= SHORT_MAX
    ensures r.Err? ==> r.error == NumberFormat
  {
    match ParseDecimal(s, W32)
    case Err(e) => Err(e)
    case Ok(i) => if i < SHORT_MIN || i > SHORT_MAX then Err(NumberFormat) else Ok(i)
  }

  // ---------------------------------------------------------------------
  // The parser implements the grammar
  // ---------------------------------------------------------------------

  /** The JDK's `result *= radix` after the `multmin` check cannot overflow. */
  lemma NoIntermediateOverflow(result: int, limit: int)
    requires limit < 0
    requires Quot(limit, 10) <= result <= 0
    ensures limit <= result * 10 <= 0
  {
  }

  /** Failing the `multmin` check means the value is already out of range after one more digit. */
  lemma MultminRejects(magnitude: int, limit: int)
    requires limit < 0
    requires -magnitude < Quot(limit, 10)
    ensures magnitude * 10 > -limit
  {
    var m := -limit;
    assert Quot(limit, 10) == -(m / 10);
    assert magnitude * 10 >= (m / 10) * 10 + 10;
  }

  lemma DigitsValueAppend(p: string, c: char)
    requires AllDigits(p) && IsDigit(c)
    ensures AllDigits(p + [c])
    ensures DigitsValue(p + [c]) == DigitsValue(p) * 10 + DigitValue(c)
  {
  }

  /** Appending digits never makes the value smaller. */
  lemma {:induction false} DigitsValueMonotone(p: string, q: string)
    requires AllDigits(p) && AllDigits(q)
    ensures AllDigits(p + q)
    ensures DigitsValue(p + q) >= DigitsValue(p)
    decreases |q|
  {
    if q == [] {
      assert p + q == p;
    } else {
      var q' := q[..|q| - 1];
      DigitsValueMonotone(p, q');
      assert p + q == (p + q') + [q[|q| - 1]];
      DigitsValueAppend(p + q', q[|q| - 1]);
    }
  }

  /**
   * The two overflow checks of one step of the digit loop together reject
   * exactly when the magnitude after the digit would exceed `-limit`.
   */
  lemma StepRejectsExactlyOverflow(magnitude: int, digit: int, limit: int)
    requires limit < 0 && 0 <= magnitude <= -limit && 0 <= digit <= 9
    ensures (-magnitude < Quot(limit, 10) || -magnitude * 10 < limit + digit)
            <==> magnitude * 10 + digit > -limit
  {
    if -magnitude < Quot(limit, 10) {
      MultminRejects(magnitude, limit);
    }
  }

  /** Splitting off the first character of the digits still to be read. */
  lemma SplitFirst(prefix: string, ds: string)
    requires ds != []
    ensures prefix + ds == (prefix + [ds[0]]) + ds[1..]
    ensures AllDigits(ds) <==> IsDigit(ds[0]) && AllDigits(ds[1..])
  {
    assert ds == [ds[0]] + ds[1..];
    if IsDigit(ds[0]) && AllDigits(ds[1..]) {
      assert forall i | 1 <= i < |ds| :: ds[i] == ds[1..][i - 1];
    }
  }

  /**
   * The digit loop, started after the digits `prefix`, succeeds exactly when
   * the rest are digits and the whole value stays within `-limit`, and then
   * returns minus that value.
   */
  lemma {:induction false} AccumulateMatchesValue(prefix: string, ds: string, limit: int)
    requires limit < 0
    requires AllDigits(prefix) && DigitsValue(prefix) <= -limit
    ensures AllDigits(ds) ==> AllDigits(prefix + ds)
    ensures Accumulate(ds, -DigitsValue(prefix), limit, Quot(limit, 10)) ==
            if AllDigits(ds) && DigitsValue(prefix + ds) <= -limit
            then Some(-DigitsValue(prefix + ds)) else None
    decreases |ds|
  {
    var multmin := Quot(limit, 10);
    var magnitude := DigitsValue(prefix);
    if ds == [] {
      assert prefix + ds == prefix;
    } else {
      var c, rest := ds[0], ds[1..];
      SplitFirst(prefix, ds);
      if IsDigit(c) {
        DigitsValueAppend(prefix, c);
        var next := DigitsValue(prefix + [c]);
        var digit := DigitValue(c);
        StepRejectsExactlyOverflow(magnitude, digit, limit);
        if next > -limit {
          assert Accumulate(ds, -magnitude, limit, multmin) == None;
          if AllDigits(rest) {
            DigitsValueMonotone(prefix + [c], rest);
          }
        } else {
          assert Accumulate(ds, -magnitude, limit, multmin) == Accumulate(rest, -next, limit, multmin);
          AccumulateMatchesValue(prefix + [c], rest, limit);
        }
      }
    }
  }

  /**
   * `Integer.parseInt` and `Long.parseLong` accept exactly the literals of
   * the grammar whose value fits the width, and return that value.
   */
  lemma ParseDecimalMatchesGrammar(s: string, w: Width)
    ensures ParseDecimal(s, w) == Expected(s, w.Min(), w.Max())
  {
    if |s| > 0 {
      var first := s[0];
      if first < '0' && first != '-' && first != '+' {
        assert !IsDigit(s[0]);
      } else if first < '0' && |s| == 1 {
        assert Magnitude(s) == [];
      } else {
        AcceptedMagnitude(s, w);
      }
    }
  }

  /** The case of `ParseDecimalMatchesGrammar` where the digit loop runs. */
  lemma AcceptedMagnitude(s: string, w: Width)
    requires |s| > 0 && (s[0] < '0' ==> HasSign(s) && |s| > 1)
    ensures ParseDecimal(s, w) == Expected(s, w.Min(), w.Max())
  {
    var ds := Magnitude(s);
    assert ds == s[if s[0] < '0' then 1 else 0..];
    assert DigitsValue([]) == 0 && [] + ds == ds;
    if s[0] == '-' {
      NegativeLiteral(s, w.Min());
    } else {
      NonNegativeLiteral(s, w.Max());
    }
  }

  /** With a leading `-`, the digit loop runs with the width's minimum as its limit. */
  lemma NegativeLiteral(s: string, min: int)
    requires min < 0 && |s| > 1 && s[0] == '-'
    ensures var acc := Accumulate(s[1..], 0, min, Quot(min, 10));
            (if acc.None? then Err(NumberFormat) else Ok(acc.value)) == Expected(s, min, -min - 1)
  {
    var ds := s[1..];
    assert Magnitude(s) == ds && [] + ds == ds && DigitsValue([]) == 0;
    AccumulateMatchesValue([], ds, min);
  }

  /** Without a `-`, the digit loop runs with minus the width's maximum as its limit. */
  lemma NonNegativeLiteral(s: string, max: int)
    requires max > 0 && |s| > 0 && s[0] != '-' && (s[0] < '0' ==> s[0] == '+' && |s| > 1)
    ensures var ds := if s[0] < '0' then s[1..] else s;
            var acc := Accumulate(ds, 0, -max, Quot(-max, 10));
            (if acc.None? then Err(NumberFormat) else Ok(-acc.value)) == Expected(s, -max - 1, max)
  {
    var ds := if s[0] < '0' then s[1..] else s;
    assert Magnitude(s) == ds && [] + ds == ds && DigitsValue([]) == 0;
    AccumulateMatchesValue([], ds, -max);
  }

  /** `Short.parseShort` accepts exactly the literals whose value fits a `short`. */
  lemma ParseShortMatchesGrammar(s: string)
    ensures ParseShort(s) == Expected(s, SHORT_MIN, SHORT_MAX)
  {
    ParseDecimalMatchesGrammar(s, W32);
  }
}
