/**
 * `pw.ollie.args.Argument`: an immutable wrapper around one raw string,
 * with typed parses that can fail, lenient conversions that cannot, and
 * predicates saying whether each parse would succeed. Operations that look
 * like modifications return a new `Argument`; being a datatype value, the
 * receiver can never change.
 */
module Args {
  import opened JavaLang
  import opened Decimal
  import opened JavaString

  datatype Argument = Argument(raw: string) {

    /** `get()`: the raw string, from which the argument is rebuilt exactly. */
    function Get(): (r: string)
      ensures Argument(r) == this
    {
      raw
    }

    /** `asInt()`, which is `Integer.parseInt(raw)`. */
    function AsInt(): (r: Result<int32, Exception>)
      ensures r.Ok? <==> IsLiteral(raw) && INT_MIN <= LiteralValue(raw) <= INT_MAX
      ensures r.Ok? ==> r.value == LiteralValue(raw)
      ensures r.Err? ==> r.error == NumberFormat
    {
      ParseDecimalMatchesGrammar(raw, W32);
      match ParseDecimal(raw, W32)
      case Ok(v) => Ok(v)
      case Err(e) => Err(e)
    }

    /** `asLong()`, which is `Long.parseLong(raw)`. */
    function AsLong(): (r: Result<int64, Exception>)
      ensures r.Ok? <==> IsLiteral(raw) && LONG_MIN <= LiteralValue(raw) <= LONG_MAX
      ensures r.Ok? ==> r.value == LiteralValue(raw)
      ensures r.Err? ==> r.error == NumberFormat
    {
      ParseDecimalMatchesGrammar(raw, W64);
      match ParseDecimal(raw, W64)
      case Ok(v) => Ok(v)
      case Err(e) => Err(e)
    }

    /** `asShort()`, which is `Short.parseShort(raw)`. */
    function AsShort(): (r: Result<int16, Exception>)
      ensures r.Ok? <==> IsLiteral(raw) && SHORT_MIN <= LiteralValue(raw) <= SHORT_MAX
      ensures r.Ok? ==> r.value == LiteralValue(raw)
      ensures r.Err? ==> r.error == NumberFormat
    {
      ParseShortMatchesGrammar(raw);
      match ParseShort(raw)
      case Ok(v) => Ok(v)
      case Err(e) => Err(e)
    }

    /** `isInt()`: `asInt()` is attempted and a `NumberFormatException` caught. */
    function IsInt(): (r: bool)
      ensures r <==> IsLiteral(raw) && INT_MIN <= LiteralValue(raw) <= INT_MAX
    {
      AsInt().Ok?
    }

    /** `isLong()`, by attempting `asLong()`. */
    function IsLong(): (r: bool)
      ensures r <==> IsLiteral(raw) && LONG_MIN <= LiteralValue(raw) <= LONG_MAX
    {
      AsLong().Ok?
    }

    /** `isShort()`, by attempting `asShort()`. */
    function IsShort(): (r: bool)
      ensures r <==> IsLiteral(raw) && SHORT_MIN <= LiteralValue(raw) <= SHORT_MAX
    {
      AsShort().Ok?
    }

    /**
     * `asBoolean()`, which is `Boolean.valueOf(raw)`, that is
     * `"true".equalsIgnoreCase(raw)`. It never fails.
     */
    function AsBoolean(): (r: bool)
      ensures r <==> ToLowerAsciiString(raw) == "true"
    {
      EqualsIgnoreCaseLowerWord("true", raw);
      EqualsIgnoreCase("true", raw)
    }

    /** `isBoolean()`, which compares case-sensitively, unlike `asBoolean()`. */
    function IsBoolean(): (r: bool)
      ensures r <==> raw == "true" || raw == "false"
      ensures r ==> (AsBoolean() <==> raw == "true")
    {
      raw == "true" || raw == "false"
    }

    /** `asChar()`: the only character, or `null` for any other length. */
    function AsChar(): (r: Option<char>)
      ensures r.Some? <==> |raw| == 1
      ensures r.Some? ==> raw == [r.value]
    {
      if |raw| == 1 then Some(raw[0]) else None
    }

    /** `isChar()`. */
    function IsChar(): (r: bool)
      ensures r <==> AsChar().Some?
    {
      |raw| == 1
    }

    /** `getIntern()`: interning yields a string equal to `raw`. */
    function GetIntern(): (r: string)
      ensures Argument(r) == this
    {
      raw
    }

    /** `toString()`, also `raw.intern()`. */
    function ToString(): (r: string)
      ensures Argument(r) == this
    {
      raw
    }

    /** `concat(string)`: `String.concat` throws on a `null` argument. */
    function Concat(s: Option<string>): (r: Result<Argument, Exception>)
      ensures s.None? ==> r == Err(NullPointer)
      ensures s.Some? ==> r.Ok? && r.value.raw == raw + s.value
    {
      match s
      case None => Err(NullPointer)
      case Some(str) => Ok(Argument(raw + str))
    }

    /**
     * `substring(beginIndex, endIndex)`, with the three checks
     * `String.substring` makes in turn.
     */
    function Substring(beginIndex: int, endIndex: int): (r: Result<Argument, Exception>)
      ensures r.Ok? <==> 0 <= beginIndex <= endIndex <= |raw|
      ensures r.Ok? ==> r.value.raw == raw[beginIndex..endIndex]
      ensures r.Err? ==> r.error == StringIndexOutOfBounds
    {
      if beginIndex < 0 then Err(StringIndexOutOfBounds)
      else if endIndex > |raw| then Err(StringIndexOutOfBounds)
      else if endIndex - beginIndex < 0 then Err(StringIndexOutOfBounds)
      else Ok(Argument(raw[beginIndex..endIndex]))
    }

    /** `substring(beginIndex)`: the suffix from `beginIndex`. */
    function SubstringFrom(beginIndex: int): (r: Result<Argument, Exception>)
      ensures r == Substring(beginIndex, |raw|)
    {
      if beginIndex < 0 then Err(StringIndexOutOfBounds)
      else if |raw| - beginIndex < 0 then Err(StringIndexOutOfBounds)
      else
        assert raw[beginIndex..] == raw[beginIndex..|raw|];
        Ok(Argument(raw[beginIndex..]))
    }

    /** `toCharArray()`: a new array holding the characters of `raw`. */
    method ToCharArray() returns (chars: array<char>)
      ensures fresh(chars)
      ensures chars[..] == raw
    {
      chars := new char[|raw|](i requires 0 <= i < |raw| => raw[i]);
    }

    /**
     * `equals(Object)`; `None` stands for `null` or for an object that is not
     * an `Argument`. Equality of raw strings is identity of arguments.
     */
    function Equals(other: Option<Argument>): (r: bool)
      ensures r <==> other == Some(this)
    {
      other.Some? && other.value.raw == raw
    }

    /** `hashCode()`, which is `raw.hashCode()`. */
    function HashCode(): (h: int32)
      ensures h == Wrap32(PolynomialHash(raw))
    {
      JavaString.HashCode(raw)
    }
  }

  /** `new Argument(arg)`: `null` is refused, any string is kept unchanged. */
  function New(arg: Option<string>): (r: Result<Argument, Exception>)
    ensures arg.None? ==> r == Err(IllegalArgument)
    ensures arg.Some? ==> r.Ok? && r.value.Get() == arg.value
  {
    match arg
    case None => Err(IllegalArgument)
    case Some(s) => Ok(Argument(s))
  }

  /**
   * The accepted sets nest (`short` within `int` within `long`) and the
   * parses agree where several succeed.
   */
  lemma IntegerParsesNest(a: Argument)
    ensures a.IsShort() ==> a.IsInt() && a.AsInt().value == a.AsShort().value
    ensures a.IsInt() ==> a.IsLong() && a.AsLong().value == a.AsInt().value
  {
  }

  /** Equal arguments have equal hash codes. */
  lemma EqualsImpliesSameHashCode(a: Argument, b: Argument)
    requires a.Equals(Some(b))
    ensures a.HashCode() == b.HashCode()
  {
  }

  /** Equality is reflexive, symmetric and transitive. */
  lemma EqualsIsEquivalence(a: Argument, b: Argument, c: Argument)
    ensures a.Equals(Some(a))
    ensures a.Equals(Some(b)) ==> b.Equals(Some(a))
    ensures a.Equals(Some(b)) && b.Equals(Some(c)) ==> a.Equals(Some(c))
  {
  }

  /** Substrings undo a concatenation. */
  lemma SubstringsOfConcat(a: Argument, s: string)
    ensures a.Concat(Some(s)).value.Substring(0, |a.raw|) == Ok(a)
    ensures a.Concat(Some(s)).value.SubstringFrom(|a.raw|) == Ok(Argument(s))
  {
  }

  /** Concatenating the two sides of a split gives the argument back. */
  lemma ConcatOfSplit(a: Argument, k: int)
    requires 0 <= k <= |a.raw|
    ensures a.Substring(0, k).value.Concat(Some(a.SubstringFrom(k).value.raw)) == Ok(a)
  {
    assert a.raw[0..k] + a.raw[k..] == a.raw;
  }

  /** A lone sign, a trailing letter and the empty string are not integers. */
  lemma IntRejectsMalformed()
    ensures Argument("").AsInt() == Err(NumberFormat)
    ensures Argument("+").AsInt() == Err(NumberFormat)
    ensures Argument("-").AsInt() == Err(NumberFormat)
    ensures Argument("-").AsLong() == Err(NumberFormat)
    ensures Argument("12a").AsInt() == Err(NumberFormat)
  {
  }

  /** A leading `+` and leading zeros are accepted. */
  lemma IntAcceptsSignAndZeros()
    ensures Argument("+007").AsInt() == Ok(7)
    ensures Argument("-0").AsShort() == Ok(0)
  {
    assert Magnitude("+007") == "007";
    assert "007"[..2] == "00" && "00"[..1] == "0" && "0"[..0] == "";
    assert Magnitude("-0") == "0";
  }

  /** The value of the first five digits of 2^31. */
  lemma DigitsOf21474()
    ensures AllDigits("21474") && DigitsValue("21474") == 21474
  {
    assert "2"[..0] == "";
    assert DigitsValue("2") == 2;
    assert "21"[..1] == "2";
    assert DigitsValue("21") == 21;
    assert "214"[..2] == "21";
    assert DigitsValue("214") == 214;
    assert "2147"[..3] == "214";
    assert DigitsValue("2147") == 2147;
    assert "21474"[..4] == "2147";
    assert DigitsValue("21474") == 21474;
  }

  /** The digits of 2^31, which is one more than the largest `int`. */
  lemma DigitsOfTwoToThe31()
    ensures AllDigits("2147483648") && DigitsValue("2147483648") == 2147483648
  {
    DigitsOf21474();
    assert "214748"[..5] == "21474";
    assert DigitsValue("214748") == 214748;
    assert "2147483"[..6] == "214748";
    assert DigitsValue("2147483") == 2147483;
    assert "21474836"[..7] == "2147483";
    assert DigitsValue("21474836") == 21474836;
    assert "214748364"[..8] == "21474836";
    assert DigitsValue("214748364") == 214748364;
    assert "2147483648"[..9] == "214748364";
    assert DigitsValue("2147483648") == 2147483648;
  }

  lemma DigitsOf40000()
    ensures AllDigits("40000") && DigitsValue("40000") == 40000
  {
    assert "4"[..0] == "";
    assert DigitsValue("4") == 4;
    assert "40"[..1] == "4";
    assert DigitsValue("40") == 40;
    assert "400"[..2] == "40";
    assert DigitsValue("400") == 400;
    assert "4000"[..3] == "400";
    assert DigitsValue("4000") == 4000;
    assert "40000"[..4] == "4000";
    assert DigitsValue("40000") == 40000;
  }

  /** The accepted range ends exactly at the `int` bounds; `long` goes further. */
  lemma IntRangeEnds()
    ensures Argument("-2147483648").AsInt() == Ok(INT_MIN)
    ensures Argument("2147483648").AsInt() == Err(NumberFormat)
    ensures Argument("2147483648").AsLong() == Ok(INT_MAX + 1)
  {
    assert Magnitude("2147483648") == "2147483648";
    DigitsOfTwoToThe31();
    assert Magnitude("-2147483648") == "2147483648";
    assert LiteralValue("-2147483648") == -2147483648;
  }

  /** 40000 is an `int` but not a `short`. */
  lemma ShortRangeEnds()
    ensures Argument("40000").IsInt() && !Argument("40000").IsShort()
  {
    assert Magnitude("40000") == "40000";
    DigitsOf40000();
  }

  /** `asBoolean()` ignores case and never fails; `isBoolean()` does not ignore case. */
  lemma BooleanExamples()
    ensures Argument("TRUE").AsBoolean() && !Argument("TRUE").IsBoolean()
    ensures Argument("TrUe").AsBoolean() && Argument("true").AsBoolean()
    ensures !Argument("1").AsBoolean() && !Argument("").AsBoolean() && !Argument("yes").AsBoolean()
    ensures Argument("false").IsBoolean() && !Argument("false").AsBoolean()
  {
  }

  /** `asChar()` is absent for the empty string and for two characters. */
  lemma CharExamples()
    ensures Argument("x").AsChar() == Some('x')
    ensures Argument("").AsChar() == None && Argument("xy").AsChar() == None
  {
  }

  /** `substring` on one string: a valid range, then each of the three index errors. */
  lemma SubstringExamples()
    ensures Argument("abcdefgh").Substring(2, 5) == Ok(Argument("cde"))
    ensures Argument("abcdefgh").Substring(10, 2) == Err(StringIndexOutOfBounds)
    ensures Argument("abcdefgh").Substring(-1, 2) == Err(StringIndexOutOfBounds)
    ensures Argument("abcdefgh").Substring(5, 2) == Err(StringIndexOutOfBounds)
  {
    assert "abcdefgh"[2..5] == "cde";
  }
}
