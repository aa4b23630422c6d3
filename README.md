# jlibargs `Argument`, modelled in Dafny

`pw.ollie.args.Argument` is an immutable wrapper around one raw command-line
string. It parses that string into typed values. `asInt`, `asLong` and
`asShort` throw `NumberFormatException` on bad input. `asBoolean` and `asChar`
never throw. Each conversion has an `is…` predicate that says whether it would
succeed. `concat` and the two `substring` overloads return new arguments.
Equality and hashing depend only on the raw string.

The model has four modules:

- `JavaLang` (`java_lang.dfy`): `Option` (where `None` is `null`), `Result`
  (a value or a thrown exception), the exception kinds, and the `short`/`int`/`long`
  ranges as subset types. It also defines Java's truncating division `Quot`
  (characterised by `QuotRoundsTowardZero`) and 32-bit wrap-around `Wrap32`. Dafny's own integers are unbounded and
  divide Euclidean-style, so both are written out.
- `Decimal` (`decimal.dfy`): the decimal integer grammar used by
  `Integer.parseInt`, `Long.parseLong` and `Short.parseShort`, in two forms:
  - a reference grammar (`IsLiteral`, `LiteralValue`): an optional `+` or `-`,
    then one or more ASCII digits;
  - the JDK's algorithm, step by step (`ParseDecimal`, `Accumulate`). It builds
    the value as a negative number and, before each digit, checks against
    `multmin` (the limit divided by ten, rounded toward zero) and then against
    the limit itself.
  
  `ParseDecimalMatchesGrammar` proves that the algorithm accepts exactly the
  literals whose value fits the width, and returns that value.
  `Accumulate` keeps its accumulator between the limit and zero (its
  precondition and postcondition). Before its limit test it calls
  `NoIntermediateOverflow`, which shows that `result * 10` stays in that range
  too once the `multmin` check has passed. So no intermediate value of the
  loop leaves the width, and unbounded integers model the JDK arithmetic
  faithfully.
- `JavaString` (`java_string.dfy`): `String.equalsIgnoreCase`, built from the
  per-character rule of `regionMatches` and proved equal to equality after
  ASCII lower-casing, and `String.hashCode`. The hash wraps
  at every step, as the JDK computes it, and is proved equal to the documented
  polynomial reduced once.
- `Args` (`argument.dfy`): the `Argument` datatype, its operations as member
  functions, and lemmas connecting them.

Every operation is a pure function of the raw string and its explicit
inputs, so `Argument` is a datatype with member functions. Immutability
follows from that: no operation can change its receiver. `toCharArray` is the
one method, because it returns a freshly allocated array.

`Short.parseShort` in the JDK calls `Integer.parseInt` and then range-checks
the `int` result. `ParseShort` models it that way. The source's `concat`
passes its argument to `String.concat`, which throws `NullPointerException`
on `null`. The model keeps this. The wrapper itself does not check for `null` here; the exception comes from the JDK.

## Model

| member | source | states |
|---|---|---|
| `Args.New` | src/main/java/pw/ollie/args/Argument.java:46-51 | a `null` string throws `IllegalArgumentException`; any other string is stored unchanged, so `get()` returns it exactly, including `""` |
| `Args.Argument.Get` | src/main/java/pw/ollie/args/Argument.java:58-60 | the returned string rebuilds the very same argument |
| `Args.Argument.AsInt` | src/main/java/pw/ollie/args/Argument.java:68-70 | succeeds exactly when `raw` is an optional sign and one or more digits whose value lies in the `int` range, and then returns that value; otherwise throws `NumberFormatException` |
| `Args.Argument.AsLong` | src/main/java/pw/ollie/args/Argument.java:98-100 | the same grammar with the `long` range |
| `Args.Argument.AsShort` | src/main/java/pw/ollie/args/Argument.java:108-110 | the same grammar with the `short` range |
| `Args.Argument.AsBoolean` | src/main/java/pw/ollie/args/Argument.java:117-119 | total; true exactly when `raw` lower-cases to `"true"` (any mix of upper and lower case), false for everything else |
| `Args.Argument.AsChar` | src/main/java/pw/ollie/args/Argument.java:127-129 | present exactly when `raw` has length 1, and then `raw` is that one character; absent (not an exception) otherwise |
| `Args.Argument.IsInt` | src/main/java/pw/ollie/args/Argument.java:136-143 | true exactly when `raw` is a literal of the grammar with a value in the `int` range, that is, exactly when `asInt` returns |
| `Args.Argument.IsLong` | src/main/java/pw/ollie/args/Argument.java:178-185 | true exactly when `raw` is a literal with a value in the `long` range |
| `Args.Argument.IsShort` | src/main/java/pw/ollie/args/Argument.java:192-199 | true exactly when `raw` is a literal with a value in the `short` range |
| `Args.Argument.IsBoolean` | src/main/java/pw/ollie/args/Argument.java:206-208 | true exactly for `"true"` and `"false"`, compared case-sensitively; when true, `asBoolean` is true exactly for `"true"` |
| `Args.Argument.IsChar` | src/main/java/pw/ollie/args/Argument.java:215-217 | true exactly when `asChar` is present |
| `Args.Argument.GetIntern` | src/main/java/pw/ollie/args/Argument.java:223-225 | the interned string equals `raw` (rebuilds the same argument) |
| `Args.Argument.Concat` | src/main/java/pw/ollie/args/Argument.java:232-234 | a new argument whose raw string is `raw` followed by the given string; `null` throws `NullPointerException` |
| `Args.Argument.Substring` | src/main/java/pw/ollie/args/Argument.java:242-244 | succeeds exactly when `0 <= begin <= end <= length`, giving the characters `begin` up to `end`; otherwise throws `StringIndexOutOfBoundsException` |
| `Args.Argument.SubstringFrom` | src/main/java/pw/ollie/args/Argument.java:251-253 | `substring(begin)` gives the same result or exception as `substring(begin, length)` |
| `Args.Argument.ToCharArray` | src/main/java/pw/ollie/args/Argument.java:275-277 | a freshly allocated array whose contents are the characters of `raw` |
| `Args.Argument.Equals` | src/main/java/pw/ollie/args/Argument.java:279-283 | true exactly when the other object is an `Argument` with the same raw string, that is, the same argument |
| `Args.Argument.HashCode` | src/main/java/pw/ollie/args/Argument.java:285-288 | the `int` that `String.hashCode` documents: the polynomial `s[0]*31^(n-1) + ... + s[n-1]` reduced modulo 2^32 |
| `Args.Argument.ToString` | src/main/java/pw/ollie/args/Argument.java:290-293 | the interned string equals `raw` |
| `Decimal.ParseDecimal` | src/main/java/pw/ollie/args/Argument.java:68-70 | the JDK algorithm behind `Integer.parseInt`/`Long.parseLong` returns a value in the width's range or throws `NumberFormatException` |
| `Decimal.ParseShort` | src/main/java/pw/ollie/args/Argument.java:108-110 | `Short.parseShort` returns a value in the `short` range or throws `NumberFormatException` |
| `Decimal.Accumulate` | src/main/java/pw/ollie/args/Argument.java:68-70 | the JDK digit loop never takes its accumulator below the limit or above zero |
| `Decimal.NoIntermediateOverflow` | src/main/java/pw/ollie/args/Argument.java:68-70 | after the `multmin` check, multiplying the accumulator by ten stays within the limit, so the JDK arithmetic never wraps |
| `Decimal.StepRejectsExactlyOverflow` | src/main/java/pw/ollie/args/Argument.java:68-70 | the two overflow checks the JDK makes before each digit reject exactly when the magnitude after that digit would pass the limit |
| `Decimal.AccumulateMatchesValue` | src/main/java/pw/ollie/args/Argument.java:68-70 | the digit loop succeeds exactly when the remaining characters are digits and the total magnitude is within the limit, and then returns minus that magnitude |
| `Decimal.ParseDecimalMatchesGrammar` | src/main/java/pw/ollie/args/Argument.java:68-70 | the JDK algorithm and the grammar agree on every string at both widths: same acceptance, same value |
| `Decimal.ParseShortMatchesGrammar` | src/main/java/pw/ollie/args/Argument.java:108-110 | `Short.parseShort` and the grammar with the `short` range agree on every string |
| `JavaString.EqualsIgnoreCaseLowerWord` | src/main/java/pw/ollie/args/Argument.java:117-119 | `t.equalsIgnoreCase(x)`, for a lower-case word `t`, holds exactly when `x` lower-cases to `t` |
| `JavaString.CharEqualsIgnoreCase` | src/main/java/pw/ollie/args/Argument.java:117-119 | the per-character rule of `regionMatches(true, ...)` (equal, or equal upper-case forms, or equal lower-case forms of those) holds exactly when the two characters lower-case to the same character |
| `JavaString.RegionMatchesIgnoreCase` | src/main/java/pw/ollie/args/Argument.java:117-119 | comparing two equal-length strings character by character under that rule holds exactly when they lower-case to the same string |
| `JavaString.EqualsIgnoreCase` | src/main/java/pw/ollie/args/Argument.java:117-119 | `x.equalsIgnoreCase(y)` (equal lengths, then the region comparison) holds exactly when `x` and `y` lower-case to the same string |
| `JavaString.HashCode` | src/main/java/pw/ollie/args/Argument.java:285-288 | `String.hashCode`, wrapping `h = 31*h + c` to `int` at every step, equals the documented polynomial wrapped once |
| `JavaString.WrapHornerStep` | src/main/java/pw/ollie/args/Argument.java:285-288 | one step `31*h + c` wraps to the same `int` whether or not `h` was wrapped first |
| `Decimal.DigitValue` | src/main/java/pw/ollie/args/Argument.java:68-70 | `Character.digit(c, 10)` gives a value in 0..9 for an ASCII digit and -1 for any other character, which the digit loop rejects |
| `JavaLang.QuotRoundsTowardZero` | src/main/java/pw/ollie/args/Argument.java:68-70 | Java's `/`, used for `multmin = limit / 10`, rounds toward zero: `q * b` lies between zero and `a` and is less than `abs(b)` away from `a` |
| `JavaLang.Wrap32` | src/main/java/pw/ollie/args/Argument.java:285-288 | the result is an `int` congruent to the input modulo 2^32, and values already in range are unchanged |
| `Args.IntegerParsesNest` | src/main/java/pw/ollie/args/Argument.java:178-199 | every `short` literal is an `int` literal and every `int` literal a `long` literal, with equal parsed values |
| `Args.EqualsImpliesSameHashCode` | src/main/java/pw/ollie/args/Argument.java:279-288 | equal arguments have equal hash codes |
| `Args.EqualsIsEquivalence` | src/main/java/pw/ollie/args/Argument.java:279-283 | `equals` is reflexive, symmetric and transitive |
| `Args.SubstringsOfConcat` | src/main/java/pw/ollie/args/Argument.java:232-253 | the two substrings at the join point of `concat` give back the receiver and the appended string |
| `Args.ConcatOfSplit` | src/main/java/pw/ollie/args/Argument.java:232-253 | for any valid index `k`, `substring(0, k)` concatenated with `substring(k)` is the original argument |
| `Args.IntRejectsMalformed` | src/main/java/pw/ollie/args/Argument.java:68-100 | `""`, `"+"`, `"-"` and `"12a"` throw `NumberFormatException` from `asInt`, and `"-"` from `asLong` too |
| `Args.IntAcceptsSignAndZeros` | src/main/java/pw/ollie/args/Argument.java:68-110 | `"+007"` parses to 7 and `"-0"` to 0 |
| `Args.IntRangeEnds` | src/main/java/pw/ollie/args/Argument.java:68-100 | `"-2147483648"` is an `int`; `"2147483648"` is not an `int` but is a `long` |
| `Args.ShortRangeEnds` | src/main/java/pw/ollie/args/Argument.java:108-143 | `"40000"` is an `int` but not a `short` |
| `Args.BooleanExamples` | src/main/java/pw/ollie/args/Argument.java:117-208 | `"TRUE"` and `"TrUe"` give `asBoolean` true while `"TRUE"` is not `isBoolean`; `"1"`, `""` and `"yes"` give false; `"false"` is `isBoolean` with `asBoolean` false |
| `Args.CharExamples` | src/main/java/pw/ollie/args/Argument.java:127-129 | `"x"` gives `'x'`; `""` and `"xy"` give absent |
| `Args.SubstringExamples` | src/main/java/pw/ollie/args/Argument.java:242-244 | `"abcdefgh"` gives `"cde"` for (2, 5) and throws for (10, 2), (-1, 2) and (5, 2) |

## Left out

- `asDouble`, `asFloat`, `isDouble`, `isFloat`: these parse floating-point literals, and floating point is not modelled.
- `toLowerCase`, `toUpperCase`: they depend on the JDK's Unicode case tables and on the default locale, neither of which is modelled.
- Non-ASCII digits: only ASCII `'0'`..`'9'` count as digits. The JDK's `Character.digit` also accepts other Unicode decimal digits, which the model rejects.
- Args.Argument.AsBoolean: the case comparison uses ASCII case mapping in place of Java's `Character.toUpperCase`/`toLowerCase`. This is exact only if no non-ASCII character folds to `t`, `r`, `u` or `e` in the JDK's case tables. That is assumed, not proved.
- Characters: a Java `String` is a sequence of UTF-16 code units, while a Dafny `string` is a sequence of Unicode scalar values. For characters outside the Basic Multilingual Plane, the lengths, indexes and hash codes seen by `asChar`, `isChar`, `substring`, `toCharArray` and `hashCode` therefore differ from Java's.
- Exceptions are modelled by kind only. Their messages, which quote the input or the bad index, are not modelled.
- Object identity is not modelled: interning, `substring` returning the receiver itself for the full range, and `hashCode` caching have no observable effect on values.
- Args.Argument.Equals: the argument of `equals(Object)` is an `Option<Argument>`, and `None` stands for both `null` and objects of other classes. Both give false.
- Java's default `Object.toString` and other members inherited from `Object` are not modelled. Only the overridden `equals`, `hashCode` and `toString` are.
