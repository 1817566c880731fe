# Calculator helpers, Java and Python

A Dafny model of the two example libraries of calculator helpers in this
repository: the static methods of `com.testcase.Calculator` (Java) and the
functions and the `Calculator` class of `example.py` (Python). Both offer
`add`, `divide`, a maximum over a list, a syntactic e-mail check and a
recursive factorial; the Python file adds an accumulator class with `add`,
`subtract` and `reset`.

Files and modules:

- `common.dfy` (`Common`): the single error kind `InvalidArgument`, the
  `Result` and `Option` wrappers, the exact `Quotient`, the predicate
  `IsMaximum` and the mathematical factorial `Fact`.
- `fixed_width.dfy` (`FixedWidth`): Java's `int` and `long` as the subset
  types `int32` and `int64`, and two's-complement truncation `Wrap32` and
  `Wrap64`.
- `strings.dfy` (`Strings`): splitting on one separator character.
  Python's `str.split('@')` is `Split`. On a string holding '@', Java's
  `String.split("@")` is `Split` followed by `StripTrailingEmpty`, which
  drops trailing empty strings as Java does. Without a match Java returns
  the string itself untrimmed (`"".split("@")` is `[""]`); `isValidEmail`
  splits only strings that hold '@', so this case never arises there.
- `java_calculator.dfy` (`JavaCalculator`): the Java class.
- `example_py.dfy` (`PyExample`): the Python module, with `Calculator` as a
  Dafny class whose methods update the field `result` in place.
- `agreement.dfy` (`Agreement`): where the two versions agree and where they
  differ.

Java's thrown `IllegalArgumentException` and Python's raised `ValueError`
are both `Err(InvalidArgument)`. Java's `null` and Python's `None` e-mail
are `None`, and a Java `null` array is a `null` `array?`. Java arithmetic
wraps: `add` truncates the sum to 32 bits, and every `long` product in
`factorial` is truncated to 64 bits. Python integers are unbounded.

The e-mail rule is commonly described as "exactly one '@', and a '.' after
it". The Python code does exactly that. The Java code does not: its split
drops trailing empty strings, so trailing '@'s are ignored and `"a@b.c@"`
is accepted. The model follows each version's code, and
`Agreement.DisagreeOnTrailingAt` exhibits the difference.

## Model

| member | source | states |
|---|---|---|
| `Common.FactMonotone` | src/main/java/com/testcase/Calculator.java:66-74 | The factorial never decreases as its argument grows. |
| `Common.FactAtInt64Edge` | src/main/java/com/testcase/Calculator.java:66-74 | 20! = 2432902008176640000, which fits in a long, and 21! = 51090942171709440000, which does not. |
| `FixedWidth.Wrap32` | src/main/java/com/testcase/Calculator.java:12-14 | The truncated value is congruent to the exact one modulo 2^32, and equals it when the exact value is a Java int. |
| `FixedWidth.Wrap64` | src/main/java/com/testcase/Calculator.java:73 | The truncated value is congruent to the exact one modulo 2^64, and equals it when the exact value is a Java long. |
| `FixedWidth.Wrap64OfProduct` | src/main/java/com/testcase/Calculator.java:73 | Truncating the earlier factor before a `long` multiplication gives the same result as truncating the exact product. |
| `JavaCalculator.Add` | src/main/java/com/testcase/Calculator.java:12-14 | The result is congruent to a + b modulo 2^32. It equals a + b when no overflow occurs, and is off by exactly 2^32 when the sum overflows either way. |
| `JavaCalculator.AddCommutes` | src/main/java/com/testcase/Calculator.java:12-14 | Wrapping addition is commutative. |
| `JavaCalculator.Divide` | src/main/java/com/testcase/Calculator.java:19-24 | Fails exactly when b == 0. Otherwise the exact quotient q satisfies q * b == a. |
| `JavaCalculator.FindMax` | src/main/java/com/testcase/Calculator.java:29-41 | Fails exactly when the array is null or empty. Otherwise the result occurs in the array and no element is larger; the loop keeps this for every prefix scanned so far. |
| `JavaCalculator.RuleNeedsAtAndDot` | src/main/java/com/testcase/Calculator.java:51-53 | A string without '@' or without '.' does not satisfy the Java e-mail rule. |
| `JavaCalculator.RemainderPieces` | src/main/java/com/testcase/Calculator.java:55-60 | After the first '@', the first split piece holds a '.' and all later pieces are empty exactly when the remainder is a dotted '@'-free piece followed only by '@'s. |
| `JavaCalculator.StripLeavesTwo` | src/main/java/com/testcase/Calculator.java:55-60 | Once trailing empty pieces are dropped, exactly two pieces remain with a '.' in the second exactly when the second piece holds a '.' and every later piece is empty. |
| `JavaCalculator.TrimmedSplitAfterFirstAt` | src/main/java/com/testcase/Calculator.java:55-60 | Java's trimmed split of an address yields two pieces with a dotted second exactly when, in the split of the text after the first '@', the first piece is dotted and the rest are empty. |
| `JavaCalculator.RuleAtFirstAt` | src/main/java/com/testcase/Calculator.java:55-60 | The Java rule holds exactly when the text after the first '@' is a dotted '@'-free piece followed only by '@'s. |
| `JavaCalculator.SplitDecidesRule` | src/main/java/com/testcase/Calculator.java:55-60 | Java's split on '@' yields exactly two pieces, the second holding a '.', exactly when the Java rule holds. |
| `JavaCalculator.IsValidEmail` | src/main/java/com/testcase/Calculator.java:46-61 | True exactly for a non-null string with a first '@' followed by an '@'-free piece containing '.', optionally followed only by '@'s. Null, empty, no '@' and no '.' give false. |
| `JavaCalculator.TrailingAtFollowsRule` | src/main/java/com/testcase/Calculator.java:55-60 | "a@b.c@" follows the Java rule. |
| `JavaCalculator.AcceptsTrailingAt` | src/main/java/com/testcase/Calculator.java:55-60 | "a@b.c@" is accepted, because the trailing empty piece is dropped. |
| `JavaCalculator.Mul64` | src/main/java/com/testcase/Calculator.java:73 | The `long` product is congruent to the exact product modulo 2^64. |
| `JavaCalculator.Factorial` | src/main/java/com/testcase/Calculator.java:66-74 | Fails exactly for n < 0. Otherwise the result is n! truncated to 64 bits. |
| `JavaCalculator.FactorialExactUpTo20` | src/main/java/com/testcase/Calculator.java:66-74 | For 0 <= n <= 20 the result is exactly n!. |
| `JavaCalculator.FactorialWrapsAt21` | src/main/java/com/testcase/Calculator.java:73 | At n = 21 the `long` result differs from 21!. |
| `Strings.Split` | example.py:24 | Python's `str.split` on one character, also the first step of Java's `split` at src/main/java/com/testcase/Calculator.java:55. Its own contract only says there is at least one piece; its meaning is fixed by `JoinSplit`, `SplitJoin` and `SplitPiecesFree`. |
| `Strings.SplitPiecesFree` | example.py:24 | No piece of a split contains the separator. |
| `Strings.JoinSplit` | example.py:24 | Joining the pieces with the separator gives back the original string. |
| `Strings.SplitJoin` | example.py:24 | Splitting a join of separator-free pieces gives back those pieces. |
| `Strings.SplitCount` | example.py:24-25 | A split yields exactly one more piece than the string has separators. |
| `Strings.AllEmptySplit` | src/main/java/com/testcase/Calculator.java:55 | All pieces are empty exactly when the string consists only of separators. |
| `Strings.StripTrailingEmpty` | src/main/java/com/testcase/Calculator.java:55 | The result is a prefix of the pieces that is empty or ends in a non-empty piece. Every dropped piece is empty. |
| `Strings.StripTrailingEmptyUnique` | src/main/java/com/testcase/Calculator.java:55 | Those conditions determine the stripped list uniquely. |
| `PyExample.Add` | example.py:4-6 | The result exceeds a by b and b by a. |
| `PyExample.AddCommutes` | example.py:4-6 | Addition is commutative. |
| `PyExample.Divide` | example.py:8-12 | Fails exactly when b == 0. Otherwise the exact quotient q satisfies q * b == a. |
| `PyExample.Max` | example.py:18 | The built-in left-to-right `max` of a non-empty list returns an element of the list that no element exceeds. |
| `PyExample.FindMax` | example.py:14-18 | Fails exactly on a missing (None) or empty list. Otherwise the result occurs in the list and no element is larger. |
| `PyExample.RuleNeedsAtAndDot` | example.py:22-23 | A string without '@' or without '.' does not satisfy the Python e-mail rule. |
| `PyExample.RuleAtFirstAt` | example.py:24-27 | The Python rule holds exactly when it holds at the first '@'. |
| `PyExample.SplitDecidesRule` | example.py:24-27 | Python's split on '@' yields exactly two pieces, the second holding a '.', exactly when the string has exactly one '@' and a '.' after it. |
| `PyExample.IsValidEmail` | example.py:20-27 | True exactly for a present string with exactly one '@' and a '.' after it. None, empty, no '@' and no '.' give false. |
| `PyExample.AcceptsPlainAddress` | example.py:20-27 | "a@b.com" is accepted. |
| `PyExample.RejectsMissingInput` | example.py:22-23 | None and the empty string are rejected. |
| `PyExample.RejectsNoAt` | example.py:22-23 | "no-at-sign.com" is rejected. |
| `PyExample.PlainAddressFollowsRule` | example.py:24-27 | "a@b.com" follows the Python rule. |
| `PyExample.TwoAtsBreakRule` | example.py:24-26 | "a@b@c.com" breaks the Python rule: a second '@' follows the first. |
| `PyExample.RejectsTwoAts` | example.py:24-26 | "a@b@c.com" is rejected, because the split yields three pieces. |
| `PyExample.UndottedDomainBreaksRule` | example.py:27 | "a@bcom" breaks the Python rule: no '.' follows the '@'. |
| `PyExample.RejectsUndottedDomain` | example.py:27 | "a@bcom" is rejected, because there is no '.' after the '@'. |
| `PyExample.TrailingAtBreaksRule` | example.py:24-26 | "a@b.c@" breaks the Python rule: a second '@' follows the first. |
| `PyExample.RejectsTrailingAt` | example.py:24-26 | "a@b.c@" is rejected, because the split yields three pieces. |
| `PyExample.Factorial` | example.py:29-35 | Fails exactly for n < 0. Otherwise the result is exactly n!. |
| `PyExample.FactorialExamples` | example.py:29-35 | 0! = 1! = 1, 5! = 120, and -1 fails. |
| `PyExample.SumAppend` | example.py:43-51 | Appending a delta to the history adds it to the sum. This keeps `result` equal to the sum of the deltas. |
| `PyExample.Calculator.constructor` | example.py:40-41 | A new calculator has result 0 and no deltas. |
| `PyExample.Calculator.Add` | example.py:43-46 | Raises result by value, records the delta, returns the new result and keeps result equal to the sum of the deltas. |
| `PyExample.Calculator.Subtract` | example.py:48-51 | Lowers result by value, records the delta -value, returns the new result and keeps the same invariant. |
| `PyExample.Calculator.Reset` | example.py:53-56 | Sets result to 0, clears the deltas and returns 0. |
| `PyExample.AddThenSubtractRestores` | example.py:43-51 | add(v) followed by subtract(v) returns old result + v, then the old result, and leaves result unchanged. |
| `PyExample.ExampleSession` | example.py:37-56 | On a fresh calculator, add(5), subtract(2), add(10) and reset() return 5, 3, 13 and 0. |
| `Agreement.JavaAcceptsWhatPythonAccepts` | src/main/java/com/testcase/Calculator.java:46-61 | Every address the Python check accepts is accepted by the Java check. |
| `Agreement.JavaRuleWithoutTrailingAt` | src/main/java/com/testcase/Calculator.java:55-60 | On a string that does not end in '@', the Java rule implies the Python rule. |
| `Agreement.AgreeWithoutTrailingAt` | src/main/java/com/testcase/Calculator.java:55-60 | On a string that does not end in '@', the Java and Python checks give the same answer. |
| `Agreement.DisagreeOnTrailingAt` | src/main/java/com/testcase/Calculator.java:55 | "a@b.c@" is accepted by Java and rejected by Python. |
| `Agreement.FactorialsAgreeUpTo20` | src/main/java/com/testcase/Calculator.java:66-74 | Both versions fail exactly for negative n. For 0 <= n <= 20 they return the same value. |

## Left out

- PyExample.Divide: Python's true division raises OverflowError when the quotient is beyond the largest double (for example `divide(10**400, 1)`); the model returns `Ok` for every non-zero divisor. Java's `(double) a / b` on two ints never throws, so `JavaCalculator.Divide` is unaffected.
- The floating-point quotient of `divide`: Java's `(double) a / b` and Python's `a / b` round the exact quotient to a double. The model returns the exact `Quotient` and states q * b == a, so rounding is not modelled.
- Exception classes and message texts ("Cannot divide by zero", "List cannot be empty", "Array cannot be null or empty", "Factorial not defined for negative numbers"): every error is the single `InvalidArgument`.
- Java's `String.split` takes a regular expression. Only the literal one-character pattern `"@"` used here is modelled: split on '@', then drop trailing empty strings.
- Strings are sequences of Dafny characters. The difference between Java's UTF-16 code units and Python's code points is not modelled; it does not affect a search for '@' or '.'.
- Python's dynamic typing: `add`, `divide`, `find_max`, `factorial` and `Calculator` are modelled on integers only, and `is_valid_email` on an optional string. Floats, mixed types and non-list iterables are left out, and so are `max` on arbitrary comparable values and the TypeError `is_valid_email` raises on a truthy non-string such as `123`.
- Recursion depth: Python's recursion limit and Java's stack overflow in `factorial` for large n are not modelled.
- `Calculator.result` is a public attribute in Python. A caller assigning it directly would break the invariant that it equals the sum of the deltas; the model only changes it through the methods.
- The VS Code extension that these files were written for is not part of this model.
