/** The Python version of the calculator helpers (example.py): five
    module-level functions over unbounded integers and strings, and the
    `Calculator` accumulator class. Python integers never overflow, so they
    are Dafny `int`s; each raised ValueError is an `Err(InvalidArgument)`. */
module PyExample {
  import opened Common
  import opened Strings

  /** `add(a, b)`: the exact sum. */
  function Add(a: int, b: int): (r: int)
    ensures r - a == b && r - b == a
  {
    a + b
  }

  /** Addition does not depend on the order of its operands. */
  lemma AddCommutes(a: int, b: int)
    ensures Add(a, b) == Add(b, a)
  {
  }

  /** `divide(a, b)`: fails exactly on a zero divisor; otherwise the quotient
      q satisfies q * b == a exactly (before Python's float rounding). */
  function Divide(a: int, b: int): (r: Result<Quotient>)
    ensures r.Err? <==> b == 0
    ensures r.Ok? ==> r.value.den != 0 && r.value.num * b == a * r.value.den
  {
    if b == 0 then Err(InvalidArgument) else Ok(Quotient(a, b))
  }

  /** Python's built-in `max` on a non-empty list of integers: a left-to-right
      scan that replaces the running maximum by a strictly larger element. */
  function Max(s: seq<int>): (m: int)
    requires s != []
    ensures IsMaximum(s, m)
    decreases |s|
  {
    if |s| == 1 then s[0]
    else
      var prefix := s[..|s| - 1];
      var m := Max(prefix);
      assert s == prefix + [s[|s| - 1]];
      if s[|s| - 1] > m then s[|s| - 1] else m
  }

  /** `find_max(numbers)`: fails exactly on a missing (None) or empty list;
      otherwise the result is the maximum of the list. */
  function FindMax(numbers: Option<seq<int>>): (r: Result<int>)
    ensures r.Err? <==> numbers.None? || numbers.value == []
    ensures r.Ok? ==> numbers.Some? && IsMaximum(numbers.value, r.value)
  {
    if numbers.None? || numbers.value == [] then Err(InvalidArgument) else Ok(Max(numbers.value))
  }

  /** The rule `is_valid_email` implements: exactly one '@', and a '.'
      somewhere after it. */
  ghost predicate HasOneAtAndDottedDomain(e: string) {
    exists i :: OnlyAtHasDotAfter(e, i)
  }

  /** Position i holds the only '@' of e, and a '.' follows it. */
  ghost predicate OnlyAtHasDotAfter(e: string, i: int) {
    0 <= i < |e| && e[i] == '@' && '@' !in e[..i] && '@' !in e[i + 1..] && '.' in e[i + 1..]
  }

  /** A string with no '@' or no '.' cannot follow the rule. */
  lemma RuleNeedsAtAndDot(e: string)
    requires '@' !in e || '.' !in e
    ensures !HasOneAtAndDottedDomain(e)
  {
  }

  /** How Python's split on '@' decides the rule: it yields exactly two
      pieces with a '.' in the second exactly when the rule holds. */
  lemma SplitDecidesRule(e: string)
    requires '@' in e
    ensures (|Split(e, '@')| == 2 && '.' in Split(e, '@')[1]) <==> HasOneAtAndDottedDomain(e)
  {
    var i := IndexOf(e, '@');
    var t := e[i + 1..];
    var parts := Split(e, '@');
    assert parts == [e[..i]] + Split(t, '@');
    if '@' in t {
      var k := IndexOf(t, '@');
      assert |Split(t, '@')| >= 2 by {
        assert Split(t, '@') == [t[..k]] + Split(t[k + 1..], '@');
      }
    } else {
      assert Split(t, '@') == [t];
    }
    if HasOneAtAndDottedDomain(e) {
      var i' :| OnlyAtHasDotAfter(e, i');
      FirstIndex(e, '@', i');
    }
    if '@' !in t && '.' in t {
      assert OnlyAtHasDotAfter(e, i);
    }
  }

  /** `is_valid_email(email)`: true exactly when the input is present and
      follows the rule (the empty string, a missing '@' and a missing '.' all
      fall outside it). */
  function IsValidEmail(email: Option<string>): (ok: bool)
    ensures ok <==> email.Some? && HasOneAtAndDottedDomain(email.value)
  {
    if email.None? then false
    else if email.value == [] || '@' !in email.value || '.' !in email.value then
      RuleNeedsAtAndDot(email.value);
      false
    else
      var parts := Split(email.value, '@');
      SplitDecidesRule(email.value);
      if |parts| != 2 then false else '.' in parts[1]
  }

  /** The position of the first '@' of e is the only candidate for the
      rule's '@'. */
  lemma RuleAtFirstAt(e: string)
    requires '@' in e
    ensures HasOneAtAndDottedDomain(e) <==> OnlyAtHasDotAfter(e, IndexOf(e, '@'))
  {
    if HasOneAtAndDottedDomain(e) {
      var i :| OnlyAtHasDotAfter(e, i);
      FirstIndex(e, '@', i);
    }
  }

  /** An example address that is accepted. */
  lemma AcceptsPlainAddress()
    ensures IsValidEmail(Some("a@b.com"))
  {
    PlainAddressFollowsRule();
  }

  /** "a@b.com" has a single '@' with "b.com" after it. */
  lemma PlainAddressFollowsRule()
    ensures HasOneAtAndDottedDomain("a@b.com")
  {
    var e := "a@b.com";
    assert e[1] == '@' && e[..1] == "a" && e[2..] == "b.com" && e[2..][1] == '.';
    assert OnlyAtHasDotAfter(e, 1);
  }

  /** Absent and empty input are rejected. */
  lemma RejectsMissingInput()
    ensures !IsValidEmail(None) && !IsValidEmail(Some(""))
  {
  }

  /** An example address without '@' is rejected. */
  lemma RejectsNoAt()
    ensures !IsValidEmail(Some("no-at-sign.com"))
  {
    var e := "no-at-sign.com";
    assert forall k :: 0 <= k < |e| ==> e[k] != '@';
    RuleNeedsAtAndDot(e);
  }

  /** An example address with two '@'s is rejected. */
  lemma RejectsTwoAts()
    ensures !IsValidEmail(Some("a@b@c.com"))
  {
    TwoAtsBreakRule();
  }

  /** After the first '@' of "a@b@c.com" there is a second one. */
  lemma TwoAtsBreakRule()
    ensures !HasOneAtAndDottedDomain("a@b@c.com")
  {
    var e := "a@b@c.com";
    assert e[..1] == "a" && e[1] == '@';
    FirstIndex(e, '@', 1);
    assert e[2..][1] == '@';
    RuleAtFirstAt(e);
  }

  /** An example address without '.' after the '@' is rejected. */
  lemma RejectsUndottedDomain()
    ensures !IsValidEmail(Some("a@bcom"))
  {
    UndottedDomainBreaksRule();
  }

  /** After the only '@' of "a@bcom" there is no '.'. */
  lemma UndottedDomainBreaksRule()
    ensures !HasOneAtAndDottedDomain("a@bcom")
  {
    var e := "a@bcom";
    assert e[..1] == "a" && e[1] == '@';
    FirstIndex(e, '@', 1);
    var domain := e[2..];
    assert domain == "bcom";
    assert forall k :: 0 <= k < |domain| ==> domain[k] != '.';
    RuleAtFirstAt(e);
  }

  /** An address ending in '@' has a second '@' and is rejected. */
  lemma RejectsTrailingAt()
    ensures !IsValidEmail(Some("a@b.c@"))
  {
    TrailingAtBreaksRule();
  }

  /** After the first '@' of "a@b.c@" there is a second one. */
  lemma TrailingAtBreaksRule()
    ensures !HasOneAtAndDottedDomain("a@b.c@")
  {
    var e := "a@b.c@";
    assert e[..1] == "a" && e[1] == '@';
    FirstIndex(e, '@', 1);
    assert e[2..][3] == '@';
    RuleAtFirstAt(e);
  }

  /** `factorial(n)`: fails exactly for negative n; otherwise n! computed
      exactly, as Python's integers are unbounded. */
  function Factorial(n: int): (r: Result<int>)
    ensures r.Err? <==> n < 0
    ensures r.Ok? ==> r.value == Fact(n)
  {
    if n < 0 then Err(InvalidArgument)
    else if n == 0 || n == 1 then Ok(1)
    else Ok(n * Factorial(n - 1).value)
  }

  /** Example values: 0! = 1! = 1, 5! = 120, and -1 is rejected. */
  lemma FactorialExamples()
    ensures Factorial(0) == Ok(1) && Factorial(1) == Ok(1)
    ensures Factorial(5) == Ok(120)
    ensures Factorial(-1) == Err(InvalidArgument)
  {
  }

  /** The sum of a list of deltas. */
  function Sum(deltas: seq<int>): int {
    if deltas == [] then 0 else deltas[0] + Sum(deltas[1..])
  }

  /** Appending a delta adds it to the sum. */
  lemma {:induction false} SumAppend(deltas: seq<int>, d: int)
    ensures Sum(deltas + [d]) == Sum(deltas) + d
  {
    if deltas != [] {
      SumAppend(deltas[1..], d);
      assert (deltas + [d])[1..] == deltas[1..] + [d];
    }
  }

  /** class `Calculator`: an accumulator whose `result` always equals the sum
      of the deltas applied by add and subtract since construction or the
      last reset. */
  class Calculator {
    var result: int
    /** The deltas applied since construction or the last reset. */
    ghost var Deltas: seq<int>

    ghost predicate Valid()
      reads this
    {
      result == Sum(Deltas)
    }

    /** `__init__`: a new calculator starts at 0. */
    constructor ()
      ensures Valid() && result == 0 && Deltas == []
    {
      result := 0;
      Deltas := [];
    }

    /** `add(value)`: raises result by value and returns the new result. */
    method Add(value: int) returns (r: int)
      requires Valid()
      modifies this
      ensures Valid() && result == old(result) + value && r == result
      ensures Deltas == old(Deltas) + [value]
    {
      SumAppend(Deltas, value);
      result := result + value;
      Deltas := Deltas + [value];
      r := result;
    }

    /** `subtract(value)`: lowers result by value and returns the new result. */
    method Subtract(value: int) returns (r: int)
      requires Valid()
      modifies this
      ensures Valid() && result == old(result) - value && r == result
      ensures Deltas == old(Deltas) + [-value]
    {
      SumAppend(Deltas, -value);
      result := result - value;
      Deltas := Deltas + [-value];
      r := result;
    }

    /** `reset()`: sets result back to 0, forgets the deltas, returns 0. */
    method Reset() returns (r: int)
      requires Valid()
      modifies this
      ensures Valid() && result == 0 && r == 0 && Deltas == []
    {
      result := 0;
      Deltas := [];
      r := result;
    }
  }

  /** Adding a value and then subtracting it leaves result where it was. */
  method AddThenSubtractRestores(c: Calculator, v: int) returns (afterAdd: int, afterSubtract: int)
    requires c.Valid()
    modifies c
    ensures c.Valid() && afterAdd == old(c.result) + v
    ensures afterSubtract == old(c.result) && c.result == old(c.result)
  {
    afterAdd := c.Add(v);
    afterSubtract := c.Subtract(v);
  }

  /** An example session on a fresh calculator: add(5), subtract(2),
      add(10), reset() return 5, 3, 13 and 0. */
  method ExampleSession() returns (results: seq<int>)
    ensures results == [5, 3, 13, 0]
  {
    var c := new Calculator();
    var a := c.Add(5);
    var b := c.Subtract(2);
    var d := c.Add(10);
    var e := c.Reset();
    results := [a, b, d, e];
  }
}
