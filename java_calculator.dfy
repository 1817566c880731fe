/** The Java version of the calculator helpers (class
    com.testcase.Calculator): static methods over Java's 32-bit `int`,
    64-bit `long` and nullable `String` and `int[]`. Each thrown
    IllegalArgumentException is an `Err(InvalidArgument)`. */
module JavaCalculator {
  import opened Common
  import opened FixedWidth
  import opened Strings

  /** `add(int a, int b)`: the sum truncated to 32 bits, which is the exact
      sum unless it leaves the int range, and off by exactly 2^32 when it
      does. */
  function Add(a: int32, b: int32): (r: int32)
    ensures (r - (a + b)) % TWO_32 == 0
    ensures MIN32 <= a + b <= MAX32 ==> r == a + b
    ensures a + b > MAX32 ==> r == a + b - TWO_32
    ensures a + b < MIN32 ==> r == a + b + TWO_32
  {
    Wrap32(a + b)
  }

  /** Wrapping addition is still commutative. */
  lemma AddCommutes(a: int32, b: int32)
    ensures Add(a, b) == Add(b, a)
  {
  }

  /** `divide(int a, int b)`: fails exactly on a zero divisor; otherwise the
      exact quotient q with q * b == a (Java then rounds it to a double). */
  function Divide(a: int32, b: int32): (r: Result<Quotient>)
    ensures r.Err? <==> b == 0
    ensures r.Ok? ==> r.value.den != 0 && r.value.num * b == a * r.value.den
  {
    if b == 0 then Err(InvalidArgument) else Ok(Quotient(a, b))
  }

  /** `findMax(int[] numbers)`: fails exactly on a null or empty array;
      otherwise scans from index 1 keeping the running maximum, and returns
      the maximum of the array. */
  method FindMax(numbers: array?<int32>) returns (r: Result<int32>)
    ensures r.Err? <==> numbers == null || numbers.Length == 0
    ensures r.Ok? ==> numbers != null && IsMaximum(numbers[..], r.value)
  {
    if numbers == null || numbers.Length == 0 {
      return Err(InvalidArgument);
    }
    var max := numbers[0];
    for i := 1 to numbers.Length
      invariant IsMaximum(numbers[..i], max)
    {
      assert numbers[..i + 1] == numbers[..i] + [numbers[i]];
      if numbers[i] > max {
        max := numbers[i];
      }
    }
    assert numbers[..numbers.Length] == numbers[..];
    return Ok(max);
  }

  /** The part of an address after its first '@' that Java accepts: a piece
      free of '@' that holds a '.', followed by nothing but '@'s (which
      `String.split` drops as trailing empty strings). */
  ghost predicate DottedDomainThenOnlyAts(t: string) {
    exists j :: DomainEndsAt(t, j)
  }

  /** The '@'-free dotted piece of t ends at position j, and only '@'s
      follow it. */
  ghost predicate DomainEndsAt(t: string, j: int) {
    0 <= j <= |t| && '@' !in t[..j] && '.' in t[..j] && OnlyChar(t[j..], '@')
  }

  /** The rule `isValidEmail` implements: a first '@' whose remainder is
      accepted by DottedDomainThenOnlyAts. Unlike the Python rule it admits
      trailing '@'s, as in "a@b.c@". */
  ghost predicate HasDottedDomainBeforeTrailingAts(e: string) {
    exists i :: AcceptedAfterFirstAt(e, i)
  }

  /** Position i holds the first '@' of e, and what follows it is accepted. */
  ghost predicate AcceptedAfterFirstAt(e: string, i: int) {
    0 <= i < |e| && e[i] == '@' && '@' !in e[..i] && DottedDomainThenOnlyAts(e[i + 1..])
  }

  /** A string with no '@' or no '.' cannot follow the rule. */
  lemma RuleNeedsAtAndDot(e: string)
    requires '@' !in e || '.' !in e
    ensures !HasDottedDomainBeforeTrailingAts(e)
  {
  }

  /** The pieces of the remainder t after the first '@': the first holds a
      '.' and the rest are empty exactly when t is accepted. */
  lemma RemainderPieces(t: string)
    ensures ('.' in Split(t, '@')[0] && AllEmpty(Split(t, '@')[1..])) <==> DottedDomainThenOnlyAts(t)
  {
    var pieces := Split(t, '@');
    if '@' in t {
      var k := IndexOf(t, '@');
      var rest := t[k + 1..];
      assert pieces == [t[..k]] + Split(rest, '@');
      assert pieces[1..] == Split(rest, '@');
      AllEmptySplit(rest, '@');
      assert OnlyChar(rest, '@') <==> OnlyChar(t[k..], '@') by {
        assert t[k..] == [t[k]] + rest;
        if OnlyChar(rest, '@') {
          forall m | 0 <= m < |t[k..]| ensures t[k..][m] == '@' {
            if m > 0 { assert t[k..][m] == rest[m - 1]; }
          }
        }
        if OnlyChar(t[k..], '@') {
          forall m | 0 <= m < |rest| ensures rest[m] == '@' {
            assert rest[m] == t[k..][m + 1];
          }
        }
      }
      if DottedDomainThenOnlyAts(t) {
        var j :| DomainEndsAt(t, j);
        assert j < |t|;
        assert t[j..][0] == '@';
        FirstIndex(t, '@', j);
      }
      if '.' in t[..k] && OnlyChar(rest, '@') {
        assert DomainEndsAt(t, k);
      }
    } else {
      assert pieces == [t];
      if DottedDomainThenOnlyAts(t) {
        var j :| DomainEndsAt(t, j);
        OnlyCharContains(t[j..], '@');
        assert t[..j] == t;
      } else if '.' in t {
        assert t[..|t|] == t && t[|t|..] == [];
        assert DomainEndsAt(t, |t|);
      }
    }
  }

  /** Dropping the trailing empty pieces leaves exactly two, the second
      holding a '.', exactly when the second piece holds a '.' and all later
      pieces are empty. */
  lemma StripLeavesTwo(all: seq<string>)
    requires |all| >= 2
    ensures var parts := StripTrailingEmpty(all);
      (|parts| == 2 && '.' in parts[1]) <==> ('.' in all[1] && AllEmpty(all[2..]))
  {
    var parts := StripTrailingEmpty(all);
    if '.' in all[1] && AllEmpty(all[2..]) {
      forall k | 2 <= k < |all| ensures all[k] == "" {
        assert all[k] == all[2..][k - 2];
      }
      StripTrailingEmptyUnique(all, 2);
    }
    if |parts| == 2 && '.' in parts[1] {
      forall k | 0 <= k < |all[2..]| ensures all[2..][k] == "" {
        assert all[2..][k] == all[k + 2];
      }
    }
  }

  /** The rule is decided by what follows the first '@'. */
  lemma RuleAtFirstAt(e: string)
    requires '@' in e
    ensures HasDottedDomainBeforeTrailingAts(e) <==> DottedDomainThenOnlyAts(e[IndexOf(e, '@') + 1..])
  {
    assert AcceptedAfterFirstAt(e, IndexOf(e, '@')) <==> DottedDomainThenOnlyAts(e[IndexOf(e, '@') + 1..]);
    if HasDottedDomainBeforeTrailingAts(e) {
      var i :| AcceptedAfterFirstAt(e, i);
      FirstIndex(e, '@', i);
    }
  }

  /** Java's split on '@', trimmed, yields exactly two pieces with a '.' in
      the second exactly when, after the first '@', the first piece holds a
      '.' and all later pieces are empty. */
  lemma TrimmedSplitAfterFirstAt(e: string)
    requires '@' in e
    ensures var parts, pieces := StripTrailingEmpty(Split(e, '@')), Split(e[IndexOf(e, '@') + 1..], '@');
      (|parts| == 2 && '.' in parts[1]) <==> ('.' in pieces[0] && AllEmpty(pieces[1..]))
  {
    var pieces := Split(e[IndexOf(e, '@') + 1..], '@');
    var all := Split(e, '@');
    SplitAfterFirst(e, '@');
    assert (|StripTrailingEmpty(all)| == 2 && '.' in StripTrailingEmpty(all)[1]) <==> ('.' in all[1] && AllEmpty(all[2..])) by {
      StripLeavesTwo(all);
    }
  }

  /** How Java's split on '@' decides the rule: after dropping trailing empty
      pieces it yields exactly two, with a '.' in the second, exactly when
      the rule holds. */
  lemma SplitDecidesRule(e: string)
    requires '@' in e
    ensures var parts := StripTrailingEmpty(Split(e, '@'));
      (|parts| == 2 && '.' in parts[1]) <==> HasDottedDomainBeforeTrailingAts(e)
  {
    TrimmedSplitAfterFirstAt(e);
    RemainderPieces(e[IndexOf(e, '@') + 1..]);
    RuleAtFirstAt(e);
  }

  /** `isValidEmail(String email)`: true exactly when the input is non-null
      and follows the rule (the empty string, a missing '@' and a missing '.'
      all fall outside it). */
  function IsValidEmail(email: Option<string>): (ok: bool)
    ensures ok <==> email.Some? && HasDottedDomainBeforeTrailingAts(email.value)
  {
    if email.None? || email.value == [] then false
    else if '@' !in email.value || '.' !in email.value then
      RuleNeedsAtAndDot(email.value);
      false
    else
      var parts := StripTrailingEmpty(Split(email.value, '@'));
      SplitDecidesRule(email.value);
      if |parts| != 2 then false else '.' in parts[1]
  }

  /** "a@b.c@" follows the Java rule: its first '@' is followed by "b.c"
      and then only by '@'. */
  lemma TrailingAtFollowsRule()
    ensures HasDottedDomainBeforeTrailingAts("a@b.c@")
  {
    var e := "a@b.c@";
    assert DomainEndsAt(e[2..], 3) by {
      assert e[2..][..3] == "b.c" && e[2..][3..] == "@";
    }
    assert AcceptedAfterFirstAt(e, 1) by {
      assert e[..1] == "a";
    }
  }

  /** Java accepts an address ending in '@' that the Python version rejects. */
  lemma AcceptsTrailingAt()
    ensures IsValidEmail(Some("a@b.c@"))
  {
    TrailingAtFollowsRule();
  }

  /** Java's `long` product n * factorial(n - 1), truncated to 64 bits. */
  function Mul64(a: int64, b: int64): (r: int64)
    ensures (r - a * b) % TWO_64 == 0
  {
    Wrap64(a * b)
  }

  /** `factorial(int n)`: fails exactly for negative n; otherwise n! truncated
      to 64 bits, since each `long` multiplication wraps around. */
  function Factorial(n: int32): (r: Result<int64>)
    ensures r.Err? <==> n < 0
    ensures r.Ok? ==> r.value == Wrap64(Fact(n))
  {
    if n < 0 then Err(InvalidArgument)
    else if n == 0 || n == 1 then Ok(1)
    else
      var prev := Factorial(n - 1).value;
      Wrap64OfProduct(n, Fact(n - 1));
      Ok(Mul64(n, prev))
  }

  /** Up to 20 the `long` result is the exact factorial. */
  lemma FactorialExactUpTo20(n: int32)
    requires 0 <= n <= 20
    ensures Factorial(n) == Ok(Fact(n))
  {
    FactMonotone(n, 20);
    FactAtInt64Edge();
  }

  /** At 21 the `long` result has wrapped and is no longer 21!. */
  lemma FactorialWrapsAt21()
    ensures Factorial(21).Ok? && Factorial(21).value != Fact(21)
  {
    FactAtInt64Edge();
  }
}
