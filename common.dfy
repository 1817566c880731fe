/** Definitions shared by the Java and the Python versions of the calculator
    helpers: the single error kind, the result wrappers, and the mathematical
    reference definitions the helpers are proved against. */
module Common {

  /** The one error kind both versions raise (IllegalArgumentException in
      Java, ValueError in Python); the message texts are not modelled. */
  datatype Error = InvalidArgument

  /** A value, or the error the helper raised instead of returning. */
  datatype Result<T> = Ok(value: T) | Err(error: Error)

  /** A possibly absent value: `None` stands for Java's null and Python's None. */
  datatype Option<T> = None | Some(value: T)

  /** The exact rational quotient num / den, before any floating-point rounding. */
  datatype Quotient = Quotient(num: int, den: int)

  /** m is the largest element of s: it occurs in s and no element exceeds it. */
  ghost predicate IsMaximum(s: seq<int>, m: int) {
    m in s && forall k :: 0 <= k < |s| ==> s[k] <= m
  }

  /** The mathematical factorial n! over unbounded integers. */
  function Fact(n: nat): (r: nat)
    ensures r >= 1
  {
    if n == 0 then 1 else n * Fact(n - 1)
  }

  /** n! never decreases as n grows. */
  lemma {:induction false} FactMonotone(m: nat, n: nat)
    requires m <= n
    ensures Fact(m) <= Fact(n)
    decreases n - m
  {
    if m < n {
      FactMonotone(m, n - 1);
      assert Fact(n) == n * Fact(n - 1) >= Fact(n - 1);
    }
  }

  /** The values of n! at the edge of the signed 64-bit range: 20! fits below
      2^63 and 21! does not. */
  lemma FactAtInt64Edge()
    ensures Fact(20) == 2432902008176640000
    ensures Fact(21) == 51090942171709440000
  {
    assert Fact(1) == 1;
    assert Fact(2) == 2;
    assert Fact(3) == 6;
    assert Fact(4) == 24;
    assert Fact(5) == 120;
    assert Fact(6) == 720;
    assert Fact(7) == 5040;
    assert Fact(8) == 40320;
    assert Fact(9) == 362880;
    assert Fact(10) == 3628800;
    assert Fact(11) == 39916800;
    assert Fact(12) == 479001600;
    assert Fact(13) == 6227020800;
    assert Fact(14) == 87178291200;
    assert Fact(15) == 1307674368000;
    assert Fact(16) == 20922789888000;
    assert Fact(17) == 355687428096000;
    assert Fact(18) == 6402373705728000;
    assert Fact(19) == 121645100408832000;
    assert Fact(20) == 2432902008176640000;
    assert Fact(21) == 51090942171709440000;
  }
}
