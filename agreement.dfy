/** How the Java and the Python versions of the helpers relate: where they
    agree, and where Java's `String.split` and 64-bit `long` make them
    differ. */
module Agreement {
  import opened Common
  import opened FixedWidth
  import opened Strings
  import Py = PyExample
  import Java = JavaCalculator

  /** Every address the Python check accepts, the Java check accepts too. */
  lemma JavaAcceptsWhatPythonAccepts(email: Option<string>)
    requires Py.IsValidEmail(email)
    ensures Java.IsValidEmail(email)
  {
    var e := email.value;
    var i :| Py.OnlyAtHasDotAfter(e, i);
    var t := e[i + 1..];
    assert t[..|t|] == t && t[|t|..] == [];
    assert Java.DomainEndsAt(t, |t|);
    assert Java.AcceptedAfterFirstAt(e, i);
  }

  /** Without a trailing '@' the Java rule forces a single '@' with a '.'
      after it, which is the Python rule. */
  lemma JavaRuleWithoutTrailingAt(e: string)
    requires e == [] || e[|e| - 1] != '@'
    requires Java.HasDottedDomainBeforeTrailingAts(e)
    ensures Py.HasOneAtAndDottedDomain(e)
  {
    var i :| Java.AcceptedAfterFirstAt(e, i);
    var t := e[i + 1..];
    var j :| Java.DomainEndsAt(t, j);
    assert t[j..] == e[i + 1 + j..];
    SuffixOnlyChar(e, i + 1 + j, '@');
    assert t[..j] == t;
    assert Py.OnlyAtHasDotAfter(e, i);
  }

  /** On an address that does not end in '@' the two checks agree; the only
      addresses they disagree on are those the Java split trims. */
  lemma AgreeWithoutTrailingAt(e: string)
    requires e == [] || e[|e| - 1] != '@'
    ensures Java.IsValidEmail(Some(e)) <==> Py.IsValidEmail(Some(e))
  {
    if Java.HasDottedDomainBeforeTrailingAts(e) {
      JavaRuleWithoutTrailingAt(e);
    }
    if Py.HasOneAtAndDottedDomain(e) {
      JavaAcceptsWhatPythonAccepts(Some(e));
    }
  }

  /** An example of the disagreement: "a@b.c@" passes in Java, fails in Python. */
  lemma DisagreeOnTrailingAt()
    ensures Java.IsValidEmail(Some("a@b.c@")) && !Py.IsValidEmail(Some("a@b.c@"))
  {
    Java.AcceptsTrailingAt();
    Py.RejectsTrailingAt();
  }

  /** Both versions reject a negative argument, and agree on every argument
      whose factorial fits in a `long`. */
  lemma FactorialsAgreeUpTo20(n: int32)
    requires n <= 20
    ensures Java.Factorial(n).Err? <==> Py.Factorial(n).Err?
    ensures n >= 0 ==> Java.Factorial(n).value == Py.Factorial(n).value
  {
    if n >= 0 {
      Java.FactorialExactUpTo20(n);
    }
  }
}
