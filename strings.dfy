/** Splitting a string on a separator character, as both versions of the
    e-mail check do. Python's `str.split(sep)` is `Split`; Java's
    `String.split` with a one-character pattern and no limit is, on a string
    that holds the separator, `Split` followed by `StripTrailingEmpty`. When
    the separator does not occur Java returns the string itself and trims
    nothing, so `"".split("@")` is `[""]`; the e-mail check never splits
    such a string. */
module Strings {

  /** Every character of s is c (vacuously true of the empty string). */
  predicate OnlyChar(s: string, c: char) {
    forall k :: 0 <= k < |s| ==> s[k] == c
  }

  /** A non-empty string made of c's contains c. */
  lemma OnlyCharContains(s: string, c: char)
    requires OnlyChar(s, c)
    ensures s == [] || c in s
  {
    if s != [] {
      assert s[0] == c;
    }
  }

  /** A non-empty suffix made of c's makes the string end in c. */
  lemma SuffixOnlyChar(s: string, k: nat, c: char)
    requires k <= |s| && OnlyChar(s[k..], c)
    ensures k == |s| || s[|s| - 1] == c
  {
    if k < |s| {
      assert s[k..][|s| - 1 - k] == s[|s| - 1];
    }
  }

  /** Every piece is the empty string. */
  predicate AllEmpty(parts: seq<string>) {
    forall k :: 0 <= k < |parts| ==> parts[k] == ""
  }

  /** The position of the first occurrence of c in s. */
  function IndexOf(s: string, c: char): (i: nat)
    requires c in s
    ensures i < |s| && s[i] == c && c !in s[..i]
  {
    if s[0] == c then 0
    else
      assert c in s[1..] by { assert s == [s[0]] + s[1..]; }
      var j := IndexOf(s[1..], c);
      assert s[..j + 1] == [s[0]] + s[1..][..j];
      1 + j
  }

  /** Any position holding c with no c before it is the one IndexOf finds. */
  lemma FirstIndex(s: string, c: char, j: nat)
    requires j < |s| && s[j] == c && c !in s[..j]
    ensures IndexOf(s, c) == j
  {
  }

  /** The pieces of s between occurrences of sep, empty pieces included. */
  function Split(s: string, sep: char): (parts: seq<string>)
    ensures |parts| >= 1
    decreases |s|
  {
    if sep !in s then [s]
    else
      var i := IndexOf(s, sep);
      [s[..i]] + Split(s[i + 1..], sep)
  }

  /** A string holding sep splits into the text before its first sep and
      the pieces of the text after it. */
  lemma SplitAtFirst(s: string, sep: char)
    requires sep in s
    ensures Split(s, sep) == [s[..IndexOf(s, sep)]] + Split(s[IndexOf(s, sep) + 1..], sep)
  {
  }

  /** No piece of a split contains the separator. */
  lemma {:induction false} SplitPiecesFree(s: string, sep: char)
    ensures forall k :: 0 <= k < |Split(s, sep)| ==> sep !in Split(s, sep)[k]
    decreases |s|
  {
    if sep in s {
      var i := IndexOf(s, sep);
      var rest := s[i + 1..];
      SplitPiecesFree(rest, sep);
      SplitAtFirst(s, sep);
    }
  }

  /** After the first sep, the pieces of a split are those of the text
      that follows it. */
  lemma SplitAfterFirst(s: string, sep: char)
    requires sep in s
    ensures var rest := Split(s[IndexOf(s, sep) + 1..], sep);
      |Split(s, sep)| == |rest| + 1 && Split(s, sep)[1] == rest[0] && Split(s, sep)[2..] == rest[1..]
  {
    SplitAtFirst(s, sep);
  }

  /** The pieces glued back together with sep between neighbours. */
  function Join(parts: seq<string>, sep: char): string
    requires parts != []
    decreases |parts|
  {
    if |parts| == 1 then parts[0] else parts[0] + [sep] + Join(parts[1..], sep)
  }

  /** Joining the pieces of a split gives back the original string. */
  lemma {:induction false} JoinSplit(s: string, sep: char)
    ensures Join(Split(s, sep), sep) == s
    decreases |s|
  {
    if sep in s {
      var i := IndexOf(s, sep);
      var head, rest := s[..i], s[i + 1..];
      var tail := Split(rest, sep);
      assert Split(s, sep) == [head] + tail by {
        SplitAtFirst(s, sep);
      }
      JoinCons(head, tail, sep);
      JoinSplit(rest, sep);
      assert s == head + [sep] + rest;
    }
  }

  /** Joining a piece in front of a non-empty list puts a sep between. */
  lemma JoinCons(head: string, tail: seq<string>, sep: char)
    requires tail != []
    ensures Join([head] + tail, sep) == head + [sep] + Join(tail, sep)
  {
    assert ([head] + tail)[1..] == tail;
  }

  /** Splitting a join of separator-free pieces gives back those pieces. */
  lemma {:induction false} SplitJoin(parts: seq<string>, sep: char)
    requires parts != []
    requires forall k :: 0 <= k < |parts| ==> sep !in parts[k]
    ensures Split(Join(parts, sep), sep) == parts
    decreases |parts|
  {
    if |parts| > 1 {
      var head, s, rest := parts[0], Join(parts, sep), Join(parts[1..], sep);
      SplitJoin(parts[1..], sep);
      assert s == head + [sep] + rest;
      assert s[..|head|] == head;
      FirstIndex(s, sep, |head|);
      assert s[|head| + 1..] == rest;
      assert parts == [head] + parts[1..];
    }
  }

  /** A split yields one more piece than there are separators. */
  lemma {:induction false} SplitCount(s: string, sep: char)
    ensures |Split(s, sep)| == multiset(s)[sep] + 1
    decreases |s|
  {
    if sep in s {
      var i := IndexOf(s, sep);
      var rest := s[i + 1..];
      SplitCount(rest, sep);
      assert s == s[..i] + [sep] + rest;
      assert multiset(s) == multiset(s[..i]) + multiset{sep} + multiset(rest);
      assert multiset(s[..i])[sep] == 0;
    } else {
      assert multiset(s)[sep] == 0;
    }
  }

  /** The pieces of a split are all empty exactly when the string consists of
      separators only. */
  lemma {:induction false} AllEmptySplit(s: string, sep: char)
    ensures AllEmpty(Split(s, sep)) <==> OnlyChar(s, sep)
    decreases |s|
  {
    if sep in s {
      var i := IndexOf(s, sep);
      var rest := s[i + 1..];
      AllEmptySplit(rest, sep);
      var parts := Split(s, sep);
      assert parts == [s[..i]] + Split(rest, sep);
      assert AllEmpty(parts) <==> i == 0 && AllEmpty(Split(rest, sep)) by {
        if i == 0 && AllEmpty(Split(rest, sep)) {
          forall k | 0 <= k < |parts| ensures parts[k] == "" {
            if k > 0 { assert parts[k] == Split(rest, sep)[k - 1]; } else { assert parts[0] == s[..0]; }
          }
        }
        if AllEmpty(parts) {
          assert parts[0] == s[..i] == "";
          forall k | 0 <= k < |Split(rest, sep)| ensures Split(rest, sep)[k] == "" {
            assert Split(rest, sep)[k] == parts[k + 1];
          }
        }
      }
      assert OnlyChar(s, sep) <==> i == 0 && OnlyChar(rest, sep) by {
        if i == 0 && OnlyChar(rest, sep) {
          forall k | 0 <= k < |s| ensures s[k] == sep {
            if k > 0 { assert s[k] == rest[k - 1]; }
          }
        }
      }
    } else if s != [] {
      assert Split(s, sep)[0] == s != "";
      assert !OnlyChar(s, sep) by { assert s[0] != sep; }
    }
  }

  /** Java's removal of trailing empty pieces: the longest prefix of parts
      that is empty or ends in a non-empty piece, with only empty pieces
      dropped after it. Java applies it only when the separator occurs. */
  function StripTrailingEmpty(parts: seq<string>): (r: seq<string>)
    ensures |r| <= |parts| && r == parts[..|r|]
    ensures r == [] || r[|r| - 1] != ""
    ensures forall k :: |r| <= k < |parts| ==> parts[k] == ""
    decreases |parts|
  {
    if parts != [] && parts[|parts| - 1] == "" then
      StripTrailingEmpty(parts[..|parts| - 1])
    else
      parts
  }

  /** The three conditions in StripTrailingEmpty's contract determine its
      result: any prefix meeting them is the stripped list. */
  lemma StripTrailingEmptyUnique(parts: seq<string>, n: nat)
    requires n <= |parts|
    requires n == 0 || parts[n - 1] != ""
    requires forall k :: n <= k < |parts| ==> parts[k] == ""
    ensures StripTrailingEmpty(parts) == parts[..n]
  {
  }
}
