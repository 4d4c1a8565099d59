/** Candidate strings: the digit characters still possible for one box, and
    the string operations the solver applies to them. */
module Candidates {
  import opened Lists

  /** The nine digit characters, in the order an empty box lists them. */
  const Digits: string := "123456789"

  /** `a` is `b` with zero or more characters deleted. */
  predicate IsSubsequence(a: string, b: string)
    decreases |b|
  {
    a == [] ||
    (b != [] && ((a[0] == b[0] && IsSubsequence(a[1..], b[1..])) || IsSubsequence(a, b[1..])))
  }

  /** Python's `s.replace(pattern, '')`: every leftmost non-overlapping occurrence
      of `pattern` is deleted; an empty pattern leaves `s` as it is. */
  function Replace(s: string, pattern: string): (r: string)
    ensures IsSubsequence(r, s)
    decreases |s|
  {
    if pattern == [] || |s| < |pattern| then
      SubsequenceRefl(s);
      s
    else if s[..|pattern|] == pattern then
      var r := Replace(s[|pattern|..], pattern);
      SubsequenceOfSuffix(r, s, |pattern|);
      r
    else
      var r := Replace(s[1..], pattern);
      assert ([s[0]] + r)[1..] == r;
      [s[0]] + r
  }

  /** `s` with every character of `removed` deleted. */
  function Without(s: string, removed: set<char>): (r: string)
    ensures forall ch :: ch in r <==> ch in s && ch !in removed
    ensures IsSubsequence(r, s)
  {
    if s == [] then []
    else if s[0] in removed then
      var r := Without(s[1..], removed);
      assert forall ch :: ch in s <==> ch == s[0] || ch in s[1..];
      r
    else
      var r := Without(s[1..], removed);
      assert forall ch :: ch in s <==> ch == s[0] || ch in s[1..];
      assert ([s[0]] + r)[1..] == r;
      [s[0]] + r
  }

  // ---------------------------------------------------------------------
  // Subsequences

  lemma {:induction false} SubsequenceRefl(s: string)
    ensures IsSubsequence(s, s)
  {
    if s != [] {
      SubsequenceRefl(s[1..]);
    }
  }

  lemma {:induction false} SubsequenceOfSuffix(a: string, b: string, k: nat)
    requires k <= |b| && IsSubsequence(a, b[k..])
    ensures IsSubsequence(a, b)
  {
    if k > 0 {
      assert b[1..][k - 1..] == b[k..];
      SubsequenceOfSuffix(a, b[1..], k - 1);
    }
  }

  lemma {:induction false} SubsequenceTrans(a: string, b: string, c: string)
    requires IsSubsequence(a, b) && IsSubsequence(b, c)
    ensures IsSubsequence(a, c)
    decreases |c|
  {
    if a != [] {
      assert b != [] && c != [];
      if IsSubsequence(b, c[1..]) {
        SubsequenceTrans(a, b, c[1..]);
      } else if a[0] == b[0] && IsSubsequence(a[1..], b[1..]) {
        SubsequenceTrans(a[1..], b[1..], c[1..]);
      } else {
        SubsequenceTrans(a, b[1..], c[1..]);
      }
    }
  }

  /** Deleting characters never adds one, and never makes a string longer. */
  lemma {:induction false} SubsequenceShrinks(a: string, b: string)
    requires IsSubsequence(a, b)
    ensures |a| <= |b|
    ensures forall ch :: ch in a ==> ch in b
    decreases |b|
  {
    if a != [] {
      if a[0] == b[0] && IsSubsequence(a[1..], b[1..]) {
        SubsequenceShrinks(a[1..], b[1..]);
        assert forall ch :: ch in a ==> ch == a[0] || ch in a[1..];
      } else {
        SubsequenceShrinks(a, b[1..]);
      }
      assert forall ch :: ch in b[1..] ==> ch in b;
    }
  }

  /** Deleting no character at all leaves the string as it was. */
  lemma {:induction false} SubsequenceSameLength(a: string, b: string)
    requires IsSubsequence(a, b) && |a| == |b|
    ensures a == b
    decreases |b|
  {
    if a != [] {
      if IsSubsequence(a, b[1..]) {
        SubsequenceShrinks(a, b[1..]);
      } else {
        SubsequenceSameLength(a[1..], b[1..]);
        assert a == [a[0]] + a[1..] && b == [b[0]] + b[1..];
      }
    }
  }

  /** A solved candidate string can only stay as it is or become empty. */
  lemma SubsequenceOfSingleton(a: string, d: char)
    requires IsSubsequence(a, [d])
    ensures a == [d] || a == []
  {
    SubsequenceShrinks(a, [d]);
    if |a| == 1 {
      SubsequenceSameLength(a, [d]);
    }
  }

  /** Fixing a box to one of its candidates deletes the others. */
  lemma {:induction false} MemberIsSubsequence(d: char, b: string)
    requires d in b
    ensures IsSubsequence([d], b)
    decreases |b|
  {
    if b[0] != d {
      assert d in b[1..] by { assert b == [b[0]] + b[1..]; }
      MemberIsSubsequence(d, b[1..]);
    } else {
      assert [d][1..] == [];
    }
  }

  // ---------------------------------------------------------------------
  // Replace and Without

  /** Removing a one-character pattern removes exactly that character. */
  lemma {:induction false} ReplaceChar(s: string, d: char)
    ensures Replace(s, [d]) == Without(s, {d})
  {
    if s != [] {
      ReplaceChar(s[1..], d);
      if s[0] == d {
        assert s[..1] == [d];
        assert s[1..] == s[|[d]|..];
      } else {
        assert s[..|[d]|] != [d];
      }
    }
  }

  /** Removing one set of characters and then another removes their union. */
  lemma {:induction false} WithoutWithout(s: string, a: set<char>, b: set<char>)
    ensures Without(Without(s, a), b) == Without(s, a + b)
  {
    if s != [] {
      WithoutWithout(s[1..], a, b);
      if s[0] !in a {
        assert ([s[0]] + Without(s[1..], a))[1..] == Without(s[1..], a);
      }
    }
  }

  /** Removing characters a cell does not hold leaves it as it is. */
  lemma {:induction false} WithoutAbsent(s: string, removed: set<char>)
    requires forall ch :: ch in s ==> ch !in removed
    ensures Without(s, removed) == s
  {
    if s != [] {
      assert forall ch :: ch in s[1..] ==> ch in s;
      WithoutAbsent(s[1..], removed);
      assert s == [s[0]] + s[1..];
    }
  }

  /** Nine different digits include every digit. */
  lemma NineDigits(ds: seq<char>, digit: char)
    requires |ds| == 9 && Distinct(ds) && forall i :: 0 <= i < 9 ==> ds[i] in Digits
    requires digit in Digits
    ensures digit in ds
  {
    if digit !in ds {
      var t := (set ch | ch in Digits) - {digit};
      ElementsBound(Digits);
      assert (set ch | ch in Digits) == t + {digit};
      DistinctBound(ds, t);
      assert false;
    }
  }
}
