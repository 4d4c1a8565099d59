/** List operations the solver's comprehensions and loops are built from. */
module Lists {

  ghost predicate Distinct<T>(s: seq<T>) {
    forall i, j :: 0 <= i < j < |s| ==> s[i] != s[j]
  }

  /** `[x for x in s if p(x)]`. */
  function Select<T(!new)>(s: seq<T>, p: T -> bool): (r: seq<T>)
    ensures forall x :: x in r <==> x in s && p(x)
    ensures |r| <= |s|
  {
    if s == [] then []
    else
      var rest := Select(s[1..], p);
      assert forall x :: x in s <==> x == s[0] || x in s[1..];
      if p(s[0]) then [s[0]] + rest else rest
  }

  /** Keeping some elements of a list without repeats gives a list without repeats. */
  lemma {:induction false} SelectDistinct<T(!new)>(s: seq<T>, p: T -> bool)
    requires Distinct(s)
    ensures Distinct(Select(s, p))
  {
    if s != [] {
      SelectDistinct(s[1..], p);
      var rest := Select(s[1..], p);
      if p(s[0]) {
        forall k | 0 <= k < |s[1..]| ensures s[1..][k] != s[0] {
          assert s[1..][k] == s[k + 1];
        }
        assert s[0] !in rest;
        var r := [s[0]] + rest;
        forall i, j | 0 <= i < j < |r| ensures r[i] != r[j] {
          if i == 0 {
            assert r[j] in rest;
          } else {
            assert r[i] == rest[i - 1] && r[j] == rest[j - 1];
          }
        }
      }
    }
  }

  /** Python's `list.remove(x)`: drops the first occurrence of `x`. */
  function RemoveFirst<T(==,!new)>(s: seq<T>, x: T): (r: seq<T>)
    requires x in s
    ensures |r| == |s| - 1
  {
    if s[0] == x then s[1..]
    else
      assert x in s[1..] by { assert s == [s[0]] + s[1..]; }
      [s[0]] + RemoveFirst(s[1..], x)
  }

  /** `list.remove(x)` takes away exactly one copy of `x` and keeps the rest. */
  lemma {:induction false} RemoveFirstContents<T(!new)>(s: seq<T>, x: T)
    requires x in s
    ensures multiset(RemoveFirst(s, x)) == multiset(s) - multiset{x}
  {
    assert s == [s[0]] + s[1..];
    if s[0] != x {
      assert x in s[1..];
      RemoveFirstContents(s[1..], x);
    }
  }

  /** In a list without repeats, removing the i-th element's value removes
      exactly the i-th position; what is left has no repeats and lacks it. */
  lemma RemoveFirstAt<T(!new)>(s: seq<T>, i: int)
    requires Distinct(s) && 0 <= i < |s|
    ensures RemoveFirst(s, s[i]) == s[..i] + s[i + 1..]
    ensures Distinct(RemoveFirst(s, s[i]))
    ensures s[i] !in RemoveFirst(s, s[i])
    ensures forall x :: x in RemoveFirst(s, s[i]) ==> x in s
  {
    assert s[i] !in s[..i] by {
      forall k | 0 <= k < i ensures s[..i][k] != s[i] {
        assert s[..i][k] == s[k];
      }
    }
    RemoveFirstSplit(s, i);
    DropAt(s, i);
  }

  /** Removing the value at `i` removes position `i` when the value does not occur earlier. */
  lemma {:induction false} RemoveFirstSplit<T(!new)>(s: seq<T>, i: int)
    requires 0 <= i < |s| && s[i] !in s[..i]
    ensures RemoveFirst(s, s[i]) == s[..i] + s[i + 1..]
  {
    if i > 0 {
      var t := s[1..];
      assert s[0] in s[..i] && t[i - 1] == s[i] && t[..i - 1] == s[1..i];
      assert s[1..i] <= s[..i][1..];
      RemoveFirstSplit(t, i - 1);
      assert RemoveFirst(s, s[i]) == [s[0]] + RemoveFirst(t, s[i]);
      assert t[i..] == s[i + 1..];
      assert [s[0]] + s[1..i] == s[..i];
    }
  }

  /** Dropping the entry at `i` from a list without repeats. */
  lemma DropAt<T>(s: seq<T>, i: int)
    requires Distinct(s) && 0 <= i < |s|
    ensures Distinct(s[..i] + s[i + 1..])
    ensures s[i] !in s[..i] + s[i + 1..]
    ensures forall x :: x in s[..i] + s[i + 1..] ==> x in s
  {
    var r := s[..i] + s[i + 1..];
    forall a, b | 0 <= a < b < |r| ensures r[a] != r[b] {
      var a', b' := if a < i then a else a + 1, if b < i then b else b + 1;
      assert r[a] == s[a'] && r[b] == s[b'];
    }
    forall x | x in r ensures x in s && x != s[i] {
      var k :| 0 <= k < |r| && r[k] == x;
      var k' := if k < i then k else k + 1;
      assert r[k] == s[k'];
    }
  }

  /** The distinct elements of a list are no more than its length. */
  lemma {:induction false} ElementsBound<T>(s: seq<T>)
    ensures |set x | x in s| <= |s|
  {
    if s != [] {
      ElementsBound(s[1..]);
      assert (set x | x in s) == (set x | x in s[1..]) + {s[0]};
    }
  }

  /** A list without repeats drawn from `t` is no longer than `t` is large. */
  lemma {:induction false} DistinctBound<T>(s: seq<T>, t: set<T>)
    requires Distinct(s) && forall i :: 0 <= i < |s| ==> s[i] in t
    ensures |s| <= |t|
  {
    if s != [] {
      var rest := t - {s[0]};
      forall i | 0 <= i < |s[1..]| ensures s[1..][i] in rest {
        assert s[1..][i] == s[i + 1] && s[i + 1] != s[0];
      }
      DistinctBound(s[1..], rest);
      assert t == rest + {s[0]};
    }
  }
}
