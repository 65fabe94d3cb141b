/**
 * Sequence operations that mirror what a .NET `List<T>` of object
 * references does: `Remove` deletes the first element that is the same
 * object, and removing every element of a set is a filter that keeps the
 * order of the rest.
 */
module Sequences {

  /** No object occurs twice in `s`. */
  predicate Distinct<T(==)>(s: seq<T>) {
    forall i, j :: 0 <= i < j < |s| ==> s[i] != s[j]
  }

  /** The elements of `s` that are not in `xs`, in their original order. */
  function Except<T(==)>(s: seq<T>, xs: set<T>): (r: seq<T>)
    ensures |r| <= |s|
    ensures forall x :: x in r ==> x in s && x !in xs
    ensures forall x :: x in s && x !in xs ==> x in r
  {
    if s == [] then []
    else if s[0] in xs then Except(s[1..], xs)
    else [s[0]] + Except(s[1..], xs)
  }

  /** `List<T>.Remove(x)`: drops the first occurrence of `x`, if there is one. */
  function Without<T(==)>(s: seq<T>, x: T): (r: seq<T>)
    ensures x !in s ==> r == s
    ensures x in s ==> |r| == |s| - 1
    ensures multiset(r) == multiset(s) - multiset{x}
  {
    if s == [] then []
    else if s[0] == x then
      assert s == [s[0]] + s[1..];
      s[1..]
    else
      assert s == [s[0]] + s[1..];
      [s[0]] + Without(s[1..], x)
  }

  /**
   * `Without` removes the first occurrence of `x`: the element at the first
   * index where `x` occurs, with everything before and after it kept in order.
   */
  lemma {:induction false} WithoutFirst<T>(s: seq<T>, x: T) returns (i: nat)
    requires x in s
    ensures i < |s| && s[i] == x && x !in s[..i]
    ensures Without(s, x) == s[..i] + s[i + 1..]
  {
    if s[0] == x {
      i := 0;
    } else {
      var t := s[1..];
      assert x in t by {
        assert s == [s[0]] + t;
      }
      var j := WithoutFirst(t, x);
      i := j + 1;
      SplitAfterHead(s, j);
    }
  }

  /** Splitting around index `j + 1` of `s` splits its tail around `j`. */
  lemma SplitAfterHead<T>(s: seq<T>, j: nat)
    requires j + 1 < |s|
    ensures s[..j + 1] == [s[0]] + s[1..][..j]
    ensures s[j + 2..] == s[1..][j + 1..]
    ensures s[..j + 1] + s[j + 2..] == [s[0]] + (s[1..][..j] + s[1..][j + 1..])
  {
  }

  /** Filtering keeps distinct sequences distinct. */
  lemma {:induction false} ExceptDistinct<T>(s: seq<T>, xs: set<T>)
    requires Distinct(s)
    ensures Distinct(Except(s, xs))
  {
    if s != [] {
      assert Distinct(s[1..]) by {
        forall i, j | 0 <= i < j < |s[1..]| ensures s[1..][i] != s[1..][j] {
          assert s[1..][i] == s[i + 1] && s[1..][j] == s[j + 1];
        }
      }
      ExceptDistinct(s[1..], xs);
      assert s[0] !in s[1..] by {
        forall k | 0 <= k < |s[1..]| ensures s[1..][k] != s[0] {
          assert s[1..][k] == s[k + 1];
        }
      }
    }
  }

  /** Excluding an element that does not occur changes nothing. */
  lemma {:induction false} ExceptAbsent<T>(s: seq<T>, xs: set<T>, x: T)
    requires x !in s
    ensures Except(s, xs + {x}) == Except(s, xs)
  {
    if s != [] {
      assert s[0] != x;
      ExceptAbsent(s[1..], xs, x);
    }
  }

  /**
   * On a distinct sequence, removing one more object from an already
   * filtered list is the same as filtering by the enlarged set.
   */
  lemma {:induction false} WithoutExcept<T>(s: seq<T>, xs: set<T>, x: T)
    requires Distinct(s)
    ensures Without(Except(s, xs), x) == Except(s, xs + {x})
  {
    if s != [] {
      var t := s[1..];
      assert Distinct(t) by {
        forall i, j | 0 <= i < j < |t| ensures t[i] != t[j] {
          assert t[i] == s[i + 1] && t[j] == s[j + 1];
        }
      }
      if s[0] in xs {
        WithoutExcept(t, xs, x);
      } else if s[0] == x {
        assert x !in t by {
          forall k | 0 <= k < |t| ensures t[k] != x {
            assert t[k] == s[k + 1];
          }
        }
        ExceptAbsent(t, xs, x);
      } else {
        WithoutExcept(t, xs, x);
      }
    }
  }

  /** Excluding nothing keeps every element. */
  lemma {:induction false} ExceptNothing<T>(s: seq<T>)
    ensures Except(s, {}) == s
  {
    if s != [] {
      ExceptNothing(s[1..]);
      assert s == [s[0]] + s[1..];
    }
  }

  /** Only the elements of `s` matter to the filter. */
  lemma {:induction false} ExceptRestrict<T>(s: seq<T>, xs: set<T>, ys: set<T>)
    requires forall x :: x in s ==> (x in xs <==> x in ys)
    ensures Except(s, xs) == Except(s, ys)
  {
    if s != [] {
      ExceptRestrict(s[1..], xs, ys);
    }
  }

  /** Filtering a concatenation filters each part and keeps them in order. */
  lemma {:induction false} ExceptAppend<T>(s: seq<T>, t: seq<T>, xs: set<T>)
    ensures Except(s + t, xs) == Except(s, xs) + Except(t, xs)
  {
    if s == [] {
      assert s + t == t;
    } else {
      assert (s + t)[0] == s[0];
      assert (s + t)[1..] == s[1..] + t;
      ExceptAppend(s[1..], t, xs);
    }
  }

  /**
   * `Remove` of every element of `xs` in turn. On a distinct list this drops
   * exactly the elements of `xs` and keeps the rest in order.
   */
  method RemoveEach<T(==)>(s: seq<T>, xs: seq<T>) returns (r: seq<T>)
    requires Distinct(s)
    ensures r == Except(s, set x | x in xs)
  {
    ghost var removed: set<T> := {};
    r := s;
    ExceptNothing(s);
    for k := 0 to |xs|
      invariant removed == set x | x in xs[..k]
      invariant r == Except(s, removed)
    {
      WithoutExcept(s, removed, xs[k]);
      r := Without(r, xs[k]);
      assert xs[..k + 1] == xs[..k] + [xs[k]];
      ElementsOfLonger(xs[..k], xs[k]);
      removed := removed + {xs[k]};
    }
    assert xs[..|xs|] == xs;
  }

  /** The elements of `xs + [y]` are those of `xs` and `y`. */
  lemma ElementsOfLonger<T>(xs: seq<T>, y: T)
    ensures (set x | x in xs + [y]) == (set x | x in xs) + {y}
  {
  }
}
