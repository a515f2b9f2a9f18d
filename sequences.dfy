/** Sequence helpers shared by the list-manipulating parts of the model. */
module Sequences {

  /** No element occurs twice. */
  predicate Distinct<T(==)>(s: seq<T>) {
    forall i, j :: 0 <= i < j < |s| ==> s[i] != s[j]
  }

  /**
   * What `List<T>.Remove(x)` does to a list: the first occurrence of `x`
   * is dropped, everything else keeps its order.
   */
  function RemoveFirst<T(==)>(s: seq<T>, x: T): (r: seq<T>)
    ensures x !in s ==> r == s
    ensures x in s ==> |r| == |s| - 1
  {
    if s == [] then []
    else if s[0] == x then s[1..]
    else [s[0]] + RemoveFirst(s[1..], x)
  }

  /** Removing a present element takes exactly one copy of it out of the multiset. */
  lemma {:induction false} RemoveFirstCount<T>(s: seq<T>, x: T)
    requires x in s
    ensures multiset(RemoveFirst(s, x)) == multiset(s) - multiset{x}
  {
    assert s == [s[0]] + s[1..];
    if s[0] != x {
      RemoveFirstCount(s[1..], x);
    }
  }

  /** The elements of `s` that are not in `r`, in their original order. */
  function Without<T(==)>(s: seq<T>, r: set<T>): (t: seq<T>)
    ensures |t| <= |s|
    ensures forall i :: 0 <= i < |t| ==> t[i] in s && t[i] !in r
    ensures forall i :: 0 <= i < |s| && s[i] !in r ==> s[i] in t
  {
    if s == [] then []
    else if s[0] in r then Without(s[1..], r)
    else [s[0]] + Without(s[1..], r)
  }

  lemma {:induction false} WithoutDistinct<T>(s: seq<T>, r: set<T>)
    requires Distinct(s)
    ensures Distinct(Without(s, r))
  {
    if s != [] {
      assert Distinct(s[1..]) by {
        forall i, j | 0 <= i < j < |s[1..]| ensures s[1..][i] != s[1..][j] {
          assert s[1..][i] == s[i + 1] && s[1..][j] == s[j + 1];
        }
      }
      WithoutDistinct(s[1..], r);
      if s[0] !in r {
        assert s[0] !in s[1..] by {
          forall k | 0 <= k < |s[1..]| ensures s[1..][k] != s[0] {
            assert s[1..][k] == s[k + 1];
          }
        }
        var t := Without(s[1..], r);
        assert s[0] !in t;
        forall i, j | 0 <= i < j < |[s[0]] + t| ensures ([s[0]] + t)[i] != ([s[0]] + t)[j] {
          if i == 0 {
            assert ([s[0]] + t)[j] == t[j - 1];
          } else {
            assert ([s[0]] + t)[i] == t[i - 1] && ([s[0]] + t)[j] == t[j - 1];
          }
        }
      }
    }
  }

  /** Filtering twice is filtering once by the union. */
  lemma {:induction false} WithoutWithout<T>(s: seq<T>, a: set<T>, b: set<T>)
    ensures Without(Without(s, a), b) == Without(s, a + b)
  {
    if s != [] {
      WithoutWithout(s[1..], a, b);
      if s[0] !in a {
        assert Without(s, a) == [s[0]] + Without(s[1..], a);
        assert Without(s, a)[1..] == Without(s[1..], a);
      }
    }
  }

  /** Filtering out elements that do not occur changes nothing. */
  lemma {:induction false} WithoutNothing<T>(s: seq<T>, r: set<T>)
    requires forall i :: 0 <= i < |s| ==> s[i] !in r
    ensures Without(s, r) == s
  {
    if s != [] {
      WithoutNothing(s[1..], r);
      assert s == [s[0]] + s[1..];
    }
  }

  /** On a list without repetitions, `Remove` is the same as filtering the element out. */
  lemma {:induction false} RemoveFirstIsWithout<T>(s: seq<T>, x: T)
    requires Distinct(s)
    ensures RemoveFirst(s, x) == Without(s, {x})
  {
    if s != [] {
      assert Distinct(s[1..]) by {
        forall i, j | 0 <= i < j < |s[1..]| ensures s[1..][i] != s[1..][j] {
          assert s[1..][i] == s[i + 1] && s[1..][j] == s[j + 1];
        }
      }
      if s[0] == x {
        assert x !in s[1..] by {
          forall k | 0 <= k < |s[1..]| ensures s[1..][k] != x {
            assert s[1..][k] == s[k + 1];
          }
        }
        WithoutNothing(s[1..], {x});
      } else {
        RemoveFirstIsWithout(s[1..], x);
      }
    }
  }

  /** Appending one fresh element keeps a list free of repetitions. */
  lemma DistinctAppend<T>(s: seq<T>, x: T)
    requires Distinct(s) && x !in s
    ensures Distinct(s + [x])
  {
    forall i, j | 0 <= i < j < |s + [x]| ensures (s + [x])[i] != (s + [x])[j] {
      if j == |s| {
        assert (s + [x])[i] == s[i];
      } else {
        assert (s + [x])[i] == s[i] && (s + [x])[j] == s[j];
      }
    }
  }

  /** Two repetition-free lists with no common element concatenate to a repetition-free list. */
  lemma DistinctConcat<T>(a: seq<T>, b: seq<T>)
    requires Distinct(a) && Distinct(b)
    requires forall i :: 0 <= i < |b| ==> b[i] !in a
    ensures Distinct(a + b)
  {
    forall i, j | 0 <= i < j < |a + b| ensures (a + b)[i] != (a + b)[j] {
      if j < |a| {
        assert (a + b)[i] == a[i] && (a + b)[j] == a[j];
      } else if i < |a| {
        assert (a + b)[i] == a[i] && (a + b)[j] == b[j - |a|];
      } else {
        assert (a + b)[i] == b[i - |a|] && (a + b)[j] == b[j - |a|];
      }
    }
  }

  /** Membership in a filtered list, stated for one element. */
  lemma WithoutMember<T>(s: seq<T>, r: set<T>, x: T)
    ensures x in Without(s, r) <==> x in s && x !in r
  {
    var t := Without(s, r);
    if x in t {
      var i :| 0 <= i < |t| && t[i] == x;
    }
    if x in s && x !in r {
      var i :| 0 <= i < |s| && s[i] == x;
    }
  }

  /** `RemoveFirst` drops exactly the first occurrence and keeps everything around it. */
  lemma {:induction false} RemoveFirstAt<T>(s: seq<T>, x: T, i: int)
    requires 0 <= i < |s| && s[i] == x && x !in s[..i]
    ensures RemoveFirst(s, x) == s[..i] + s[i + 1..]
  {
    if i == 0 {
      assert s[..0] + s[1..] == s[1..];
    } else {
      var t := s[1..];
      assert s[0] != x by { assert s[..i][0] == s[0]; }
      assert x !in t[..i - 1] by { assert t[..i - 1] == s[..i][1..]; }
      RemoveFirstAt(t, x, i - 1);
      assert s[..i] == [s[0]] + t[..i - 1];
      assert s[i + 1..] == t[i..];
    }
  }

  /** Filtering out every element leaves nothing. */
  lemma {:induction false} WithoutAll<T>(s: seq<T>, r: set<T>)
    requires forall i :: 0 <= i < |s| ==> s[i] in r
    ensures Without(s, r) == []
  {
    if s != [] {
      WithoutAll(s[1..], r);
    }
  }

  /** The set of elements of a sequence. */
  function Elements<T(!new)>(s: seq<T>): (r: set<T>)
    ensures forall x :: x in r <==> x in s
  {
    set x | x in s
  }

  /** Some element of a set that is not empty, as a witness for picking one. */
  ghost function Member<T>(s: set<T>): (x: T)
    requires s != {}
    ensures x in s
  {
    var x :| x in s; x
  }

  /** A prefix one longer is the prefix plus the next element. */
  lemma TakeOneMore<T>(s: seq<T>, i: int)
    requires 0 <= i < |s|
    ensures s[..i + 1] == s[..i] + [s[i]]
  {
  }

  /** Without repetitions, the tail holds every element but the first. */
  lemma DistinctTailMembers<T>(s: seq<T>)
    requires Distinct(s) && s != []
    ensures forall x :: x in s[1..] <==> x in s && x != s[0]
  {
    forall x | x in s[1..] ensures x != s[0] {
      var j :| 0 <= j < |s[1..]| && s[1..][j] == x;
      assert s[j + 1] == x;
    }
  }

  /** The elements of a prefix one longer are those of the prefix plus the next element. */
  lemma ElementsStep<T(!new)>(s: seq<T>, i: int)
    requires 0 <= i < |s|
    ensures Elements(s[..i + 1]) == Elements(s[..i]) + {s[i]}
  {
    assert s[..i + 1] == s[..i] + [s[i]];
  }
}
