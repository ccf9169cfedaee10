/** The two library calls the tree's constructor makes on its input array,
    `Array#uniq` followed by `Array#sort`, over integers. */
module ArrayOps {

  predicate Sorted(s: seq<int>) {
    forall i, j :: 0 <= i < j < |s| ==> s[i] <= s[j]
  }

  predicate StrictlyIncreasing(s: seq<int>) {
    forall i, j :: 0 <= i < j < |s| ==> s[i] < s[j]
  }

  predicate Distinct(s: seq<int>) {
    forall i, j :: 0 <= i < j < |s| ==> s[i] != s[j]
  }

  /** `Array#uniq`: the first occurrence of every element, in input order. */
  function Uniq(s: seq<int>): (u: seq<int>)
    ensures Distinct(u)
    ensures forall x :: x in u <==> x in s
    ensures |u| <= |s|
  {
    if s == [] then []
    else
      var front, last := s[..|s| - 1], s[|s| - 1];
      assert s == front + [last];
      var u := Uniq(front);
      if last in u then u else u + [last]
  }

  /** Prepending an element no greater than all of `t` keeps `t` sorted. */
  lemma PrependKeepsSorted(h: int, t: seq<int>)
    requires forall y :: y in t ==> h <= y
    requires Sorted(t)
    ensures Sorted([h] + t)
  {
    var r := [h] + t;
    forall i, j | 0 <= i < j < |r| ensures r[i] <= r[j] {
      assert r[j] == t[j - 1];
      if i > 0 { assert r[i] == t[i - 1]; } else { assert t[j - 1] in t; }
    }
  }

  /** Prepending an element smaller than all of `t` keeps `t` strictly increasing. */
  lemma PrependKeepsStrict(h: int, t: seq<int>)
    requires forall y :: y in t ==> h < y
    requires StrictlyIncreasing(t)
    ensures StrictlyIncreasing([h] + t)
  {
    var r := [h] + t;
    forall i, j | 0 <= i < j < |r| ensures r[i] < r[j] {
      assert r[j] == t[j - 1];
      if i > 0 { assert r[i] == t[i - 1]; } else { assert t[j - 1] in t; }
    }
  }

  /** Two strictly increasing sequences on either side of `d`, all below and
      all above it, join into a strictly increasing sequence. */
  lemma JoinStrict(a: seq<int>, d: int, b: seq<int>)
    requires StrictlyIncreasing(a) && StrictlyIncreasing(b)
    requires forall x :: x in a ==> x < d
    requires forall x :: x in b ==> d < x
    ensures StrictlyIncreasing(a + [d] + b)
  {
    var s := a + [d] + b;
    forall i, j | 0 <= i < j < |s| ensures s[i] < s[j] {
      if j < |a| {
        assert s[i] == a[i] && s[j] == a[j];
      } else if i > |a| {
        assert s[i] == b[i - |a| - 1] && s[j] == b[j - |a| - 1];
      } else {
        if i < |a| { assert s[i] == a[i] && a[i] in a; }
        if j > |a| { assert s[j] == b[j - |a| - 1] && b[j - |a| - 1] in b; }
      }
    }
  }

  /** The converse of `JoinStrict`. */
  lemma SplitStrict(a: seq<int>, d: int, b: seq<int>)
    requires StrictlyIncreasing(a + [d] + b)
    ensures StrictlyIncreasing(a) && StrictlyIncreasing(b)
    ensures forall x :: x in a ==> x < d
    ensures forall x :: x in b ==> d < x
  {
    var s := a + [d] + b;
    forall i, j | 0 <= i < j < |a| ensures a[i] < a[j] {
      assert s[i] == a[i] && s[j] == a[j];
    }
    forall i, j | 0 <= i < j < |b| ensures b[i] < b[j] {
      assert s[|a| + 1 + i] == b[i] && s[|a| + 1 + j] == b[j];
    }
    forall x | x in a ensures x < d {
      var k :| 0 <= k < |a| && a[k] == x;
      assert s[k] == x && s[|a|] == d;
    }
    forall x | x in b ensures d < x {
      var k :| 0 <= k < |b| && b[k] == x;
      assert s[|a| + 1 + k] == x && s[|a|] == d;
    }
  }

  /** Inserts `x` into a sorted sequence, before the first element not below it. */
  function InsertSorted(x: int, s: seq<int>): seq<int>
  {
    if s == [] || x <= s[0] then [x] + s
    else [s[0]] + InsertSorted(x, s[1..])
  }

  lemma {:induction false} InsertSortedCorrect(x: int, s: seq<int>)
    requires Sorted(s)
    ensures Sorted(InsertSorted(x, s))
    ensures multiset(InsertSorted(x, s)) == multiset(s) + multiset{x}
  {
    if s == [] || x <= s[0] {
      forall y | y in s ensures x <= y {
        var k :| 0 <= k < |s| && s[k] == y;
        assert s[0] <= s[k];
      }
      PrependKeepsSorted(x, s);
    } else {
      var tail := s[1..];
      assert s == [s[0]] + tail;
      InsertSortedCorrect(x, tail);
      var t := InsertSorted(x, tail);
      forall y | y in t ensures s[0] <= y {
        assert y in multiset(t);
        if y != x {
          assert y in multiset(tail);
          var k :| 0 <= k < |tail| && tail[k] == y;
          assert s[0] <= s[k + 1];
        }
      }
      PrependKeepsSorted(s[0], t);
    }
  }

  lemma {:induction false} InsertSortedStrict(x: int, s: seq<int>)
    requires StrictlyIncreasing(s) && x !in s
    ensures StrictlyIncreasing(InsertSorted(x, s))
  {
    if s == [] || x <= s[0] {
      forall y | y in s ensures x < y {
        var k :| 0 <= k < |s| && s[k] == y;
        assert s[0] <= s[k];
      }
      PrependKeepsStrict(x, s);
    } else {
      var tail := s[1..];
      assert s == [s[0]] + tail;
      InsertSortedStrict(x, tail);
      InsertSortedCorrect(x, tail);
      var t := InsertSorted(x, tail);
      forall y | y in t ensures s[0] < y {
        assert y in multiset(t);
        if y != x {
          assert y in multiset(tail);
          var k :| 0 <= k < |tail| && tail[k] == y;
          assert s[0] < s[k + 1];
        }
      }
      PrependKeepsStrict(s[0], t);
    }
  }

  /** `Array#sort` on integers: the ascending permutation of `s`, by insertion. */
  function Sort(s: seq<int>): seq<int>
  {
    if s == [] then [] else InsertSorted(s[0], Sort(s[1..]))
  }

  lemma {:induction false} SortCorrect(s: seq<int>)
    ensures Sorted(Sort(s))
    ensures multiset(Sort(s)) == multiset(s)
  {
    if s != [] {
      var tail := s[1..];
      assert s == [s[0]] + tail;
      SortCorrect(tail);
      InsertSortedCorrect(s[0], Sort(tail));
    }
  }

  /** Sorting a sequence without repetitions gives a strictly increasing one. */
  lemma {:induction false} SortDistinct(s: seq<int>)
    requires Distinct(s)
    ensures StrictlyIncreasing(Sort(s))
  {
    if s != [] {
      var tail := s[1..];
      assert Distinct(tail) by {
        forall i, j | 0 <= i < j < |tail| ensures tail[i] != tail[j] {
          assert tail[i] == s[i + 1] && tail[j] == s[j + 1];
        }
      }
      SortDistinct(tail);
      SortCorrect(tail);
      var rest := Sort(tail);
      assert s[0] !in tail by {
        forall k | 0 <= k < |tail| ensures tail[k] != s[0] {
          assert tail[k] == s[k + 1];
        }
      }
      assert s[0] !in multiset(rest);
      InsertSortedStrict(s[0], rest);
    }
  }

  /** `array.uniq.sort`: the distinct elements of the input in ascending order. */
  function SortedUnique(s: seq<int>): (r: seq<int>)
    ensures StrictlyIncreasing(r)
    ensures forall x :: x in r <==> x in s
  {
    var u := Uniq(s);
    SortCorrect(u);
    SortDistinct(u);
    var r := Sort(u);
    assert forall x :: x in r <==> x in multiset(u);
    r
  }

  /** `[5, 3, 8, 3, 1].uniq.sort` is `[1, 3, 5, 8]`. */
  lemma SortedUniqueExample()
    ensures SortedUnique([5, 3, 8, 3, 1]) == [1, 3, 5, 8]
  {
    var items, sorted := [5, 3, 8, 3, 1], [1, 3, 5, 8];
    forall x ensures x in SortedUnique(items) <==> x in sorted {
      assert x in items <==> x in sorted;
    }
    SameElementsSameSequence(SortedUnique(items), sorted);
  }

  lemma EmptyWhenOtherIs(a: seq<int>, b: seq<int>)
    requires forall x :: x in a <==> x in b
    ensures a == [] <==> b == []
  {
    if a != [] { var x := a[0]; assert x in a && (x in a <==> x in b); }
    if b != [] { var x := b[0]; assert x in b && (x in a <==> x in b); }
  }

  /** The tail of a strictly increasing sequence holds every element but the
      head. */
  lemma StrictTail(a: seq<int>)
    requires StrictlyIncreasing(a) && a != []
    ensures forall x :: x in a ==> a[0] <= x
    ensures forall x :: x in a[1..] <==> x in a && x != a[0]
  {
    forall x | x in a ensures a[0] <= x {
      var k :| 0 <= k < |a| && a[k] == x;
      assert k == 0 || a[0] < a[k];
    }
    forall x ensures x in a[1..] <==> x in a && x != a[0] {
      if x in a[1..] {
        var k :| 0 <= k < |a| - 1 && a[1..][k] == x;
        assert a[0] < a[k + 1];
      }
      if x in a && x != a[0] {
        var k :| 0 <= k < |a| && a[k] == x;
        assert a[1..][k - 1] == x;
      }
    }
  }

  /** Two strictly increasing sequences with the same elements are equal: the
      sorted, deduplicated form of an array is determined by its element set. */
  lemma {:induction false} SameElementsSameSequence(a: seq<int>, b: seq<int>)
    requires StrictlyIncreasing(a) && StrictlyIncreasing(b)
    requires forall x :: x in a <==> x in b
    ensures a == b
  {
    EmptyWhenOtherIs(a, b);
    if a != [] {
      StrictTail(a);
      StrictTail(b);
      // the heads are both the least element
      assert a[0] in b && b[0] in a;
      assert a[0] == b[0];
      assert StrictlyIncreasing(a[1..]) && StrictlyIncreasing(b[1..]) by {
        forall i, j | 0 <= i < j < |a| - 1 ensures a[1..][i] < a[1..][j] {
          assert a[1..][i] == a[i + 1] && a[1..][j] == a[j + 1];
        }
        forall i, j | 0 <= i < j < |b| - 1 ensures b[1..][i] < b[1..][j] {
          assert b[1..][i] == b[i + 1] && b[1..][j] == b[j + 1];
        }
      }
      SameElementsSameSequence(a[1..], b[1..]);
      assert a == [a[0]] + a[1..];
      assert b == [b[0]] + b[1..];
    }
  }
}
