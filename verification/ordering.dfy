/** Orders used by the SQL queries of the backend: `ORDER BY id` on integer
    keys and `ORDER BY name` on strings. */
module Ordering {

  /** Each element is smaller than every later one: sorted and duplicate-free. */
  predicate StrictlyIncreasing(s: seq<int>) {
    forall i, j | 0 <= i < j < |s| :: s[i] < s[j]
  }

  /** Every non-empty finite set of integers has a least element. */
  lemma {:induction false} MinExists(s: set<int>)
    requires s != {}
    ensures exists m :: m in s && forall y | y in s :: m <= y
  {
    var x := PickOne(s);
    if s == {x} {
      assert forall y | y in s :: x <= y;
    } else {
      MinExists(s - {x});
      var m :| m in s - {x} && forall y | y in s - {x} :: m <= y;
      forall y | y in s ensures y == x || y in s - {x} {}
      if x <= m {
        assert forall y | y in s :: x <= y;
      } else {
        assert forall y | y in s :: m <= y;
      }
    }
  }

  lemma EmptyWithoutElements(s: set<int>)
    requires forall e :: e !in s
    ensures s == {}
  {
    assert forall e :: e in s <==> e in {};
  }

  lemma NonEmptyHasElement(s: set<int>)
    requires s != {}
    ensures exists e :: e in s
  {
    if forall e :: e !in s {
      EmptyWithoutElements(s);
      assert false;
    }
  }

  /** Some element of a non-empty set. */
  ghost function PickOne(s: set<int>): (x: int)
    requires s != {}
    ensures x in s
  {
    NonEmptyHasElement(s);
    var e :| e in s; e
  }

  /** The least element of a non-empty set. */
  function Min(s: set<int>): (m: int)
    requires s != {}
    ensures m in s
    ensures forall y | y in s :: m <= y
  {
    MinExists(s);
    var m :| m in s && forall y | y in s :: m <= y; m
  }

  /** The elements of `s` in ascending order, each exactly once. */
  function SortedElements(s: set<int>): (r: seq<int>)
    ensures StrictlyIncreasing(r)
    ensures forall x :: x in r <==> x in s
    ensures |r| == |s|
    decreases |s|
  {
    if s == {} then []
    else
      var m := Min(s);
      var rest := SortedElements(s - {m});
      assert forall i | 0 <= i < |rest| :: m < rest[i] by {
        forall i | 0 <= i < |rest| ensures m < rest[i] {
          assert rest[i] in s - {m};
        }
      }
      [m] + rest
  }

  lemma HeadIsElement(x: seq<int>)
    requires x != []
    ensures x[0] in x
  {
  }

  /** A sorted duplicate-free sequence is determined by its elements. */
  lemma {:induction false} StrictlyIncreasingUnique(x: seq<int>, y: seq<int>)
    requires StrictlyIncreasing(x) && StrictlyIncreasing(y)
    requires forall e :: e in x <==> e in y
    ensures x == y
    decreases |x|
  {
    if x != [] && y != [] {
      // Both heads are the least element.
      assert x[0] == y[0] by {
        assert x[0] in y && y[0] in x;
        var i :| 0 <= i < |y| && y[i] == x[0];
        var j :| 0 <= j < |x| && x[j] == y[0];
        assert y[0] <= y[i] && x[0] <= x[j];
      }
      forall e ensures e in x[1..] <==> e in y[1..] {
        if e in x[1..] {
          var i :| 1 <= i < |x| && x[i] == e;
          assert x[0] < e;
        }
        if e in y[1..] {
          var i :| 1 <= i < |y| && y[i] == e;
          assert y[0] < e;
        }
        assert e in x <==> e in y;
        assert e in x <==> e == x[0] || e in x[1..] by { assert x == [x[0]] + x[1..]; }
        assert e in y <==> e == y[0] || e in y[1..] by { assert y == [y[0]] + y[1..]; }
      }
      StrictlyIncreasingUnique(x[1..], y[1..]);
      assert x == [x[0]] + x[1..] && y == [y[0]] + y[1..];
    } else if x != [] {
      HeadIsElement(x);
      assert false;
    } else if y != [] {
      HeadIsElement(y);
      assert false;
    }
  }

  /** A sequence has at most as many distinct elements as entries. */
  lemma {:induction false} DistinctCountBound(s: seq<int>)
    ensures |set x | x in s| <= |s|
  {
    if s != [] {
      DistinctCountBound(s[1..]);
      assert (set x | x in s) == {s[0]} + (set x | x in s[1..]);
    }
  }

  /** A sequence with as many distinct elements as entries repeats none. */
  lemma {:induction false} FullCountDistinct(s: seq<int>)
    requires |set x | x in s| == |s|
    ensures forall i, j | 0 <= i < j < |s| :: s[i] != s[j]
  {
    if s != [] {
      var tail := s[1..];
      assert (set x | x in s) == {s[0]} + (set x | x in tail);
      DistinctCountBound(tail);
      if s[0] in tail {
        assert false;
      }
      FullCountDistinct(tail);
      forall i, j | 0 <= i < j < |s| ensures s[i] != s[j] {
        assert s[j] == tail[j - 1];
        if i > 0 {
          assert s[i] == tail[i - 1];
        }
      }
    }
  }

  /** Lexicographic order on strings, characters compared by code point
      (the order of the PostgreSQL "C" collation). */
  predicate LexLe(a: string, b: string)
    decreases |a|
  {
    |a| == 0 || (|b| > 0 && (a[0] < b[0] || (a[0] == b[0] && LexLe(a[1..], b[1..]))))
  }

  /** Any two strings are comparable. */
  lemma {:induction false} LexLeTotal(a: string, b: string)
    ensures LexLe(a, b) || LexLe(b, a)
    decreases |a|
  {
    if |a| > 0 && |b| > 0 && a[0] == b[0] {
      LexLeTotal(a[1..], b[1..]);
    }
  }

  lemma {:induction false} LexLeTransitive(a: string, b: string, c: string)
    requires LexLe(a, b) && LexLe(b, c)
    ensures LexLe(a, c)
    decreases |a|
  {
    if |a| > 0 && a[0] == b[0] && b[0] == c[0] {
      LexLeTransitive(a[1..], b[1..], c[1..]);
    }
  }
}
