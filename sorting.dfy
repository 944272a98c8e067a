/** The two orderings the ledger takes from the JavaScript runtime: sorting
    by a string key (`Array.prototype.sort`, which compares strings by code
    units) and sorting by a numeric key with a `b - a` comparator, both so
    that the largest key comes first; and the spread of a `Set`, which keeps
    each value once, in order of first occurrence. */
module Sorting {
  import opened Strings

  /** `a <= b` in the string order. */
  predicate LexAtMost(a: string, b: string)
  {
    !LexLess(b, a)
  }

  lemma LexAtMostTransitive(a: string, b: string, c: string)
    requires LexAtMost(a, b) && LexAtMost(b, c)
    ensures LexAtMost(a, c)
  {
    if LexLess(c, a) {
      if a == b {
      } else {
        LexLessTotal(a, b);
        LexLessTransitive(c, a, b);
      }
    }
  }

  /** Keys never increase from left to right. */
  predicate SortedDescBy<T>(s: seq<T>, key: T -> string)
  {
    forall i, j :: 0 <= i < j < |s| ==> LexAtMost(key(s[j]), key(s[i]))
  }

  lemma SortedCons<T>(x: T, s: seq<T>, key: T -> string)
    requires SortedDescBy(s, key)
    requires forall y :: y in s ==> LexAtMost(key(y), key(x))
    ensures SortedDescBy([x] + s, key)
  {
    var r := [x] + s;
    forall i, j | 0 <= i < j < |r|
      ensures LexAtMost(key(r[j]), key(r[i]))
    {
      if i == 0 {
        assert r[j] in s;
      } else {
        assert r[i] == s[i - 1] && r[j] == s[j - 1];
      }
    }
  }

  /** Puts `x` before the first element whose key is not greater than its
      own, so among equal keys the earlier-inserted element stays first. */
  function InsertDescBy<T>(x: T, s: seq<T>, key: T -> string): (r: seq<T>)
    requires SortedDescBy(s, key)
    ensures multiset(r) == multiset(s) + multiset{x}
    ensures SortedDescBy(r, key)
  {
    if |s| == 0 then [x]
    else if LexAtMost(key(s[0]), key(x)) then
      InsertAtFront(x, s, key);
      [x] + s
    else
      var rest := InsertDescBy(x, s[1..], key);
      assert s == [s[0]] + s[1..];
      InsertBehind(x, s, rest, key);
      [s[0]] + rest
  }

  lemma InsertAtFront<T>(x: T, s: seq<T>, key: T -> string)
    requires SortedDescBy(s, key) && |s| > 0 && LexAtMost(key(s[0]), key(x))
    ensures SortedDescBy([x] + s, key)
  {
    forall y | y in s
      ensures LexAtMost(key(y), key(x))
    {
      var k :| 0 <= k < |s| && s[k] == y;
      if k > 0 {
        LexAtMostTransitive(key(y), key(s[0]), key(x));
      }
    }
    SortedCons(x, s, key);
  }

  lemma InsertBehind<T>(x: T, s: seq<T>, rest: seq<T>, key: T -> string)
    requires SortedDescBy(s, key) && |s| > 0 && !LexAtMost(key(s[0]), key(x))
    requires SortedDescBy(rest, key)
    requires multiset(rest) == multiset(s[1..]) + multiset{x}
    ensures SortedDescBy([s[0]] + rest, key)
  {
    forall y | y in rest
      ensures LexAtMost(key(y), key(s[0]))
    {
      assert y in multiset(rest);
      if y == x {
        LexLessAsymmetric(key(x), key(s[0]));
      } else {
        assert y in multiset(s[1..]);
        var k :| 0 <= k < |s[1..]| && s[1..][k] == y;
        assert s[k + 1] == y;
      }
    }
    SortedCons(s[0], rest, key);
  }

  /** Insertion sort by key, largest key first: a sorted permutation. */
  function SortDescBy<T>(s: seq<T>, key: T -> string): (r: seq<T>)
    ensures multiset(r) == multiset(s)
    ensures |r| == |s|
    ensures SortedDescBy(r, key)
  {
    if |s| == 0 then []
    else
      assert s == [s[0]] + s[1..];
      InsertDescBy(s[0], SortDescBy(s[1..], key), key)
  }

  // ---------------------------------------------------------------------
  // Numeric keys

  predicate SortedDescByInt<T>(s: seq<T>, key: T -> int)
  {
    forall i, j :: 0 <= i < j < |s| ==> key(s[j]) <= key(s[i])
  }

  /** Puts `x` before the first element whose key is not greater than its own. */
  function InsertDescByInt<T>(x: T, s: seq<T>, key: T -> int): (r: seq<T>)
    requires SortedDescByInt(s, key)
    ensures multiset(r) == multiset(s) + multiset{x}
    ensures SortedDescByInt(r, key)
  {
    if |s| == 0 then [x]
    else if key(s[0]) <= key(x) then [x] + s
    else
      var rest := InsertDescByInt(x, s[1..], key);
      assert s == [s[0]] + s[1..];
      InsertBehindInt(x, s, rest, key);
      [s[0]] + rest
  }

  lemma InsertBehindInt<T>(x: T, s: seq<T>, rest: seq<T>, key: T -> int)
    requires SortedDescByInt(s, key) && |s| > 0 && key(x) < key(s[0])
    requires SortedDescByInt(rest, key)
    requires multiset(rest) == multiset(s[1..]) + multiset{x}
    ensures SortedDescByInt([s[0]] + rest, key)
  {
    var r := [s[0]] + rest;
    forall i, j | 0 <= i < j < |r|
      ensures key(r[j]) <= key(r[i])
    {
      if i == 0 {
        var y := r[j];
        assert y in rest;
        assert y in multiset(rest);
        if y != x {
          assert y in multiset(s[1..]);
          var k :| 0 <= k < |s[1..]| && s[1..][k] == y;
          assert s[k + 1] == y;
        }
      } else {
        assert r[i] == rest[i - 1] && r[j] == rest[j - 1];
      }
    }
  }

  /** `s.sort((a, b) => key(b) - key(a))`: a permutation, largest key first. */
  function SortDescByInt<T>(s: seq<T>, key: T -> int): (r: seq<T>)
    ensures multiset(r) == multiset(s)
    ensures |r| == |s|
    ensures SortedDescByInt(r, key)
  {
    if |s| == 0 then []
    else
      assert s == [s[0]] + s[1..];
      InsertDescByInt(s[0], SortDescByInt(s[1..], key), key)
  }

  // ---------------------------------------------------------------------
  // Distinct values

  predicate NoDuplicates<T(==)>(s: seq<T>)
  {
    forall i, j :: 0 <= i < j < |s| ==> s[i] != s[j]
  }

  /** `[...new Set(s)]`: every value of `s` once, in order of first occurrence. */
  function Distinct<T(==,!new)>(s: seq<T>): (r: seq<T>)
    ensures NoDuplicates(r)
    ensures forall x :: x in r <==> x in s
  {
    if |s| == 0 then []
    else
      var r := Distinct(s[..|s| - 1]);
      assert forall x :: x in s <==> x in s[..|s| - 1] || x == s[|s| - 1];
      if s[|s| - 1] in r then r else r + [s[|s| - 1]]
  }

  /** A sequence without duplicates is as long as its set of values. */
  lemma {:induction false} NoDuplicatesCard<T>(s: seq<T>)
    requires NoDuplicates(s)
    ensures |set x | x in s| == |s|
  {
    if |s| > 0 {
      var t := s[..|s| - 1];
      NoDuplicatesCard(t);
      assert (set x | x in s) == (set x | x in t) + {s[|s| - 1]};
      assert s[|s| - 1] !in t by {
        forall k | 0 <= k < |t| ensures t[k] != s[|s| - 1] { assert t[k] == s[k]; }
      }
    }
  }

  /** A value occurs at most once in a sequence without duplicates. */
  lemma {:induction false} NoDuplicatesOnce<T>(s: seq<T>, x: T)
    requires NoDuplicates(s)
    ensures multiset(s)[x] <= 1
  {
    if |s| > 0 {
      var t := s[..|s| - 1];
      assert s == t + [s[|s| - 1]];
      assert NoDuplicates(t);
      NoDuplicatesOnce(t, x);
      if s[|s| - 1] == x {
        assert x !in t by {
          forall k | 0 <= k < |t| ensures t[k] != x { assert t[k] == s[k]; }
        }
      }
    }
  }

  /** A permutation of a sequence without duplicates has none either. */
  lemma PermutationNoDuplicates<T>(s: seq<T>, r: seq<T>)
    requires NoDuplicates(s) && multiset(r) == multiset(s)
    ensures NoDuplicates(r)
  {
    forall i, j | 0 <= i < j < |r|
      ensures r[i] != r[j]
    {
      if r[i] == r[j] {
        assert r == r[..j] + [r[j]] + r[j + 1..];
        assert r[i] in r[..j];
        NoDuplicatesOnce(s, r[i]);
        assert false;
      }
    }
  }

  /** A sorted sequence without duplicates is strictly decreasing. */
  lemma SortedDistinctStrict<T>(s: seq<T>, key: T -> string, i: int, j: int)
    requires SortedDescBy(s, key) && (forall a, b :: 0 <= a < b < |s| ==> key(s[a]) != key(s[b]))
    requires 0 <= i < j < |s|
    ensures LexLess(key(s[j]), key(s[i]))
  {
    LexLessTotal(key(s[i]), key(s[j]));
  }
}
