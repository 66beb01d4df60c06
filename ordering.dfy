/**
 * Orders used by the source's sorts and `order_by` clauses. A sort key is a sequence of
 * integers compared lexicographically, which is how Python compares tuples and strings and
 * how SQLite's default BINARY collation compares text (by code point). Python's `list.sort`
 * is stable; `SortBy` is a stable insertion sort.
 */
module Ordering {
  import opened Text

  /** `a` comes no later than `b`: the first difference decides, and a proper prefix comes first. */
  predicate LexLe(a: seq<int>, b: seq<int>)
  {
    a == [] || (b != [] && (a[0] < b[0] || (a[0] == b[0] && LexLe(a[1..], b[1..]))))
  }

  lemma {:induction false} LexLeRefl(a: seq<int>)
    ensures LexLe(a, a)
  {
    if a != [] { LexLeRefl(a[1..]); }
  }

  lemma {:induction false} LexLeTotal(a: seq<int>, b: seq<int>)
    ensures LexLe(a, b) || LexLe(b, a)
  {
    if a != [] && b != [] && a[0] == b[0] { LexLeTotal(a[1..], b[1..]); }
  }

  lemma {:induction false} LexLeTrans(a: seq<int>, b: seq<int>, c: seq<int>)
    requires LexLe(a, b) && LexLe(b, c)
    ensures LexLe(a, c)
  {
    if a != [] && a[0] == b[0] && b[0] == c[0] { LexLeTrans(a[1..], b[1..], c[1..]); }
  }

  lemma {:induction false} LexLeAntisym(a: seq<int>, b: seq<int>)
    requires LexLe(a, b) && LexLe(b, a)
    ensures a == b
  {
    if a != [] { LexLeAntisym(a[1..], b[1..]); }
  }

  /** Comparing two keys that start with one number each: the numbers decide first. */
  lemma LexLeCons(x: int, a: seq<int>, y: int, b: seq<int>)
    ensures LexLe([x] + a, [y] + b) <==> x < y || (x == y && LexLe(a, b))
  {
    assert ([x] + a)[1..] == a && ([y] + b)[1..] == b;
  }

  /**
   * The key of a pair of strings compared component by component, as a tuple of two strings
   * is compared: -1 ends the first component and is below every character code.
   */
  function PairKey(a: string, b: string): seq<int>
  {
    Codes(a) + [-1] + Codes(b)
  }

  /** Tuple order on pairs of strings: the first components decide unless they are equal. */
  lemma PairKeyOrder(a: string, b: string, c: string, d: string)
    ensures LexLe(PairKey(a, b), PairKey(c, d)) <==>
            (a != c && LexLe(Codes(a), Codes(c))) || (a == c && LexLe(Codes(b), Codes(d)))
  {
    SeparatedOrder(Codes(a), Codes(b), Codes(c), Codes(d));
    if Codes(a) == Codes(c) { CodesInjective(a, c); }
  }

  predicate NonNegative(x: seq<int>)
  {
    forall k :: 0 <= k < |x| ==> x[k] >= 0
  }

  lemma SeparatedUnfold(x: seq<int>, p: seq<int>)
    requires x != []
    ensures x + [-1] + p == [x[0]] + (x[1..] + [-1] + p)
  {
  }

  /** Two keys made of a non-negative part, the separator -1 and a rest compare part first. */
  lemma {:induction false} SeparatedOrder(x: seq<int>, p: seq<int>, y: seq<int>, q: seq<int>)
    requires NonNegative(x) && NonNegative(y)
    ensures LexLe(x + [-1] + p, y + [-1] + q) <==> (x != y && LexLe(x, y)) || (x == y && LexLe(p, q))
  {
    if x == [] && y == [] {
      assert x + [-1] + p == [-1] + p && y + [-1] + q == [-1] + q;
      LexLeCons(-1, p, -1, q);
    } else if x == [] {
      assert x + [-1] + p == [-1] + p;
      SeparatedUnfold(y, q);
      LexLeCons(-1, p, y[0], y[1..] + [-1] + q);
    } else if y == [] {
      assert y + [-1] + q == [-1] + q;
      SeparatedUnfold(x, p);
      LexLeCons(x[0], x[1..] + [-1] + p, -1, q);
    } else {
      SeparatedOrder(x[1..], p, y[1..], q);
      SeparatedUnfold(x, p);
      SeparatedUnfold(y, q);
      LexLeCons(x[0], x[1..] + [-1] + p, y[0], y[1..] + [-1] + q);
      assert x == y <==> x[0] == y[0] && x[1..] == y[1..] by {
        assert x == [x[0]] + x[1..] && y == [y[0]] + y[1..];
      }
    }
  }

  /** Each element's key is no greater than the next one's. */
  predicate SortedBy<T>(s: seq<T>, key: T -> seq<int>)
  {
    forall i :: 0 < i < |s| ==> LexLe(key(s[i - 1]), key(s[i]))
  }

  /** In a sorted sequence every earlier key is no greater than every later one. */
  lemma {:induction false} SortedPair<T>(s: seq<T>, key: T -> seq<int>, i: nat, j: nat)
    requires SortedBy(s, key) && i <= j < |s|
    ensures LexLe(key(s[i]), key(s[j]))
  {
    if i == j {
      LexLeRefl(key(s[i]));
    } else {
      SortedPair(s, key, i, j - 1);
      LexLeTrans(key(s[i]), key(s[j - 1]), key(s[j]));
    }
  }

  /** `x` placed before the first element whose key is not below its own. */
  function Insert<T>(x: T, s: seq<T>, key: T -> seq<int>): (r: seq<T>)
    ensures |r| == |s| + 1
  {
    if s == [] then [x]
    else if LexLe(key(x), key(s[0])) then [x] + s
    else [s[0]] + Insert(x, s[1..], key)
  }

  /** Inserting adds exactly `x`. */
  lemma {:induction false} InsertPermutes<T>(x: T, s: seq<T>, key: T -> seq<int>)
    ensures multiset(Insert(x, s, key)) == multiset(s) + multiset{x}
  {
    if s != [] && !LexLe(key(x), key(s[0])) {
      InsertPermutes(x, s[1..], key);
      assert s == [s[0]] + s[1..];
    }
  }

  /** The inserted sequence starts with `x` or with the old first element. */
  lemma InsertHead<T>(x: T, s: seq<T>, key: T -> seq<int>)
    ensures Insert(x, s, key)[0] == x || (s != [] && Insert(x, s, key)[0] == s[0])
  {
  }

  lemma InsertUnfold<T>(x: T, s: seq<T>, key: T -> seq<int>)
    requires s != [] && !LexLe(key(x), key(s[0]))
    ensures Insert(x, s, key) == [s[0]] + Insert(x, s[1..], key)
  {
  }

  lemma SortedTail<T>(s: seq<T>, key: T -> seq<int>)
    requires SortedBy(s, key) && s != []
    ensures SortedBy(s[1..], key)
  {
    forall i | 0 < i < |s| - 1 ensures LexLe(key(s[1..][i - 1]), key(s[1..][i])) {
      assert s[1..][i - 1] == s[i] && s[1..][i] == s[i + 1];
    }
  }

  lemma SortedCons<T>(x: T, s: seq<T>, key: T -> seq<int>)
    requires SortedBy(s, key) && (s != [] ==> LexLe(key(x), key(s[0])))
    ensures SortedBy([x] + s, key)
  {
    var r := [x] + s;
    forall i | 0 < i < |r| ensures LexLe(key(r[i - 1]), key(r[i])) {
      if i > 1 { assert r[i - 1] == s[i - 2] && r[i] == s[i - 1]; }
    }
  }

  lemma {:induction false} InsertSorted<T>(x: T, s: seq<T>, key: T -> seq<int>)
    requires SortedBy(s, key)
    ensures SortedBy(Insert(x, s, key), key)
  {
    if s == [] {
    } else if LexLe(key(x), key(s[0])) {
      SortedCons(x, s, key);
    } else {
      LexLeTotal(key(x), key(s[0]));
      SortedTail(s, key);
      InsertSorted(x, s[1..], key);
      var rest := Insert(x, s[1..], key);
      InsertHead(x, s[1..], key);
      assert rest[0] != x ==> |s| > 1 && rest[0] == s[1];
      InsertUnfold(x, s, key);
      SortedCons(s[0], rest, key);
    }
  }

  /** A stable sort: sorted by `key`, a permutation of `s`, equal keys in their input order. */
  function SortBy<T>(s: seq<T>, key: T -> seq<int>): (r: seq<T>)
    ensures |r| == |s|
  {
    if s == [] then [] else Insert(s[0], SortBy(s[1..], key), key)
  }

  lemma {:induction false} SortBySorted<T>(s: seq<T>, key: T -> seq<int>)
    ensures SortedBy(SortBy(s, key), key)
  {
    if s != [] {
      SortBySorted(s[1..], key);
      InsertSorted(s[0], SortBy(s[1..], key), key);
    }
  }

  lemma {:induction false} SortByPermutes<T>(s: seq<T>, key: T -> seq<int>)
    ensures multiset(SortBy(s, key)) == multiset(s)
  {
    if s != [] {
      SortByPermutes(s[1..], key);
      InsertPermutes(s[0], SortBy(s[1..], key), key);
      assert s == [s[0]] + s[1..];
    }
  }

  /** The result of `SortBy` is sorted and holds the same elements as its input. */
  lemma SortByFacts<T>(s: seq<T>, key: T -> seq<int>)
    ensures SortedBy(SortBy(s, key), key)
    ensures multiset(SortBy(s, key)) == multiset(s)
  {
    SortBySorted(s, key);
    SortByPermutes(s, key);
  }

  /** The elements of `s` whose key is `k`, in order. */
  function WithKey<T>(s: seq<T>, key: T -> seq<int>, k: seq<int>): (r: seq<T>)
    ensures |r| <= |s|
  {
    if s == [] then [] else (if key(s[0]) == k then [s[0]] else []) + WithKey(s[1..], key, k)
  }

  lemma {:induction false} InsertStable<T>(x: T, s: seq<T>, key: T -> seq<int>, k: seq<int>)
    ensures WithKey(Insert(x, s, key), key, k) ==
            (if key(x) == k then [x] else []) + WithKey(s, key, k)
  {
    if s == [] {
      assert WithKey([x], key, k) == (if key(x) == k then [x] else []) + WithKey([], key, k);
    } else if LexLe(key(x), key(s[0])) {
      WithKeyCons(x, s, key, k);
    } else {
      InsertStable(x, s[1..], key, k);
      InsertStableStep(x, s, key, k);
    }
  }

  lemma WithKeyCons<T>(x: T, s: seq<T>, key: T -> seq<int>, k: seq<int>)
    ensures WithKey([x] + s, key, k) == (if key(x) == k then [x] else []) + WithKey(s, key, k)
  {
    assert ([x] + s)[1..] == s;
  }

  lemma InsertStableStep<T>(x: T, s: seq<T>, key: T -> seq<int>, k: seq<int>)
    requires s != [] && !LexLe(key(x), key(s[0]))
    requires WithKey(Insert(x, s[1..], key), key, k) == (if key(x) == k then [x] else []) + WithKey(s[1..], key, k)
    ensures WithKey(Insert(x, s, key), key, k) == (if key(x) == k then [x] else []) + WithKey(s, key, k)
  {
    var tail := Insert(x, s[1..], key);
    var w1 := WithKey(s[1..], key, k);
    var hx: seq<T> := if key(x) == k then [x] else [];
    var h0: seq<T> := if key(s[0]) == k then [s[0]] else [];
    InsertUnfold(x, s, key);
    WithKeyCons(s[0], tail, key, k);
    assert s == [s[0]] + s[1..];
    WithKeyCons(s[0], s[1..], key, k);
    assert hx == [] || h0 == [] by {
      LexLeRefl(key(x));
    }
    assert h0 + (hx + w1) == hx + (h0 + w1);
  }

  /** Sorting keeps the relative order of the elements that share a key. */
  lemma {:induction false} SortStable<T>(s: seq<T>, key: T -> seq<int>, k: seq<int>)
    ensures WithKey(SortBy(s, key), key, k) == WithKey(s, key, k)
  {
    if s != [] {
      SortStable(s[1..], key, k);
      InsertStable(s[0], SortBy(s[1..], key), key, k);
    }
  }

  /** The position of the first element of `s` with the least key. */
  function ArgMin<T>(s: seq<T>, key: T -> seq<int>): (m: nat)
    requires |s| > 0
    ensures m < |s|
    ensures forall j :: 0 <= j < |s| ==> LexLe(key(s[m]), key(s[j]))
    ensures forall j :: 0 <= j < m ==> !LexLe(key(s[j]), key(s[m]))
  {
    if |s| == 1 then (LexLeRefl(key(s[0])); 0)
    else
      var m := ArgMin(s[1..], key);
      if LexLe(key(s[0]), key(s[1..][m])) then
        LeastBelowAll(s, key, m);
        0
      else
        LexLeTotal(key(s[0]), key(s[1..][m]));
        m + 1
  }

  lemma LeastBelowAll<T>(s: seq<T>, key: T -> seq<int>, m: nat)
    requires m < |s| - 1
    requires forall j :: 0 <= j < |s| - 1 ==> LexLe(key(s[1..][m]), key(s[1..][j]))
    requires LexLe(key(s[0]), key(s[1..][m]))
    ensures forall j :: 0 <= j < |s| ==> LexLe(key(s[0]), key(s[j]))
  {
    var t := s[1..];
    forall j | 0 <= j < |s| ensures LexLe(key(s[0]), key(s[j])) {
      if j == 0 {
        LexLeRefl(key(s[0]));
      } else {
        assert s[j] == t[j - 1];
        LexLeTrans(key(s[0]), key(t[m]), key(t[j - 1]));
      }
    }
  }
}
