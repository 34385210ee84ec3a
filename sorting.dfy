/**
 * `Array.prototype.sort` with a comparator, as the code calls it: a stable sort.
 * Every comparator in the code compares a few numeric fields in turn
 * (`a.x - b.x || a.y - b.y`), so a comparator is given here by a key of
 * integers compared lexicographically.
 */
module Sorting {

  /** Lexicographic order on integer keys. */
  predicate LexLe(a: seq<int>, b: seq<int>)
    decreases |a|
  {
    a == [] || (b != [] && (a[0] < b[0] || (a[0] == b[0] && LexLe(a[1..], b[1..]))))
  }

  lemma {:induction false} LexLeRefl(a: seq<int>)
    ensures LexLe(a, a)
    decreases |a|
  {
    if a != [] { LexLeRefl(a[1..]); }
  }

  lemma {:induction false} LexLeTotal(a: seq<int>, b: seq<int>)
    requires |a| == |b|
    ensures LexLe(a, b) || LexLe(b, a)
    decreases |a|
  {
    if a != [] && a[0] == b[0] { LexLeTotal(a[1..], b[1..]); }
  }

  lemma {:induction false} LexLeTrans(a: seq<int>, b: seq<int>, c: seq<int>)
    requires LexLe(a, b) && LexLe(b, c)
    ensures LexLe(a, c)
    decreases |a|
  {
    if a != [] && b != [] && c != [] && a[0] == b[0] && b[0] == c[0] {
      LexLeTrans(a[1..], b[1..], c[1..]);
    }
  }

  lemma {:induction false} LexLeAntisym(a: seq<int>, b: seq<int>)
    requires |a| == |b| && LexLe(a, b) && LexLe(b, a)
    ensures a == b
    decreases |a|
  {
    if a != [] {
      LexLeAntisym(a[1..], b[1..]);
      assert a == [a[0]] + a[1..] && b == [b[0]] + b[1..];
    }
  }

  /** All keys have the same length, so that the order on them is total. */
  predicate KeysOfWidth<T>(s: seq<T>, key: T -> seq<int>, w: nat) {
    forall i :: 0 <= i < |s| ==> |key(s[i])| == w
  }

  predicate SortedBy<T>(s: seq<T>, key: T -> seq<int>) {
    forall i, j :: 0 <= i < j < |s| ==> LexLe(key(s[i]), key(s[j]))
  }

  /** `a` is `b` with some elements left out: the elements of `a` occur in `b` in the same order. */
  predicate Subseq<T(==)>(a: seq<T>, b: seq<T>)
    decreases |b|
  {
    a == [] || (b != [] && ((a[0] == b[0] && Subseq(a[1..], b[1..])) || Subseq(a, b[1..])))
  }

  /** Elements put in front of `b` may all be left out. */
  lemma {:induction false} SubseqPrefix<T>(a: seq<T>, p: seq<T>, b: seq<T>)
    requires Subseq(a, b)
    ensures Subseq(a, p + b)
    decreases |p|
  {
    if p == [] {
      assert p + b == b;
    } else if a != [] {
      SubseqPrefix(a, p[1..], b);
      assert (p + b)[1..] == p[1..] + b;
    }
  }

  /** Subsequences of two pieces make a subsequence of the two pieces joined. */
  lemma {:induction false} SubseqAppend<T>(a: seq<T>, b: seq<T>, c: seq<T>, d: seq<T>)
    requires Subseq(a, b) && Subseq(c, d)
    ensures Subseq(a + c, b + d)
    decreases |b|
  {
    if a == [] {
      SubseqPrefix(c, b, d);
      assert a + c == c;
    } else {
      assert (a + c)[0] == a[0] && (a + c)[1..] == a[1..] + c;
      assert (b + d)[0] == b[0] && (b + d)[1..] == b[1..] + d;
      if a[0] == b[0] && Subseq(a[1..], b[1..]) {
        SubseqAppend(a[1..], b[1..], c, d);
      } else {
        SubseqAppend(a, b[1..], c, d);
      }
    }
  }

  /** Keeping or dropping one element. */
  lemma SubseqOne<T>(x: T, keep: bool)
    ensures Subseq(if keep then [x] else [], [x])
  {
    if keep { assert [x][1..] == []; }
  }

  /** The elements of `s` whose key is `k`, in the order of `s`. */
  function WithKey<T(==)>(s: seq<T>, key: T -> seq<int>, k: seq<int>): (r: seq<T>)
    ensures |r| <= |s|
  {
    if s == [] then []
    else (if key(s[0]) == k then [s[0]] else []) + WithKey(s[1..], key, k)
  }

  /**
   * `WithKey` is the filter on key `k`: a subsequence of `s` that keeps
   * every element with key `k`, as often as `s` has it, and no other element.
   */
  lemma WithKeyIsFilter<T>(s: seq<T>, key: T -> seq<int>, k: seq<int>)
    ensures Subseq(WithKey(s, key, k), s)
    ensures forall i :: 0 <= i < |WithKey(s, key, k)| ==> key(WithKey(s, key, k)[i]) == k
    ensures multiset(WithKey(s, key, k)) <= multiset(s)
    ensures forall x :: x in s && key(x) == k ==> multiset(WithKey(s, key, k))[x] == multiset(s)[x]
  {
    WithKeySubseq(s, key, k);
    WithKeyKeys(s, key, k);
    WithKeyCount(s, key, k);
  }

  lemma {:induction false} WithKeySubseq<T>(s: seq<T>, key: T -> seq<int>, k: seq<int>)
    ensures Subseq(WithKey(s, key, k), s)
    decreases |s|
  {
    if s != [] {
      var head := if key(s[0]) == k then [s[0]] else [];
      WithKeySubseq(s[1..], key, k);
      SubseqOne(s[0], key(s[0]) == k);
      SubseqAppend(head, [s[0]], WithKey(s[1..], key, k), s[1..]);
      assert [s[0]] + s[1..] == s;
    }
  }

  lemma {:induction false} WithKeyKeys<T>(s: seq<T>, key: T -> seq<int>, k: seq<int>)
    ensures forall i :: 0 <= i < |WithKey(s, key, k)| ==> key(WithKey(s, key, k)[i]) == k
    decreases |s|
  {
    if s != [] {
      var head := if key(s[0]) == k then [s[0]] else [];
      var rest := WithKey(s[1..], key, k);
      assert WithKey(s, key, k) == head + rest;
      WithKeyKeys(s[1..], key, k);
      forall i | 0 <= i < |head + rest| ensures key((head + rest)[i]) == k {
        if i >= |head| { assert (head + rest)[i] == rest[i - |head|]; }
      }
    }
  }

  lemma {:induction false} WithKeyCount<T>(s: seq<T>, key: T -> seq<int>, k: seq<int>)
    ensures multiset(WithKey(s, key, k)) <= multiset(s)
    ensures forall x :: x in s && key(x) == k ==> multiset(WithKey(s, key, k))[x] == multiset(s)[x]
    decreases |s|
  {
    if s != [] {
      var head := if key(s[0]) == k then [s[0]] else [];
      var rest := WithKey(s[1..], key, k);
      assert WithKey(s, key, k) == head + rest;
      WithKeyCount(s[1..], key, k);
      WithKeyCounts(s, key, k, head, rest);
    }
  }

  /** The counts of one filter step. */
  lemma WithKeyCounts<T>(s: seq<T>, key: T -> seq<int>, k: seq<int>, head: seq<T>, rest: seq<T>)
    requires s != [] && head == if key(s[0]) == k then [s[0]] else []
    requires multiset(rest) <= multiset(s[1..])
    requires forall x :: x in s[1..] && key(x) == k ==> multiset(rest)[x] == multiset(s[1..])[x]
    ensures multiset(head + rest) <= multiset(s)
    ensures forall x :: x in s && key(x) == k ==> multiset(head + rest)[x] == multiset(s)[x]
  {
    assert s == [s[0]] + s[1..];
    assert multiset(s) == multiset{s[0]} + multiset(s[1..]);
    forall x | x in s && key(x) == k ensures multiset(head + rest)[x] == multiset(s)[x] {
      if x !in s[1..] {
        assert multiset(s[1..])[x] == 0;
      }
    }
  }

  /** Puts `x` in front of the first element whose key is not smaller than its own. */
  function Insert<T>(x: T, s: seq<T>, key: T -> seq<int>): (r: seq<T>)
    ensures |r| == |s| + 1
    ensures multiset(r) == multiset(s) + multiset{x}
  {
    if s == [] then [x]
    else if LexLe(key(x), key(s[0])) then [x] + s
    else
      assert s == [s[0]] + s[1..];
      [s[0]] + Insert(x, s[1..], key)
  }

  /** The stable sort of `s` by `key` (insertion sort). */
  function StableSort<T>(s: seq<T>, key: T -> seq<int>): (r: seq<T>)
    ensures |r| == |s|
    ensures multiset(r) == multiset(s)
  {
    if s == [] then []
    else
      assert s == [s[0]] + s[1..];
      Insert(s[0], StableSort(s[1..], key), key)
  }

  /** Sorting keeps exactly the elements it is given. */
  lemma StableSortMember<T>(s: seq<T>, key: T -> seq<int>, x: T)
    requires x in StableSort(s, key)
    ensures x in s
  {
    assert x in multiset(StableSort(s, key));
  }

  lemma {:induction false} InsertSorted<T>(x: T, s: seq<T>, key: T -> seq<int>, w: nat)
    requires SortedBy(s, key) && KeysOfWidth(s, key, w) && |key(x)| == w
    ensures SortedBy(Insert(x, s, key), key) && KeysOfWidth(Insert(x, s, key), key, w)
    decreases |s|
  {
    if s == [] {
    } else if LexLe(key(x), key(s[0])) {
      forall e | e in s ensures LexLe(key(x), key(e)) {
        var j :| 0 <= j < |s| && s[j] == e;
        if j > 0 {
          LexLeTrans(key(x), key(s[0]), key(e));
        }
      }
      ConsSorted(x, s, key, w);
    } else {
      LexLeTotal(key(x), key(s[0]));
      var t := Insert(x, s[1..], key);
      InsertSorted(x, s[1..], key, w);
      forall e | e in t ensures LexLe(key(s[0]), key(e)) {
        assert e in multiset(t);
        if e != x {
          assert e in multiset(s[1..]);
          var j :| 0 <= j < |s[1..]| && s[1..][j] == e;
          assert s[j + 1] == e;
        }
      }
      ConsSorted(s[0], t, key, w);
    }
  }

  /** An element no larger than any of a sorted sequence can go in front of it. */
  lemma ConsSorted<T>(y: T, t: seq<T>, key: T -> seq<int>, w: nat)
    requires SortedBy(t, key) && KeysOfWidth(t, key, w) && |key(y)| == w
    requires forall e :: e in t ==> LexLe(key(y), key(e))
    ensures SortedBy([y] + t, key) && KeysOfWidth([y] + t, key, w)
  {
    var r := [y] + t;
    forall i, j | 0 <= i < j < |r| ensures LexLe(key(r[i]), key(r[j])) {
      assert r[j] == t[j - 1];
      if i > 0 {
        assert r[i] == t[i - 1];
      }
    }
    forall i | 0 <= i < |r| ensures |key(r[i])| == w {
      if i > 0 {
        assert r[i] == t[i - 1];
      }
    }
  }

  /** The sorted result is ordered by the key. */
  lemma {:induction false} StableSortSorted<T>(s: seq<T>, key: T -> seq<int>, w: nat)
    requires KeysOfWidth(s, key, w)
    ensures SortedBy(StableSort(s, key), key)
    decreases |s|
  {
    if s != [] {
      StableSortSorted(s[1..], key, w);
      var t := StableSort(s[1..], key);
      forall i | 0 <= i < |t| ensures |key(t[i])| == w {
        assert t[i] in multiset(s[1..]);
        var k :| 0 <= k < |s[1..]| && s[1..][k] == t[i];
      }
      InsertSorted(s[0], t, key, w);
    }
  }

  lemma {:induction false} WithKeyInsert<T>(x: T, s: seq<T>, key: T -> seq<int>, k: seq<int>)
    ensures WithKey(Insert(x, s, key), key, k) ==
      (if key(x) == k then [x] else []) + WithKey(s, key, k)
    decreases |s|
  {
    if s == [] {
      WithKeyCons(x, [], key, k);
      assert [x] + [] == [x];
    } else if LexLe(key(x), key(s[0])) {
      WithKeyCons(x, s, key, k);
    } else {
      var t := Insert(x, s[1..], key);
      assert Insert(x, s, key) == [s[0]] + t;
      WithKeyCons(s[0], t, key, k);
      WithKeyInsert(x, s[1..], key, k);
      assert s == [s[0]] + s[1..];
      WithKeyCons(s[0], s[1..], key, k);
      if key(x) == k && key(s[0]) == k {
        LexLeRefl(k);
      }
      SwapEmpty(if key(s[0]) == k then [s[0]] else [], if key(x) == k then [x] else [], WithKey(s[1..], key, k));
    }
  }

  lemma WithKeyCons<T>(y: T, t: seq<T>, key: T -> seq<int>, k: seq<int>)
    ensures WithKey([y] + t, key, k) == (if key(y) == k then [y] else []) + WithKey(t, key, k)
  {
    var r := [y] + t;
    assert r[0] == y && r[1..] == t;
  }

  /** Two pieces of which one is empty can trade places. */
  lemma SwapEmpty<T>(a: seq<T>, b: seq<T>, rest: seq<T>)
    requires a == [] || b == []
    ensures a + (b + rest) == b + (a + rest)
  {
    if a == [] {
      assert a + (b + rest) == b + rest;
    } else {
      assert b + (a + rest) == a + rest;
    }
  }

  /** Stability: the elements that share a key keep their relative order. */
  lemma {:induction false} StableSortStable<T>(s: seq<T>, key: T -> seq<int>, k: seq<int>)
    ensures WithKey(StableSort(s, key), key, k) == WithKey(s, key, k)
    decreases |s|
  {
    if s != [] {
      StableSortStable(s[1..], key, k);
      WithKeyInsert(s[0], StableSort(s[1..], key), key, k);
    }
  }
}
