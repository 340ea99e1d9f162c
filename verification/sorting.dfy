/** `Array.prototype.sort` with a numeric comparator `(a, b) => key(b) - key(a)`:
    descending by a real key and, since ECMAScript 2019, stable. Modelled by
    insertion sort; the lemmas say what any stable descending sort returns. */
module Sorting {

  predicate SortedDesc<T>(s: seq<T>, key: T -> real) {
    forall i, j :: 0 <= i < j < |s| ==> key(s[i]) >= key(s[j])
  }

  /** Puts `x` after every element whose key is at least its own. */
  function Insert<T>(s: seq<T>, x: T, key: T -> real): (r: seq<T>)
    ensures multiset(r) == multiset(s) + multiset{x}
    ensures |r| == |s| + 1
  {
    if |s| == 0 then [x]
    else if key(x) > key(s[0]) then [x] + s
    else
      var rest := Insert(s[1..], x, key);
      assert s == [s[0]] + s[1..];
      [s[0]] + rest
  }

  lemma {:induction false} InsertSorted<T>(s: seq<T>, x: T, key: T -> real)
    requires SortedDesc(s, key)
    ensures SortedDesc(Insert(s, x, key), key)
  {
    if |s| > 0 && key(x) <= key(s[0]) {
      InsertSorted(s[1..], x, key);
      var rest := Insert(s[1..], x, key);
      forall k | 0 <= k < |rest| ensures key(s[0]) >= key(rest[k]) {
        assert rest[k] in multiset(rest);
        assert rest[k] in multiset(s[1..]) || rest[k] == x;
        if rest[k] != x {
          var m :| 0 <= m < |s[1..]| && s[1..][m] == rest[k];
          assert s[m + 1] == rest[k];
        }
      }
    }
  }

  /** Insertion sort over the elements in their original order. */
  function Sort<T>(s: seq<T>, key: T -> real): (r: seq<T>)
    ensures |r| == |s|
    ensures multiset(r) == multiset(s)
    ensures SortedDesc(r, key)
  {
    if |s| == 0 then []
    else
      var init := s[..|s| - 1];
      assert s == init + [s[|s| - 1]];
      InsertSorted(Sort(init, key), s[|s| - 1], key);
      Insert(Sort(init, key), s[|s| - 1], key)
  }

  /** The elements whose key is `v`, in order. */
  function WithKey<T>(s: seq<T>, key: T -> real, v: real): (r: seq<T>)
    ensures |r| <= |s|
  {
    if |s| == 0 then []
    else WithKey(s[..|s| - 1], key, v) + (if key(s[|s| - 1]) == v then [s[|s| - 1]] else [])
  }

  lemma {:induction false} WithKeyMembers<T>(s: seq<T>, key: T -> real, v: real, x: T)
    requires x in WithKey(s, key, v)
    ensures x in s && key(x) == v
  {
    if x !in WithKey(s[..|s| - 1], key, v) {
      assert x == s[|s| - 1];
    } else {
      WithKeyMembers(s[..|s| - 1], key, v, x);
    }
  }

  lemma {:induction false} WithKeyPrepend<T>(x: T, s: seq<T>, key: T -> real, v: real)
    ensures WithKey([x] + s, key, v) == (if key(x) == v then [x] else []) + WithKey(s, key, v)
  {
    if |s| > 0 {
      var init := s[..|s| - 1];
      assert ([x] + s)[..|s|] == [x] + init;
      WithKeyPrepend(x, init, key, v);
    } else {
      assert [x] + s == [x];
    }
  }

  lemma {:induction false} WithKeyNone<T>(s: seq<T>, key: T -> real, v: real)
    requires forall i :: 0 <= i < |s| ==> key(s[i]) < v
    ensures WithKey(s, key, v) == []
  {
    if |s| > 0 {
      WithKeyNone(s[..|s| - 1], key, v);
    }
  }

  /** Inserting `x` into a sorted list appends it to the elements with its key. */
  lemma {:induction false} WithKeyInsert<T>(s: seq<T>, x: T, key: T -> real, v: real)
    requires SortedDesc(s, key)
    ensures WithKey(Insert(s, x, key), key, v) == WithKey(s, key, v) + (if key(x) == v then [x] else [])
  {
    if |s| == 0 {
      assert Insert(s, x, key) == [x] + [];
      WithKeyPrepend(x, [], key, v);
    } else if key(x) > key(s[0]) {
      WithKeyInsertFront(s, x, key, v);
    } else {
      WithKeyInsert(s[1..], x, key, v);
      WithKeyInsertLater(s, x, key, v);
    }
  }

  lemma WithKeyInsertFront<T>(s: seq<T>, x: T, key: T -> real, v: real)
    requires SortedDesc(s, key) && |s| > 0 && key(x) > key(s[0])
    ensures WithKey(Insert(s, x, key), key, v) == WithKey(s, key, v) + (if key(x) == v then [x] else [])
  {
    assert Insert(s, x, key) == [x] + s;
    WithKeyPrepend(x, s, key, v);
    if key(x) == v {
      WithKeyNone(s, key, v);
    }
  }

  lemma WithKeyInsertLater<T>(s: seq<T>, x: T, key: T -> real, v: real)
    requires |s| > 0 && key(x) <= key(s[0])
    requires WithKey(Insert(s[1..], x, key), key, v) == WithKey(s[1..], key, v) + (if key(x) == v then [x] else [])
    ensures WithKey(Insert(s, x, key), key, v) == WithKey(s, key, v) + (if key(x) == v then [x] else [])
  {
    var rest := Insert(s[1..], x, key);
    InsertAfterHead(s, x, key);
    WithKeyPrepend(s[0], rest, key, v);
    WithKeyOfHeadTail(s, key, v);
  }

  lemma InsertAfterHead<T>(s: seq<T>, x: T, key: T -> real)
    requires |s| > 0 && key(x) <= key(s[0])
    ensures Insert(s, x, key) == [s[0]] + Insert(s[1..], x, key)
  {
  }

  lemma WithKeyOfHeadTail<T>(s: seq<T>, key: T -> real, v: real)
    requires |s| > 0
    ensures WithKey(s, key, v) == (if key(s[0]) == v then [s[0]] else []) + WithKey(s[1..], key, v)
  {
    assert s == [s[0]] + s[1..];
    WithKeyPrepend(s[0], s[1..], key, v);
  }

  /** Stability: the elements of every key keep their original order. */
  lemma {:induction false} SortStable<T>(s: seq<T>, key: T -> real, v: real)
    ensures WithKey(Sort(s, key), key, v) == WithKey(s, key, v)
  {
    if |s| > 0 {
      var init := s[..|s| - 1];
      SortStable(init, key, v);
      WithKeyInsert(Sort(init, key), s[|s| - 1], key, v);
    }
  }

  /** Elements of one key appear in `WithKey` in the order they had. */
  lemma {:induction false} WithKeyIndices<T>(s: seq<T>, key: T -> real, i: nat, j: nat)
    requires i < j < |s| && key(s[i]) == key(s[j])
    ensures exists i', j' :: (0 <= i' < j' < |WithKey(s, key, key(s[i]))|
      && WithKey(s, key, key(s[i]))[i'] == s[i] && WithKey(s, key, key(s[i]))[j'] == s[j])
  {
    var v := key(s[i]);
    var init := s[..|s| - 1];
    if j < |s| - 1 {
      WithKeyIndices(init, key, i, j);
      var i', j' :| 0 <= i' < j' < |WithKey(init, key, v)|
        && WithKey(init, key, v)[i'] == init[i] && WithKey(init, key, v)[j'] == init[j];
      assert WithKey(s, key, v)[i'] == s[i] && WithKey(s, key, v)[j'] == s[j];
    } else {
      WithKeyIndex(init, key, i);
      var i' :| 0 <= i' < |WithKey(init, key, v)| && WithKey(init, key, v)[i'] == init[i];
      var j' := |WithKey(init, key, v)|;
      assert WithKey(s, key, v) == WithKey(init, key, v) + [s[j]];
      assert WithKey(s, key, v)[i'] == s[i] && WithKey(s, key, v)[j'] == s[j];
    }
  }

  lemma {:induction false} WithKeyIndex<T>(s: seq<T>, key: T -> real, i: nat)
    requires i < |s|
    ensures exists i' :: 0 <= i' < |WithKey(s, key, key(s[i]))| && WithKey(s, key, key(s[i]))[i'] == s[i]
  {
    var v := key(s[i]);
    var init := s[..|s| - 1];
    if i < |s| - 1 {
      WithKeyIndex(init, key, i);
      var i' :| 0 <= i' < |WithKey(init, key, v)| && WithKey(init, key, v)[i'] == init[i];
      assert WithKey(s, key, v)[i'] == s[i];
    } else {
      assert WithKey(s, key, v)[|WithKey(init, key, v)|] == s[i];
    }
  }

  /** Keeping one key of a list sorted by another key leaves it sorted. */
  lemma {:induction false} WithKeyKeepsOrder<T>(s: seq<T>, key: T -> real, v: real, other: T -> real)
    requires SortedDesc(s, other)
    ensures SortedDesc(WithKey(s, key, v), other)
  {
    if |s| > 0 {
      var init := s[..|s| - 1];
      var last := s[|s| - 1];
      WithKeyKeepsOrder(init, key, v, other);
      var w := WithKey(init, key, v);
      forall x | x in w ensures other(x) >= other(last) {
        WithKeyMembers(init, key, v, x);
        var m :| 0 <= m < |init| && init[m] == x;
        assert s[m] == x;
      }
      forall a, b | 0 <= a < b < |WithKey(s, key, v)|
        ensures other(WithKey(s, key, v)[a]) >= other(WithKey(s, key, v)[b])
      {
        if b < |w| {
          assert WithKey(s, key, v)[a] == w[a] && WithKey(s, key, v)[b] == w[b];
        } else {
          assert WithKey(s, key, v)[a] == w[a];
          assert w[a] in w;
        }
      }
    }
  }

  /** Sorting a list that is already ordered by `other` keeps that order among
      the elements whose sort keys tie. */
  lemma SortTiesKeepOrder<T>(s: seq<T>, key: T -> real, other: T -> real, i: nat, j: nat)
    requires SortedDesc(s, other)
    requires i < j < |Sort(s, key)| && key(Sort(s, key)[i]) == key(Sort(s, key)[j])
    ensures other(Sort(s, key)[i]) >= other(Sort(s, key)[j])
  {
    var r := Sort(s, key);
    var v := key(r[i]);
    SortStable(s, key, v);
    WithKeyKeepsOrder(s, key, v, other);
    WithKeyIndices(r, key, i, j);
  }

  /** `s.map(f)`. */
  function MapSeq<A, B>(s: seq<A>, f: A -> B): (r: seq<B>)
    ensures |r| == |s|
  {
    seq(|s|, k requires 0 <= k < |s| => f(s[k]))
  }

  lemma {:induction false} InsertMap<A, B>(s: seq<A>, x: A, f: A -> B, key: A -> real, key': B -> real)
    requires forall a :: key'(f(a)) == key(a)
    ensures Insert(MapSeq(s, f), f(x), key') == MapSeq(Insert(s, x, key), f)
  {
    if |s| > 0 && key(x) <= key(s[0]) {
      InsertMap(s[1..], x, f, key, key');
      var m := MapSeq(s, f);
      assert m[1..] == MapSeq(s[1..], f);
      assert m[0] == f(s[0]);
      InsertAfterHead(m, f(x), key');
      InsertAfterHead(s, x, key);
      MapSeqCons(s[0], Insert(s[1..], x, key), f);
    } else if |s| > 0 {
      MapSeqCons(x, s, f);
    }
  }

  lemma MapSeqCons<A, B>(a: A, s: seq<A>, f: A -> B)
    ensures MapSeq([a] + s, f) == [f(a)] + MapSeq(s, f)
  {
  }

  /** Mapping first and sorting by the mapped key is sorting by the original
      key and mapping afterwards. */
  lemma {:induction false} SortMap<A, B>(s: seq<A>, f: A -> B, key: A -> real, key': B -> real)
    requires forall a :: key'(f(a)) == key(a)
    ensures Sort(MapSeq(s, f), key') == MapSeq(Sort(s, key), f)
  {
    if |s| > 0 {
      var init := s[..|s| - 1];
      SortMap(init, f, key, key');
      assert MapSeq(s, f)[..|s| - 1] == MapSeq(init, f);
      InsertMap(Sort(init, key), s[|s| - 1], f, key, key');
    }
  }
}
