/** `list.sort(key=...)` with string keys: Python compares strings code point by code point,
    and its sort is stable, so records with equal keys keep their order. The sort is modelled
    as insertion of each record after every earlier one whose key is not greater. */
module Sorting {

  /** Python's `a <= b` on strings: lexicographic by code point, a prefix first. */
  predicate LexLe(a: string, b: string)
    decreases |a|
  {
    a == [] || (b != [] && (a[0] < b[0] || (a[0] == b[0] && LexLe(a[1..], b[1..]))))
  }

  lemma {:induction false} LexLeRefl(a: string)
    ensures LexLe(a, a)
    decreases |a|
  {
    if a != [] {
      LexLeRefl(a[1..]);
    }
  }

  lemma {:induction false} LexLeTotal(a: string, b: string)
    ensures LexLe(a, b) || LexLe(b, a)
    decreases |a|
  {
    if a != [] && b != [] && a[0] == b[0] {
      LexLeTotal(a[1..], b[1..]);
    }
  }

  lemma {:induction false} LexLeTrans(a: string, b: string, c: string)
    requires LexLe(a, b) && LexLe(b, c)
    ensures LexLe(a, c)
    decreases |a|
  {
    if a != [] && a[0] == b[0] && b[0] == c[0] {
      LexLeTrans(a[1..], b[1..], c[1..]);
    }
  }

  lemma {:induction false} LexLeAntisym(a: string, b: string)
    requires LexLe(a, b) && LexLe(b, a)
    ensures a == b
    decreases |a|
  {
    if a != [] {
      LexLeAntisym(a[1..], b[1..]);
      assert a == [a[0]] + a[1..] && b == [b[0]] + b[1..];
    }
  }

  /** Every record's key is at most the key of every later record. */
  predicate SortedBy<T>(s: seq<T>, key: T -> string) {
    forall i, j :: 0 <= i < j < |s| ==> LexLe(key(s[i]), key(s[j]))
  }

  /** Inserts `x` after the last record whose key is not greater than its own. */
  function Insert<T>(s: seq<T>, x: T, key: T -> string): (r: seq<T>)
    ensures multiset(r) == multiset(s) + multiset{x}
    ensures |r| == |s| + 1
    decreases |s|
  {
    if s == [] then [x]
    else if LexLe(key(s[|s| - 1]), key(x)) then s + [x]
    else
      var r := Insert(s[..|s| - 1], x, key) + [s[|s| - 1]];
      assert s == s[..|s| - 1] + [s[|s| - 1]];
      r
  }

  /** The stable sort. */
  function SortBy<T>(s: seq<T>, key: T -> string): (r: seq<T>)
    ensures multiset(r) == multiset(s)
    ensures |r| == |s|
    decreases |s|
  {
    if s == [] then []
    else
      var r := Insert(SortBy(s[..|s| - 1], key), s[|s| - 1], key);
      assert s == s[..|s| - 1] + [s[|s| - 1]];
      r
  }

  /** Inserting into a sorted sequence keeps it sorted. */
  lemma {:induction false} InsertSorted<T>(s: seq<T>, x: T, key: T -> string)
    requires SortedBy(s, key)
    ensures SortedBy(Insert(s, x, key), key)
    decreases |s|
  {
    if s != [] {
      var n := |s| - 1;
      if LexLe(key(s[n]), key(x)) {
        SortedAppendAbove(s, x, key);
      } else {
        InsertSorted(s[..n], x, key);
        SortedPassed(s, x, key);
      }
    }
  }

  /** A record whose key is not below the last key of a sorted sequence can follow it. */
  lemma SortedAppendAbove<T>(s: seq<T>, x: T, key: T -> string)
    requires s != [] && SortedBy(s, key) && LexLe(key(s[|s| - 1]), key(x))
    ensures SortedBy(Insert(s, x, key), key)
  {
    var n := |s| - 1;
    InsertLast(s, x, key);
    forall v | v in multiset(s)
      ensures LexLe(key(v), key(x))
    {
      var i :| 0 <= i < |s| && s[i] == v;
      if i < n {
        LexLeTrans(key(s[i]), key(s[n]), key(x));
      }
    }
    SortedAppend(s, x, key);
  }

  /** The step of `InsertSorted` where `x` moves before the last record. */
  lemma SortedPassed<T>(s: seq<T>, x: T, key: T -> string)
    requires s != [] && SortedBy(s, key) && !LexLe(key(s[|s| - 1]), key(x))
    requires SortedBy(Insert(s[..|s| - 1], x, key), key)
    ensures SortedBy(Insert(s, x, key), key)
  {
    var n := |s| - 1;
    var last := s[n];
    var front := s[..n];
    var ins := Insert(front, x, key);
    assert Insert(s, x, key) == ins + [last];
    LexLeTotal(key(last), key(x));
    forall v | v in multiset(ins)
      ensures LexLe(key(v), key(last))
    {
      if v != x {
        assert v in multiset(front);
        var i :| 0 <= i < |front| && front[i] == v;
        assert s[i] == v;
      }
    }
    SortedAppend(ins, last, key);
  }

  /** A sorted sequence followed by a record whose key is not below any of its keys is
      sorted. */
  lemma SortedAppend<T>(s: seq<T>, y: T, key: T -> string)
    requires SortedBy(s, key)
    requires forall v :: v in multiset(s) ==> LexLe(key(v), key(y))
    ensures SortedBy(s + [y], key)
  {
    var r := s + [y];
    forall i, j | 0 <= i < j < |r|
      ensures LexLe(key(r[i]), key(r[j]))
    {
      if j == |s| {
        assert r[i] == s[i] && s[i] in multiset(s);
      } else {
        assert r[i] == s[i] && r[j] == s[j];
      }
    }
  }

  /** The stable sort sorts. */
  lemma {:induction false} SortBySorted<T>(s: seq<T>, key: T -> string)
    ensures SortedBy(SortBy(s, key), key)
    decreases |s|
  {
    if s != [] {
      SortBySorted(s[..|s| - 1], key);
      InsertSorted(SortBy(s[..|s| - 1], key), s[|s| - 1], key);
    }
  }

  /** The records of `s` whose key is `k`, in order. */
  function WithKey<T>(s: seq<T>, key: T -> string, k: string): (r: seq<T>)
    ensures |r| <= |s|
    decreases |s|
  {
    if s == [] then []
    else WithKey(s[..|s| - 1], key, k) + (if key(s[|s| - 1]) == k then [s[|s| - 1]] else [])
  }

  lemma {:induction false} WithKeyConcat<T>(a: seq<T>, b: seq<T>, key: T -> string, k: string)
    ensures WithKey(a + b, key, k) == WithKey(a, key, k) + WithKey(b, key, k)
    decreases |b|
  {
    if b == [] {
      assert a + b == a;
    } else {
      var n := |b| - 1;
      assert (a + b)[..|a + b| - 1] == a + b[..n];
      WithKeyConcat(a, b[..n], key, k);
    }
  }

  lemma WithKeySingle<T>(x: T, key: T -> string, k: string)
    ensures WithKey([x], key, k) == if key(x) == k then [x] else []
  {
    assert [x][..0] == [];
  }

  /** Inserting `x` puts it after every record that has its key. */
  lemma {:induction false} InsertStable<T>(s: seq<T>, x: T, key: T -> string, k: string)
    ensures WithKey(Insert(s, x, key), key, k) == WithKey(s, key, k) + WithKey([x], key, k)
    decreases |s|
  {
    if s == [] {
      assert Insert(s, x, key) == [x];
      assert WithKey(s, key, k) == [];
    } else {
      var n := |s| - 1;
      var last := s[n];
      assert s == s[..n] + [last];
      WithKeyConcat(s[..n], [last], key, k);
      if LexLe(key(last), key(x)) {
        WithKeyConcat(s, [x], key, k);
      } else {
        InsertStable(s[..n], x, key, k);
        InsertPassed(s, x, key, k);
      }
    }
  }

  /** The step of `InsertStable` where `x` moves before the last record: that record has a
      greater key, so at most one of the two has key `k`. */
  lemma InsertPassed<T>(s: seq<T>, x: T, key: T -> string, k: string)
    requires s != [] && !LexLe(key(s[|s| - 1]), key(x))
    requires WithKey(Insert(s[..|s| - 1], x, key), key, k) == WithKey(s[..|s| - 1], key, k) + WithKey([x], key, k)
    requires WithKey(s, key, k) == WithKey(s[..|s| - 1], key, k) + WithKey([s[|s| - 1]], key, k)
    ensures WithKey(Insert(s, x, key), key, k) == WithKey(s, key, k) + WithKey([x], key, k)
  {
    var n := |s| - 1;
    var last := s[n];
    var front := Insert(s[..n], x, key);
    assert Insert(s, x, key) == front + [last];
    WithKeyConcat(front, [last], key, k);
    OneOfTwo(x, last, key, k);
    Swap(WithKey(s[..n], key, k), WithKey([x], key, k), WithKey([last], key, k));
  }

  /** Of two records with different keys, at most one has key `k`. */
  lemma OneOfTwo<T>(x: T, y: T, key: T -> string, k: string)
    requires !LexLe(key(y), key(x))
    ensures WithKey([x], key, k) == [] || WithKey([y], key, k) == []
  {
    LexLeRefl(key(x));
    WithKeySingle(x, key, k);
    WithKeySingle(y, key, k);
  }

  lemma Swap<T>(a: seq<T>, b: seq<T>, c: seq<T>)
    requires b == [] || c == []
    ensures a + b + c == a + c + b
  {
  }

  /** The sort is stable: the records with any one key come out in the order they came in. */
  lemma {:induction false} SortByStable<T>(s: seq<T>, key: T -> string, k: string)
    ensures WithKey(SortBy(s, key), key, k) == WithKey(s, key, k)
    decreases |s|
  {
    if s != [] {
      var n := |s| - 1;
      SortByStable(s[..n], key, k);
      InsertStable(SortBy(s[..n], key), s[n], key, k);
    }
  }

  /** A sequence already sorted is left as it is. */
  lemma {:induction false} SortBySortedInput<T>(s: seq<T>, key: T -> string)
    requires SortedBy(s, key)
    ensures SortBy(s, key) == s
    decreases |s|
  {
    if s != [] {
      var n := |s| - 1;
      var front := s[..n];
      SortedFront(s, key);
      SortBySortedInput(front, key);
      if n > 0 {
        assert LexLe(key(s[n - 1]), key(s[n]));
        assert front[n - 1] == s[n - 1];
      }
      InsertLast(front, s[n], key);
      assert s == front + [s[n]];
    }
  }

  lemma SortedFront<T>(s: seq<T>, key: T -> string)
    requires s != [] && SortedBy(s, key)
    ensures SortedBy(s[..|s| - 1], key)
  {
  }

  /** A record whose key is not below the last one's goes at the end. */
  lemma InsertLast<T>(s: seq<T>, x: T, key: T -> string)
    requires s == [] || LexLe(key(s[|s| - 1]), key(x))
    ensures Insert(s, x, key) == s + [x]
  {
  }
}
