/** Array.prototype.sort with a numeric comparator, as the table reads of
    server/storage.ts use it: the result is ordered by the key, it holds the
    same entries, and entries with equal keys keep their relative order
    (the sort is stable). The library sort is modelled by an insertion sort
    over a copy. */
module Sorting {

  predicate SortedBy<T>(s: seq<T>, key: T -> int) {
    forall i, j :: 0 <= i < j < |s| ==> key(s[i]) <= key(s[j])
  }

  /** The entries of s whose key is v, in their order in s. */
  function WithKey<T(!new)>(s: seq<T>, key: T -> int, v: int): (r: seq<T>)
    ensures |r| <= |s|
  {
    if |s| == 0 then []
    else
      var n := |s| - 1;
      WithKey(s[..n], key, v) + (if key(s[n]) == v then [s[n]] else [])
  }

  /** Stability: for every key, the entries carrying it come in the same
      order in r as in s. */
  ghost predicate SameOrderPerKey<T(!new)>(r: seq<T>, s: seq<T>, key: T -> int) {
    forall v :: WithKey(r, key, v) == WithKey(s, key, v)
  }

  lemma {:induction false} WithKeyAppend<T(!new)>(a: seq<T>, b: seq<T>, key: T -> int, v: int)
    ensures WithKey(a + b, key, v) == WithKey(a, key, v) + WithKey(b, key, v)
    decreases |b|
  {
    if |b| == 0 {
      assert a + b == a;
    } else {
      var n := |b| - 1;
      assert (a + b)[..|a| + n] == a + b[..n];
      WithKeyAppend(a, b[..n], key, v);
    }
  }

  lemma WithKeySnoc<T(!new)>(a: seq<T>, key: T -> int, x: T, v: int)
    ensures WithKey(a + [x], key, v) == WithKey(a, key, v) + (if key(x) == v then [x] else [])
  {
    assert (a + [x])[..|a|] == a;
  }

  /** No entry carries v, so none is kept. */
  lemma {:induction false} WithKeyNone<T(!new)>(b: seq<T>, key: T -> int, v: int)
    requires forall j :: 0 <= j < |b| ==> key(b[j]) != v
    ensures WithKey(b, key, v) == []
    decreases |b|
  {
    if |b| > 0 {
      WithKeyNone(b[..|b| - 1], key, v);
    }
  }

  /** Putting x at position p, where no later entry carries its key, puts x
      last among the entries with its key and leaves the other keys' entries
      as they were. */
  lemma InsertWithKey<T(!new)>(r: seq<T>, key: T -> int, x: T, p: int, v: int)
    requires 0 <= p <= |r|
    requires forall j :: p <= j < |r| ==> key(r[j]) != key(x)
    ensures WithKey(r[..p] + [x] + r[p..], key, v)
            == WithKey(r, key, v) + (if key(x) == v then [x] else [])
  {
    var front, back := r[..p], r[p..];
    assert r == front + back;
    WithKeyAppend(front + [x], back, key, v);
    WithKeyAppend(front, [x], key, v);
    WithKeyAppend(front, back, key, v);
    var a, b, c := WithKey(front, key, v), WithKey([x], key, v), WithKey(back, key, v);
    assert b == (if key(x) == v then [x] else []) by {
      assert [x][..0] == [];
    }
    if key(x) == v {
      WithKeyNone(back, key, v);
      assert a + b + [] == a + b && a + [] == a;
    } else {
      assert a + [] + c == a + c && a + c + [] == a + c;
    }
  }

  lemma InsertMultiset<T>(r: seq<T>, x: T, p: int)
    requires 0 <= p <= |r|
    ensures multiset(r[..p] + [x] + r[p..]) == multiset(r) + multiset{x}
  {
    assert r == r[..p] + r[p..];
  }

  lemma InsertSorted<T>(r: seq<T>, key: T -> int, x: T, p: int)
    requires SortedBy(r, key) && 0 <= p <= |r|
    requires forall j :: 0 <= j < p ==> key(r[j]) <= key(x)
    requires forall j :: p <= j < |r| ==> key(x) < key(r[j])
    ensures SortedBy(r[..p] + [x] + r[p..], key)
  {
    var r' := r[..p] + [x] + r[p..];
    forall i, j | 0 <= i < j < |r'| ensures key(r'[i]) <= key(r'[j]) {
      var a := if i < p then r[i] else if i == p then x else r[i - 1];
      var b := if j < p then r[j] else if j == p then x else r[j - 1];
      assert r'[i] == a && r'[j] == b;
    }
  }

  /** Putting x at position p of a sorted list, after every entry whose key
      is not larger and before every entry whose key is larger, keeps it
      sorted, adds x to its entries and puts x last among the entries with
      its key. */
  lemma InsertAt<T(!new)>(r: seq<T>, key: T -> int, x: T, p: int)
    requires SortedBy(r, key) && 0 <= p <= |r|
    requires forall j :: 0 <= j < p ==> key(r[j]) <= key(x)
    requires p < |r| ==> key(x) < key(r[p])
    ensures SortedBy(r[..p] + [x] + r[p..], key)
    ensures multiset(r[..p] + [x] + r[p..]) == multiset(r) + multiset{x}
    ensures forall v :: WithKey(r[..p] + [x] + r[p..], key, v)
                        == WithKey(r, key, v) + (if key(x) == v then [x] else [])
  {
    InsertMultiset(r, x, p);
    assert forall j :: p <= j < |r| ==> key(x) < key(r[j]) by {
      forall j | p <= j < |r| ensures key(r[j]) > key(x) {
        assert key(r[p]) <= key(r[j]);
      }
    }
    InsertSorted(r, key, x, p);
    forall v ensures WithKey(r[..p] + [x] + r[p..], key, v)
                     == WithKey(r, key, v) + (if key(x) == v then [x] else []) {
      InsertWithKey(r, key, x, p, v);
    }
  }

  lemma TakeOneMore<T>(s: seq<T>, i: int)
    requires 0 <= i < |s|
    ensures s[..i + 1] == s[..i] + [s[i]]
  {
  }

  lemma TakeAll<T>(s: seq<T>)
    ensures s[..|s|] == s
  {
  }

  /** One step of the sort: inserting the next entry of s keeps the result
      a stable sort of the prefix read so far. */
  lemma SortStep<T(!new)>(s: seq<T>, key: T -> int, i: int, r: seq<T>, p: int)
    requires 0 <= i < |s| && 0 <= p <= |r|
    requires SortedBy(r, key) && multiset(r) == multiset(s[..i])
    requires SameOrderPerKey(r, s[..i], key)
    requires forall j :: 0 <= j < p ==> key(r[j]) <= key(s[i])
    requires p < |r| ==> key(s[i]) < key(r[p])
    ensures var r' := r[..p] + [s[i]] + r[p..];
      && SortedBy(r', key) && multiset(r') == multiset(s[..i + 1])
      && SameOrderPerKey(r', s[..i + 1], key)
  {
    var x := s[i];
    TakeOneMore(s, i);
    InsertAt(r, key, x, p);
    forall v ensures WithKey(r[..p] + [x] + r[p..], key, v) == WithKey(s[..i + 1], key, v) {
      WithKeySnoc(s[..i], key, x, v);
    }
  }

  /** The stable sort. */
  method StableSort<T(!new)>(s: seq<T>, key: T -> int) returns (r: seq<T>)
    ensures SortedBy(r, key)
    ensures multiset(r) == multiset(s)
    ensures SameOrderPerKey(r, s, key)
  {
    r := [];
    var i := 0;
    while i < |s|
      invariant 0 <= i <= |s|
      invariant SortedBy(r, key)
      invariant multiset(r) == multiset(s[..i])
      invariant SameOrderPerKey(r, s[..i], key)
    {
      var p := 0;
      while p < |r| && key(r[p]) <= key(s[i])
        invariant 0 <= p <= |r|
        invariant forall j :: 0 <= j < p ==> key(r[j]) <= key(s[i])
      {
        p := p + 1;
      }
      SortStep(s, key, i, r, p);
      r := r[..p] + [s[i]] + r[p..];
      i := i + 1;
    }
    TakeAll(s);
  }
}
