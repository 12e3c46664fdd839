/** The JavaScript Map that server/storage.ts keeps each table in: a sequence
    of [key, value] entries, each key at most once, iterated in the order
    the keys were first set. `set` on a present key replaces the value in
    place; `delete` takes the entry out and keeps the others in order. */
module OrderedMap {
  import opened Schema

  type Entries<V> = seq<(string, V)>

  predicate UniqueKeys<V>(s: Entries<V>) {
    forall i, j :: 0 <= i < j < |s| ==> s[i].0 != s[j].0
  }

  /** The keys, in iteration order (Map.keys()). */
  function Keys<V>(s: Entries<V>): (r: seq<string>)
    ensures |r| == |s| && forall i :: 0 <= i < |s| ==> r[i] == s[i].0
  {
    if |s| == 0 then [] else [s[0].0] + Keys(s[1..])
  }

  /** The values, in iteration order (Array.from(map.values())). */
  function ValuesOf<V>(s: Entries<V>): (r: seq<V>)
    ensures |r| == |s| && forall i :: 0 <= i < |s| ==> r[i] == s[i].1
  {
    if |s| == 0 then [] else [s[0].1] + ValuesOf(s[1..])
  }

  /** Appending an entry appends its key and its value. */
  lemma Snoc<V>(s: Entries<V>, k: string, v: V)
    ensures Keys(s + [(k, v)]) == Keys(s) + [k]
    ensures ValuesOf(s + [(k, v)]) == ValuesOf(s) + [v]
  {
    var r := s + [(k, v)];
    assert forall i :: 0 <= i < |s| ==> r[i] == s[i];
  }

  /** Where key k sits, or -1. */
  function IndexOf<V>(s: Entries<V>, k: string): (i: int)
    ensures -1 <= i < |s|
    ensures i == -1 <==> k !in Keys(s)
    ensures i >= 0 ==> s[i].0 == k && forall j :: 0 <= j < i ==> s[j].0 != k
  {
    if |s| == 0 then -1
    else if s[0].0 == k then 0
    else
      var j := IndexOf(s[1..], k);
      assert Keys(s) == [s[0].0] + Keys(s[1..]);
      if j < 0 then -1 else j + 1
  }

  /** Map.has. */
  predicate Has<V>(s: Entries<V>, k: string) {
    k in Keys(s)
  }

  /** Map.get: the value stored under k, or none. */
  function Get<V>(s: Entries<V>, k: string): (r: Option<V>)
    ensures r.Some? <==> Has(s, k)
    ensures UniqueKeys(s) ==> forall i :: 0 <= i < |s| && s[i].0 == k ==> r == Some(s[i].1)
  {
    var i := IndexOf(s, k);
    if i < 0 then None else Some(s[i].1)
  }

  /** Map.set: a new key goes last, a present key keeps its place. */
  function Set<V>(s: Entries<V>, k: string, v: V): (r: Entries<V>)
    ensures Has(s, k) ==> |r| == |s| && Keys(r) == Keys(s)
    ensures !Has(s, k) ==> r == s + [(k, v)]
    ensures UniqueKeys(s) ==> UniqueKeys(r)
  {
    var i := IndexOf(s, k);
    if i < 0 then s + [(k, v)] else s[i := (k, v)]
  }

  /** Map.delete: the entries without key k, in their old order. */
  function Delete<V(!new)>(s: Entries<V>, k: string): (r: Entries<V>)
    ensures |r| <= |s|
    ensures forall x :: Has(r, x) <==> Has(s, x) && x != k
    ensures forall e :: e in r <==> e in s && e.0 != k
  {
    if |s| == 0 then []
    else
      assert Keys(s) == [s[0].0] + Keys(s[1..]);
      var rest := Delete(s[1..], k);
      if s[0].0 == k then rest
      else
        assert Keys([s[0]] + rest) == [s[0].0] + Keys(rest);
        [s[0]] + rest
  }

  lemma {:induction false} DeleteUnique<V(!new)>(s: Entries<V>, k: string)
    requires UniqueKeys(s)
    ensures UniqueKeys(Delete(s, k))
    ensures |Delete(s, k)| == if Has(s, k) then |s| - 1 else |s|
    decreases |s|
  {
    if |s| > 0 {
      var tail := s[1..];
      assert Keys(s) == [s[0].0] + Keys(tail);
      forall i, j | 0 <= i < j < |tail| ensures tail[i].0 != tail[j].0 {
        assert tail[i] == s[i + 1] && tail[j] == s[j + 1];
      }
      DeleteUnique(tail, k);
      if s[0].0 == k {
        forall j | 0 <= j < |tail| ensures tail[j].0 != k {
          assert tail[j] == s[j + 1];
        }
        assert !Has(tail, k);
      } else {
        var rest := Delete(tail, k);
        forall e | e in rest ensures e.0 != s[0].0 {
          var j :| 0 <= j < |tail| && tail[j] == e;
          assert s[j + 1] == e;
        }
        var r := [s[0]] + rest;
        forall i, j | 0 <= i < j < |r| ensures r[i].0 != r[j].0 {
          assert r[j] == rest[j - 1] && r[j] in rest;
          if i > 0 {
            assert r[i] == rest[i - 1];
          }
        }
      }
    }
  }

  /** After set, k holds v and every other key holds what it held. */
  lemma GetSet<V>(s: Entries<V>, k: string, v: V, x: string)
    requires UniqueKeys(s)
    ensures Get(Set(s, k, v), x) == if x == k then Some(v) else Get(s, x)
  {
    var r := Set(s, k, v);
    var i := IndexOf(s, k);
    if i >= 0 {
      assert r[i] == (k, v);
      var j := IndexOf(s, x);
      if x != k && j >= 0 {
        assert r[j] == s[j];
      }
    } else {
      assert r[|s|] == (k, v);
      if x != k {
        var j := IndexOf(s, x);
        if j >= 0 {
          assert r[j] == s[j];
        } else {
          assert !Has(r, x) by {
            forall m | 0 <= m < |r| ensures r[m].0 != x {
              if m < |s| {
                assert r[m] == s[m] && Keys(s)[m] == s[m].0;
              }
            }
          }
        }
      }
    }
  }

  /** After delete, k holds nothing and every other key holds what it held. */
  lemma GetDelete<V(!new)>(s: Entries<V>, k: string, x: string)
    requires UniqueKeys(s)
    ensures Get(Delete(s, k), x) == if x == k then None else Get(s, x)
  {
    DeleteUnique(s, k);
    var r := Delete(s, k);
    if x != k {
      var j := IndexOf(s, x);
      if j >= 0 {
        assert s[j] in r;
        var m :| 0 <= m < |r| && r[m] == s[j];
      }
    }
  }

  /** The listed values are exactly the stored ones. */
  lemma ValuesMembers<V>(s: Entries<V>, v: V)
    requires UniqueKeys(s)
    ensures v in ValuesOf(s) <==> exists k :: Get(s, k) == Some(v)
  {
    if v in ValuesOf(s) {
      var i :| 0 <= i < |s| && ValuesOf(s)[i] == v;
      assert Get(s, s[i].0) == Some(v);
    }
    if exists k :: Get(s, k) == Some(v) {
      var k :| Get(s, k) == Some(v);
      var i := IndexOf(s, k);
      assert ValuesOf(s)[i] == v;
    }
  }
}
