/**
 * `sorted(routes_data, key=...)`: a stable sort of the route records by
 * `(ServiceNo, Direction, StopSequence)` that returns a new list and leaves
 * its input alone. The model is an insertion sort; `StableSortUnique` shows
 * that any stable sort of the same input gives the same list.
 */
module RouteSort {
  import opened RouteOrder
  import opened TransitRecords

  /** Ascending by key, every pair (not only adjacent ones). */
  predicate Sorted(s: seq<RouteRecord>)
  {
    forall i, j :: 0 <= i < j < |s| ==> KeyLe(Key(s[i]), Key(s[j]))
  }

  /** The records of `s` whose key is `k`, in their order in `s`. */
  function WithKey(s: seq<RouteRecord>, k: RouteKey): seq<RouteRecord>
  {
    if s == [] then []
    else (if Key(s[0]) == k then [s[0]] else []) + WithKey(s[1..], k)
  }

  /** Places `x` before the first record whose key is not below its own. */
  function Insert(x: RouteRecord, s: seq<RouteRecord>): (r: seq<RouteRecord>)
    ensures |r| == |s| + 1
  {
    if s == [] || KeyLe(Key(x), Key(s[0])) then [x] + s
    else [s[0]] + Insert(x, s[1..])
  }

  /** The sorted copy of `rs`, as long as `rs`. */
  function SortRoutes(rs: seq<RouteRecord>): (r: seq<RouteRecord>)
    ensures |r| == |rs|
  {
    if rs == [] then []
    else Insert(rs[0], SortRoutes(rs[1..]))
  }

  lemma {:induction false} InsertPermutes(x: RouteRecord, s: seq<RouteRecord>)
    ensures multiset(Insert(x, s)) == multiset(s) + multiset{x}
  {
    if s != [] && !KeyLe(Key(x), Key(s[0])) {
      InsertPermutes(x, s[1..]);
      assert s == [s[0]] + s[1..];
    }
  }

  /** The sorted copy holds the same records as the input, each as often. */
  lemma {:induction false} SortRoutesPermutes(rs: seq<RouteRecord>)
    ensures multiset(SortRoutes(rs)) == multiset(rs)
  {
    if rs != [] {
      SortRoutesPermutes(rs[1..]);
      InsertPermutes(rs[0], SortRoutes(rs[1..]));
      assert rs == [rs[0]] + rs[1..];
    }
  }

  lemma {:induction false} InsertSorted(x: RouteRecord, s: seq<RouteRecord>)
    requires Sorted(s)
    ensures Sorted(Insert(x, s))
    decreases |s|
  {
    if s == [] {
    } else if KeyLe(Key(x), Key(s[0])) {
      var r := Insert(x, s);
      forall i, j | 0 <= i < j < |r|
        ensures KeyLe(Key(r[i]), Key(r[j]))
      {
        if i == 0 && j > 1 {
          KeyLeTransitive(Key(x), Key(s[0]), Key(s[j - 1]));
        }
      }
    } else {
      var t := Insert(x, s[1..]);
      InsertSorted(x, s[1..]);
      InsertPermutes(x, s[1..]);
      KeyLeTotal(Key(x), Key(s[0]));
      var r := [s[0]] + t;
      forall i, j | 0 <= i < j < |r|
        ensures KeyLe(Key(r[i]), Key(r[j]))
      {
        if i == 0 {
          assert r[j] == t[j - 1];
          assert r[j] in multiset(t);
          if r[j] != x {
            assert r[j] in multiset(s[1..]);
            var m :| 0 <= m < |s[1..]| && s[1..][m] == r[j];
            assert s[m + 1] == r[j];
          }
        }
      }
    }
  }

  /** The result of `SortRoutes` is ordered ascending by key. */
  lemma {:induction false} SortRoutesSorted(rs: seq<RouteRecord>)
    ensures Sorted(SortRoutes(rs))
  {
    if rs != [] {
      SortRoutesSorted(rs[1..]);
      InsertSorted(rs[0], SortRoutes(rs[1..]));
    }
  }

  lemma {:induction false} WithKeyConcat(a: seq<RouteRecord>, b: seq<RouteRecord>, k: RouteKey)
    ensures WithKey(a + b, k) == WithKey(a, k) + WithKey(b, k)
  {
    if a == [] {
      assert a + b == b;
    } else {
      assert (a + b)[0] == a[0];
      assert (a + b)[1..] == a[1..] + b;
      WithKeyConcat(a[1..], b, k);
    }
  }

  lemma {:induction false} InsertStable(x: RouteRecord, s: seq<RouteRecord>, k: RouteKey)
    requires Sorted(s)
    ensures WithKey(Insert(x, s), k) == (if Key(x) == k then [x] else []) + WithKey(s, k)
  {
    if s == [] || KeyLe(Key(x), Key(s[0])) {
      WithKeyConcat([x], s, k);
    } else {
      InsertStable(x, s[1..], k);
      WithKeyConcat([s[0]], Insert(x, s[1..]), k);
      if Key(x) == k {
        KeyLeReflexive(Key(x));
      }
    }
  }

  /**
   * The sort is stable: for every key, the records with that key appear in
   * the result in the same order as in the input.
   */
  lemma {:induction false} SortRoutesStable(rs: seq<RouteRecord>, k: RouteKey)
    ensures WithKey(SortRoutes(rs), k) == WithKey(rs, k)
  {
    if rs != [] {
      SortRoutesStable(rs[1..], k);
      SortRoutesSorted(rs[1..]);
      InsertStable(rs[0], SortRoutes(rs[1..]), k);
    }
  }

  lemma {:induction false} WithKeyMember(s: seq<RouteRecord>, k: RouteKey, x: RouteRecord)
    ensures x in WithKey(s, k) <==> x in s && Key(x) == k
  {
    if s != [] {
      WithKeyMember(s[1..], k, x);
      assert s == [s[0]] + s[1..];
    }
  }

  /**
   * A sorted sequence is determined by its per-key subsequences: two
   * ordered sequences that agree on every key are equal.
   */
  lemma {:induction false} SortedUnique(a: seq<RouteRecord>, b: seq<RouteRecord>)
    requires Sorted(a) && Sorted(b)
    requires forall k :: WithKey(a, k) == WithKey(b, k)
    ensures a == b
    decreases |a|
  {
    if a == [] || b == [] {
      // the first record of the non-empty one has a non-empty key subsequence
      var c := if a != [] then a[0] else if b != [] then b[0] else RouteRecord("", 0, 0, "", None);
      assert WithKey(a, Key(c)) == WithKey(b, Key(c));
    } else {
      var ka, kb := Key(a[0]), Key(b[0]);
      WithKeyMember(a, ka, a[0]);
      WithKeyMember(b, ka, a[0]);
      var j :| 0 <= j < |b| && b[j] == a[0];
      if j > 0 { assert KeyLe(kb, Key(b[j])); } else { KeyLeReflexive(kb); }
      WithKeyMember(b, kb, b[0]);
      WithKeyMember(a, kb, b[0]);
      var i :| 0 <= i < |a| && a[i] == b[0];
      if i > 0 { assert KeyLe(ka, Key(a[i])); } else { KeyLeReflexive(ka); }
      KeyLeAntisymmetric(ka, kb);
      assert WithKey(a, ka) == [a[0]] + WithKey(a[1..], ka);
      assert WithKey(b, ka) == [b[0]] + WithKey(b[1..], ka);
      assert a[0] == WithKey(a, ka)[0] == WithKey(b, ka)[0] == b[0];
      forall k
        ensures WithKey(a[1..], k) == WithKey(b[1..], k)
      {
        var head := if Key(a[0]) == k then [a[0]] else [];
        assert WithKey(a, k) == head + WithKey(a[1..], k);
        assert WithKey(b, k) == head + WithKey(b[1..], k);
        assert WithKey(a[1..], k) == (head + WithKey(a[1..], k))[|head|..];
        assert WithKey(b[1..], k) == (head + WithKey(b[1..], k))[|head|..];
      }
      SortedUnique(a[1..], b[1..]);
      assert a == [a[0]] + a[1..];
      assert b == [b[0]] + b[1..];
    }
  }

  /**
   * `SortRoutes` is the stable sort: every ordered sequence that keeps, per
   * key, the input's order of records is exactly `SortRoutes(rs)`.
   */
  lemma StableSortUnique(rs: seq<RouteRecord>, out: seq<RouteRecord>)
    requires Sorted(out)
    requires forall k :: WithKey(out, k) == WithKey(rs, k)
    ensures out == SortRoutes(rs)
  {
    SortRoutesSorted(rs);
    forall k
      ensures WithKey(out, k) == WithKey(SortRoutes(rs), k)
    {
      SortRoutesStable(rs, k);
    }
    SortedUnique(out, SortRoutes(rs));
  }
}
