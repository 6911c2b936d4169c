/** Python's `sorted(xs, key=...)` on string keys: a stable sort. It is
    modelled by insertion sort on (key, item) pairs; SortByKeyUnique shows that
    any sorted, per-key order-preserving rearrangement is this one, so the
    choice of algorithm does not matter. */
module StableSort {
  import opened Strings
  import opened Assoc

  /** Keys never decrease along `s`. */
  ghost predicate Sorted<V>(s: seq<(string, V)>) {
    forall i, j :: 0 <= i < j < |s| ==> LessOrEqual(s[i].0, s[j].0)
  }

  /** Places `p` before the first entry whose key is not smaller than its own. */
  function Insert<V>(p: (string, V), s: seq<(string, V)>): (r: seq<(string, V)>)
    ensures |r| == |s| + 1
    ensures multiset(r) == multiset(s) + multiset{p}
  {
    if s == [] || !Less(s[0].0, p.0) then [p] + s
    else
      assert s == [s[0]] + s[1..];
      [s[0]] + Insert(p, s[1..])
  }

  function SortByKey<V>(s: seq<(string, V)>): (r: seq<(string, V)>)
    ensures |r| == |s|
    ensures multiset(r) == multiset(s)
  {
    if s == [] then []
    else
      assert s == [s[0]] + s[1..];
      Insert(s[0], SortByKey(s[1..]))
  }

  lemma {:induction false} InsertSorted<V>(p: (string, V), s: seq<(string, V)>)
    requires Sorted(s)
    ensures Sorted(Insert(p, s))
  {
    if s == [] || !Less(s[0].0, p.0) {
      var r := [p] + s;
      if s != [] {
        LessTotal(p.0, s[0].0);
      }
      forall i, j | 0 <= i < j < |r| ensures LessOrEqual(r[i].0, r[j].0) {
        if i == 0 {
          assert r[j] == s[j - 1];
          if j > 1 {
            LessOrEqualTransitive(p.0, s[0].0, s[j - 1].0);
          }
        } else {
          assert r[i] == s[i - 1] && r[j] == s[j - 1];
        }
      }
    } else {
      var t := Insert(p, s[1..]);
      InsertSorted(p, s[1..]);
      var r := [s[0]] + t;
      forall i, j | 0 <= i < j < |r| ensures LessOrEqual(r[i].0, r[j].0) {
        if i == 0 {
          var x := t[j - 1];
          assert x in multiset(t);
          if x != p {
            assert x in multiset(s[1..]);
            var n :| 0 <= n < |s[1..]| && s[1..][n] == x;
            assert s[n + 1] == x;
          }
        } else {
          assert r[i] == t[i - 1] && r[j] == t[j - 1];
        }
      }
    }
  }

  lemma {:induction false} SortByKeySorted<V>(s: seq<(string, V)>)
    ensures Sorted(SortByKey(s))
  {
    if s != [] {
      SortByKeySorted(s[1..]);
      InsertSorted(s[0], SortByKey(s[1..]));
    }
  }

  lemma {:induction false} InsertWithKey<V>(p: (string, V), s: seq<(string, V)>, k: string)
    ensures WithKey(Insert(p, s), k) == if p.0 == k then [p] + WithKey(s, k) else WithKey(s, k)
  {
    if s == [] || !Less(s[0].0, p.0) {
      assert ([p] + s)[1..] == s;
    } else {
      LessIrreflexive(p.0);
      InsertWithKey(p, s[1..], k);
      assert ([s[0]] + Insert(p, s[1..]))[1..] == Insert(p, s[1..]);
    }
  }

  /** Stability: for every key, the entries with that key keep their relative order. */
  lemma {:induction false} SortByKeyStable<V>(s: seq<(string, V)>, k: string)
    ensures WithKey(SortByKey(s), k) == WithKey(s, k)
  {
    if s != [] {
      SortByKeyStable(s[1..], k);
      InsertWithKey(s[0], SortByKey(s[1..]), k);
    }
  }

  lemma {:induction false} WithKeyNonEmpty<V>(s: seq<(string, V)>, k: string)
    requires WithKey(s, k) != []
    ensures exists j :: 0 <= j < |s| && s[j].0 == k
  {
    var p := WithKey(s, k)[0];
    assert p in s;
  }

  lemma SameWithKeysBothEmpty<V>(t: seq<(string, V)>, u: seq<(string, V)>)
    requires forall k :: WithKey(t, k) == WithKey(u, k)
    ensures t == [] <==> u == []
  {
    if t != [] {
      assert WithKey(t, t[0].0) != [];
    }
    if u != [] {
      assert WithKey(u, u[0].0) != [];
    }
  }

  lemma SortedTail<V>(t: seq<(string, V)>)
    requires Sorted(t) && t != []
    ensures Sorted(t[1..])
  {
    forall i, j | 0 <= i < j < |t[1..]| ensures LessOrEqual(t[1..][i].0, t[1..][j].0) {
      assert t[1..][i] == t[i + 1] && t[1..][j] == t[j + 1];
    }
  }

  /** The first key of a sorted sequence is its least key. */
  lemma SortedHeadLeast<V>(t: seq<(string, V)>, k: string)
    requires Sorted(t) && WithKey(t, k) != []
    ensures LessOrEqual(t[0].0, k)
  {
    WithKeyNonEmpty(t, k);
    var j :| 0 <= j < |t| && t[j].0 == k;
    if j > 0 {
      assert LessOrEqual(t[0].0, t[j].0);
    }
  }

  lemma SortedStableHead<V>(t: seq<(string, V)>, u: seq<(string, V)>)
    requires Sorted(t) && Sorted(u) && t != [] && u != []
    requires forall k :: WithKey(t, k) == WithKey(u, k)
    ensures t[0] == u[0]
  {
    var a, b := t[0].0, u[0].0;
    assert WithKey(t, a) == [t[0]] + WithKey(t[1..], a);
    assert WithKey(u, b) == [u[0]] + WithKey(u[1..], b);
    SortedHeadLeast(u, a);
    SortedHeadLeast(t, b);
    LessOrEqualAntisymmetric(a, b);
    assert WithKey(t, a)[0] == t[0] && WithKey(u, a)[0] == u[0];
  }

  lemma StableTails<V>(t: seq<(string, V)>, u: seq<(string, V)>)
    requires t != [] && u != [] && t[0] == u[0]
    requires forall k :: WithKey(t, k) == WithKey(u, k)
    ensures forall k :: WithKey(t[1..], k) == WithKey(u[1..], k)
  {
    forall k ensures WithKey(t[1..], k) == WithKey(u[1..], k) {
      assert WithKey(t, k) == WithKey(u, k);
      if k == t[0].0 {
        assert WithKey(t, k)[1..] == WithKey(t[1..], k);
        assert WithKey(u, k)[1..] == WithKey(u[1..], k);
      }
    }
  }

  lemma {:induction false} SortedStableEqual<V>(t: seq<(string, V)>, u: seq<(string, V)>)
    requires Sorted(t) && Sorted(u)
    requires forall k :: WithKey(t, k) == WithKey(u, k)
    ensures t == u
    decreases |t|
  {
    SameWithKeysBothEmpty(t, u);
    if t != [] {
      SortedStableHead(t, u);
      StableTails(t, u);
      SortedTail(t);
      SortedTail(u);
      SortedStableEqual(t[1..], u[1..]);
      assert t == [t[0]] + t[1..] && u == [u[0]] + u[1..];
    }
  }

  /** `sorted` is determined by its contract: a rearrangement of `s` that is
      sorted and keeps, for every key, the relative order of that key's
      entries is exactly SortByKey(s). */
  lemma SortByKeyUnique<V>(s: seq<(string, V)>, t: seq<(string, V)>)
    requires Sorted(t)
    requires forall k :: WithKey(t, k) == WithKey(s, k)
    ensures t == SortByKey(s)
  {
    SortByKeySorted(s);
    forall k ensures WithKey(t, k) == WithKey(SortByKey(s), k) {
      SortByKeyStable(s, k);
    }
    SortedStableEqual(t, SortByKey(s));
  }
}
