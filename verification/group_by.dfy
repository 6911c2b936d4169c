/** `itertools.groupby` over (key, item) pairs: the partition of a sequence
    into maximal runs of adjacent entries sharing a key. */
module GroupBy {
  import opened Strings
  import opened Assoc
  import opened StableSort

  /** The maximal runs of `s`, each given as its key and its items in order. */
  function Runs<V>(s: seq<(string, V)>): (r: seq<(string, seq<V>)>)
    ensures |r| <= |s|
    ensures s != [] ==> r != [] && r[0].0 == s[0].0
    ensures forall i :: 0 <= i < |r| ==> r[i].1 != []
    ensures forall i :: 0 < i < |r| ==> r[i - 1].0 != r[i].0
  {
    if s == [] then []
    else
      var rest := Runs(s[1..]);
      if rest != [] && rest[0].0 == s[0].0 then
        [(s[0].0, [s[0].1] + rest[0].1)] + rest[1..]
      else
        [(s[0].0, [s[0].1])] + rest
  }

  function Tag<V>(k: string, vs: seq<V>): (s: seq<(string, V)>)
    ensures |s| == |vs|
    ensures forall i :: 0 <= i < |s| ==> s[i] == (k, vs[i])
  {
    if vs == [] then [] else [(k, vs[0])] + Tag(k, vs[1..])
  }

  /** Undoes a grouping: every item paired again with its run's key. */
  function Ungroup<V>(r: seq<(string, seq<V>)>): seq<(string, V)> {
    if r == [] then [] else Tag(r[0].0, r[0].1) + Ungroup(r[1..])
  }

  /** `r` partitions `s` into maximal runs. */
  ghost predicate IsRunPartition<V>(r: seq<(string, seq<V>)>, s: seq<(string, V)>) {
    && (forall i :: 0 <= i < |r| ==> r[i].1 != [])
    && (forall i :: 0 < i < |r| ==> r[i - 1].0 != r[i].0)
    && Ungroup(r) == s
  }

  lemma UngroupCons<V>(h: (string, seq<V>), t: seq<(string, seq<V>)>)
    ensures Ungroup([h] + t) == Tag(h.0, h.1) + Ungroup(t)
  {
    assert ([h] + t)[0] == h && ([h] + t)[1..] == t;
  }

  lemma TagCons<V>(k: string, v: V, vs: seq<V>)
    ensures Tag(k, [v] + vs) == [(k, v)] + Tag(k, vs)
  {
    assert ([v] + vs)[0] == v && ([v] + vs)[1..] == vs;
  }

  lemma {:induction false} UngroupRuns<V>(s: seq<(string, V)>)
    ensures Ungroup(Runs(s)) == s
  {
    if s != [] {
      var rest := Runs(s[1..]);
      var k, v := s[0].0, s[0].1;
      UngroupRuns(s[1..]);
      if rest != [] && rest[0].0 == k {
        UngroupCons((k, [v] + rest[0].1), rest[1..]);
        TagCons(k, v, rest[0].1);
        assert rest == [rest[0]] + rest[1..];
        UngroupCons(rest[0], rest[1..]);
      } else {
        UngroupCons((k, [v]), rest);
        TagCons(k, v, []);
      }
      assert s == [(k, v)] + s[1..];
    }
  }

  /** Runs(s) is the partition of `s` into maximal runs, and the only one. */
  lemma RunsPartition<V>(s: seq<(string, V)>)
    ensures IsRunPartition(Runs(s), s)
  {
    UngroupRuns(s);
  }

  /** Removing the first run of a partition leaves a partition of the rest. */
  lemma DropFirstRun<V>(r: seq<(string, seq<V>)>, s: seq<(string, V)>)
    requires IsRunPartition(r, s) && r != [] && |r[0].1| == 1
    ensures s != [] && s[0] == (r[0].0, r[0].1[0])
    ensures IsRunPartition(r[1..], s[1..])
  {
    var k, vs, t := r[0].0, r[0].1, r[1..];
    assert r == [(k, vs)] + t;
    UngroupCons((k, vs), t);
    assert vs == [vs[0]] + [];
    TagCons(k, vs[0], []);
    assert s == [(k, vs[0])] + Ungroup(t);
    forall i | 0 < i < |t| ensures t[i - 1].0 != t[i].0 {
      assert t[i - 1] == r[i] && t[i] == r[i + 1];
    }
  }

  /** Removing the first item of a longer first run leaves a partition of the rest. */
  lemma DropFirstItem<V>(r: seq<(string, seq<V>)>, s: seq<(string, V)>)
    requires IsRunPartition(r, s) && r != [] && |r[0].1| > 1
    ensures s != [] && s[0] == (r[0].0, r[0].1[0])
    ensures IsRunPartition([(r[0].0, r[0].1[1..])] + r[1..], s[1..])
  {
    var k, vs, t := r[0].0, r[0].1, r[1..];
    var r' := [(k, vs[1..])] + t;
    assert r == [(k, vs)] + t;
    UngroupCons((k, vs), t);
    assert vs == [vs[0]] + vs[1..];
    TagCons(k, vs[0], vs[1..]);
    assert s == [(k, vs[0])] + (Tag(k, vs[1..]) + Ungroup(t));
    UngroupCons((k, vs[1..]), t);
    forall i | 0 < i < |r'| ensures r'[i - 1].0 != r'[i].0 {
      assert r'[i] == r[i];
      assert r'[i - 1].0 == r[i - 1].0;
    }
  }

  lemma {:induction false} RunPartitionUnique<V>(r: seq<(string, seq<V>)>, s: seq<(string, V)>)
    requires IsRunPartition(r, s)
    ensures r == Runs(s)
    decreases |s|
  {
    if r == [] {
      assert s == [];
    } else if |r[0].1| == 1 {
      var k, t := r[0].0, r[1..];
      DropFirstRun(r, s);
      RunPartitionUnique(t, s[1..]);
      assert t != [] ==> t[0].0 == r[1].0 && r[0].0 != r[1].0;
      assert r[0].1 == [s[0].1];
      assert r == [(k, [s[0].1])] + t;
    } else {
      var k, vs, t := r[0].0, r[0].1, r[1..];
      var r' := [(k, vs[1..])] + t;
      DropFirstItem(r, s);
      RunPartitionUnique(r', s[1..]);
      assert r'[0] == (k, vs[1..]) && r'[1..] == t;
      assert vs == [s[0].1] + vs[1..];
      assert r == [(k, vs)] + t;
    }
  }

  /** Growing the first run keeps the run keys as they were. */
  lemma AscendingGrowHead<V>(rest: seq<(string, seq<V>)>, v: V)
    requires rest != []
    requires forall i, j :: 0 <= i < j < |rest| ==> Less(rest[i].0, rest[j].0)
    ensures var r := [(rest[0].0, [v] + rest[0].1)] + rest[1..];
      forall i, j :: 0 <= i < j < |r| ==> Less(r[i].0, r[j].0)
  {
    var r := [(rest[0].0, [v] + rest[0].1)] + rest[1..];
    forall i, j | 0 <= i < j < |r| ensures Less(r[i].0, r[j].0) {
      assert r[i].0 == rest[i].0 && r[j].0 == rest[j].0;
    }
  }

  /** A new run whose key is below every later key keeps the run keys ascending. */
  lemma AscendingNewHead<V>(k: string, v: V, rest: seq<(string, seq<V>)>)
    requires rest != [] ==> Less(k, rest[0].0)
    requires forall i, j :: 0 <= i < j < |rest| ==> Less(rest[i].0, rest[j].0)
    ensures var r := [(k, [v])] + rest;
      forall i, j :: 0 <= i < j < |r| ==> Less(r[i].0, r[j].0)
  {
    var r := [(k, [v])] + rest;
    forall i, j | 0 <= i < j < |r| ensures Less(r[i].0, r[j].0) {
      assert r[j] == rest[j - 1];
      if i == 0 {
        if j > 1 {
          LessTransitive(k, rest[0].0, rest[j - 1].0);
        }
      } else {
        assert r[i] == rest[i - 1];
      }
    }
  }

  /** Over a sorted sequence the run keys strictly increase, so each key has exactly one run. */
  lemma {:induction false} RunsAscending<V>(s: seq<(string, V)>)
    requires Sorted(s)
    ensures forall i, j :: 0 <= i < j < |Runs(s)| ==> Less(Runs(s)[i].0, Runs(s)[j].0)
  {
    if s != [] {
      var rest := Runs(s[1..]);
      SortedTail(s);
      RunsAscending(s[1..]);
      if rest != [] && rest[0].0 == s[0].0 {
        AscendingGrowHead(rest, s[0].1);
      } else {
        if rest != [] {
          assert rest[0].0 == s[1].0;
          assert LessOrEqual(s[0].0, s[1].0);
        }
        AscendingNewHead(s[0].0, s[0].1, rest);
      }
    }
  }

  lemma WithKeyTag<V>(k: string, vs: seq<V>, k': string)
    ensures WithKey(Tag(k, vs), k') == if k == k' then Tag(k, vs) else []
    decreases |vs|
  {
    if vs != [] {
      assert Tag(k, vs)[1..] == Tag(k, vs[1..]);
      WithKeyTag(k, vs[1..], k');
    }
  }

  lemma {:induction false} WithKeyUngroupAbsent<V>(r: seq<(string, seq<V>)>, k: string)
    requires forall i :: 0 <= i < |r| ==> r[i].0 != k
    ensures WithKey(Ungroup(r), k) == []
  {
    if r != [] {
      assert r == [r[0]] + r[1..];
      UngroupCons(r[0], r[1..]);
      WithKeyAppend(Tag(r[0].0, r[0].1), Ungroup(r[1..]), k);
      WithKeyTag(r[0].0, r[0].1, k);
      WithKeyUngroupAbsent(r[1..], k);
    }
  }

  /** When run keys are distinct, a run holds exactly the items of its key, in order. */
  lemma {:induction false} RunHoldsKey<V>(r: seq<(string, seq<V>)>, i: nat)
    requires i < |r|
    requires forall a, b :: 0 <= a < b < |r| ==> r[a].0 != r[b].0
    ensures Values(WithKey(Ungroup(r), r[i].0)) == r[i].1
  {
    var k := r[i].0;
    var t := r[1..];
    assert r == [r[0]] + t;
    UngroupCons(r[0], t);
    WithKeyAppend(Tag(r[0].0, r[0].1), Ungroup(t), k);
    WithKeyTag(r[0].0, r[0].1, k);
    if i == 0 {
      forall j | 0 <= j < |t| ensures t[j].0 != k {
        assert t[j] == r[j + 1];
      }
      WithKeyUngroupAbsent(t, k);
      assert WithKey(Ungroup(r), k) == Tag(k, r[0].1);
      assert Values(Tag(k, r[0].1)) == r[0].1;
    } else {
      forall a, b | 0 <= a < b < |t| ensures t[a].0 != t[b].0 {
        assert t[a] == r[a + 1] && t[b] == r[b + 1];
      }
      assert t[i - 1] == r[i];
      assert r[0].0 != k;
      RunHoldsKey(t, i - 1);
      assert WithKey(Ungroup(r), k) == WithKey(Ungroup(t), k);
    }
  }

  /** Every key of the ungrouped sequence is the key of some run. */
  lemma {:induction false} UngroupKeys<V>(r: seq<(string, seq<V>)>, p: (string, V))
    requires p in Ungroup(r)
    ensures p.0 in Keys(r)
  {
    assert r == [r[0]] + r[1..];
    UngroupCons(r[0], r[1..]);
    if p !in Tag(r[0].0, r[0].1) {
      assert p in Ungroup(r[1..]);
      UngroupKeys(r[1..], p);
    }
  }

  lemma {:induction false} UngroupLength<V>(r: seq<(string, seq<V>)>)
    ensures |Ungroup(r)| == RunsSize(r)
  {
    if r != [] {
      UngroupLength(r[1..]);
    }
  }

  /** The number of items over all runs. */
  function RunsSize<V>(r: seq<(string, seq<V>)>): nat {
    if r == [] then 0 else |r[0].1| + RunsSize(r[1..])
  }
}
