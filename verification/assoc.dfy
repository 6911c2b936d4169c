/** Association lists: the model of a Python `dict` with string keys, which
    keeps its keys in insertion order (the order `json.dumps` writes). */
module Assoc {

  function Keys<V>(m: seq<(string, V)>): (ks: seq<string>)
    ensures |ks| == |m|
    ensures forall i :: 0 <= i < |m| ==> ks[i] == m[i].0
  {
    if m == [] then [] else [m[0].0] + Keys(m[1..])
  }

  function Values<V>(m: seq<(string, V)>): (vs: seq<V>)
    ensures |vs| == |m|
    ensures forall i :: 0 <= i < |m| ==> vs[i] == m[i].1
  {
    if m == [] then [] else [m[0].1] + Values(m[1..])
  }

  /** The entries of `m` whose key is `k`, in their order in `m`. */
  function WithKey<V>(m: seq<(string, V)>, k: string): (r: seq<(string, V)>)
    ensures |r| <= |m|
    ensures forall i :: 0 <= i < |r| ==> r[i] in m && r[i].0 == k
    ensures forall i :: 0 <= i < |m| && m[i].0 == k ==> m[i] in r
  {
    if m == [] then []
    else if m[0].0 == k then [m[0]] + WithKey(m[1..], k)
    else WithKey(m[1..], k)
  }

  lemma WithKeyCons<V>(p: (string, V), t: seq<(string, V)>)
    ensures forall k :: WithKey([p] + t, k) == if p.0 == k then [p] + WithKey(t, k) else WithKey(t, k)
  {
    assert ([p] + t)[0] == p && ([p] + t)[1..] == t;
  }

  ghost predicate Distinct<T>(s: seq<T>) {
    forall i, j :: 0 <= i < j < |s| ==> s[i] != s[j]
  }

  /** `a` is what remains of `b` after deleting some of its elements. */
  ghost predicate SubSeq<T>(a: seq<T>, b: seq<T>)
    decreases |b|
  {
    a == [] || (b != [] && ((a[0] == b[0] && SubSeq(a[1..], b[1..])) || SubSeq(a, b[1..])))
  }

  lemma {:induction false} WithKeyAppend<V>(a: seq<(string, V)>, b: seq<(string, V)>, k: string)
    ensures WithKey(a + b, k) == WithKey(a, k) + WithKey(b, k)
  {
    if a == [] {
      assert a + b == b;
    } else {
      assert (a + b)[0] == a[0] && (a + b)[1..] == a[1..] + b;
      WithKeyAppend(a[1..], b, k);
    }
  }

  lemma {:induction false} SubSeqMembers<T>(a: seq<T>, b: seq<T>)
    requires SubSeq(a, b)
    ensures forall x :: x in a ==> x in b
    decreases |b|
  {
    if a != [] {
      if a[0] == b[0] && SubSeq(a[1..], b[1..]) {
        SubSeqMembers(a[1..], b[1..]);
        forall x | x in a ensures x in b {
          if x != a[0] {
            assert x in a[1..];
          }
        }
      } else {
        SubSeqMembers(a, b[1..]);
      }
    }
  }

  lemma {:induction false} SubSeqDistinct<T>(a: seq<T>, b: seq<T>)
    requires SubSeq(a, b) && Distinct(b)
    ensures Distinct(a)
    decreases |b|
  {
    if a != [] {
      if a[0] == b[0] && SubSeq(a[1..], b[1..]) {
        SubSeqDistinct(a[1..], b[1..]);
        SubSeqMembers(a[1..], b[1..]);
        forall i, j | 0 <= i < j < |a| ensures a[i] != a[j] {
          if i == 0 {
            assert a[j] in a[1..];
            assert a[j] in b[1..];
          } else {
            assert a[i] == a[1..][i - 1] && a[j] == a[1..][j - 1];
          }
        }
      } else {
        SubSeqDistinct(a, b[1..]);
      }
    }
  }

  lemma DistinctTail<T>(s: seq<T>)
    requires Distinct(s) && s != []
    ensures Distinct(s[1..]) && s[0] !in s[1..]
  {
    forall n | 0 <= n < |s[1..]| ensures s[1..][n] != s[0] {
      assert s[1..][n] == s[n + 1];
    }
  }

  /** Two association lists differ when a key of one is missing from the other. */
  lemma KeyMissingDiffers<V>(m: seq<(string, V)>, i: nat, r: seq<(string, V)>)
    requires i < |m| && m[i].0 !in Keys(r)
    ensures r != m
  {
    assert Keys(m)[i] == m[i].0;
  }
}
