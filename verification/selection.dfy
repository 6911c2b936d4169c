/** select_urls: keep the requested workspaces and, within each kept
    workspace, the requested windows. An empty filter stands for the
    dictionary's own keys (`ids or windows.keys()`). */
module Selection {
  import opened Assoc
  import opened Session

  /** The entries of `m` whose key is in `allowed`, in order. */
  function KeepKeys<V>(m: seq<(string, V)>, allowed: seq<string>): (r: seq<(string, V)>)
    ensures SubSeq(r, m)
    ensures forall k :: WithKey(r, k) == if k in allowed then WithKey(m, k) else []
    ensures (forall i :: 0 <= i < |m| ==> m[i].0 in allowed) ==> r == m
  {
    if m == [] then []
    else
      var rest := KeepKeys(m[1..], allowed);
      WithKeyCons(m[0], m[1..]);
      WithKeyCons(m[0], rest);
      assert m == [m[0]] + m[1..];
      if m[0].0 in allowed then [m[0]] + rest else rest
  }

  /** Membership in a per-key filter of `m`: an entry is kept exactly when
      its key is allowed. */
  lemma FilteredMembers<V>(m: seq<(string, V)>, allowed: seq<string>, r: seq<(string, V)>)
    requires forall k :: WithKey(r, k) == if k in allowed then WithKey(m, k) else []
    ensures forall i :: 0 <= i < |m| && m[i].0 in allowed ==> m[i] in r
    ensures forall i :: 0 <= i < |r| ==> r[i] in m && r[i].0 in allowed
  {
    forall i | 0 <= i < |m| && m[i].0 in allowed ensures m[i] in r {
      var w := WithKey(r, m[i].0);
      assert m[i] in w;
      var j :| 0 <= j < |w| && w[j] == m[i];
    }
    forall i | 0 <= i < |r| ensures r[i] in m && r[i].0 in allowed {
      var w := WithKey(r, r[i].0);
      assert r[i] in w;
      var j :| 0 <= j < |w| && w[j] == r[i];
    }
  }

  /** The inner comprehension of select_urls (ftl.py line 111): an empty
      window filter keeps every window, otherwise exactly the listed ones. */
  function SelectWindows(windows: WindowUrls, windowIds: seq<string>): (r: WindowUrls)
    ensures SubSeq(r, windows)
    ensures windowIds == [] ==> r == windows
    ensures windowIds != [] ==> forall i :: 0 <= i < |windows| && windows[i].0 in windowIds ==> windows[i] in r
    ensures windowIds != [] ==> forall i :: 0 <= i < |r| ==> r[i] in windows && r[i].0 in windowIds
    ensures forall k :: WithKey(r, k) == if windowIds == [] || k in windowIds then WithKey(windows, k) else []
  {
    if windowIds == [] then
      KeepKeys(windows, Keys(windows))
    else
      var r := KeepKeys(windows, windowIds);
      FilteredMembers(windows, windowIds, r);
      r
  }

  /** The workspace test of select_urls as written (ftl.py line 114): with an
      empty workspace filter it falls back to the keys of the workspace's
      OWN window map, not to the workspace IDs. */
  predicate WorkspaceSelected(workspaceId: string, windows: WindowUrls, workspaceIds: seq<string>)
    ensures workspaceIds != [] ==> (WorkspaceSelected(workspaceId, windows, workspaceIds) <==> workspaceId in workspaceIds)
    ensures workspaceIds == [] ==>
      (WorkspaceSelected(workspaceId, windows, workspaceIds) <==> exists j :: 0 <= j < |windows| && windows[j].0 == workspaceId)
  {
    workspaceId in (if workspaceIds != [] then workspaceIds else Keys(windows))
  }

  function SelectUrls(all: WorkspaceUrls, workspaceIds: seq<string>, windowIds: seq<string>): (r: WorkspaceUrls)
    ensures SubSeq(Keys(r), Keys(all))
  {
    if all == [] then []
    else
      var rest := SelectUrls(all[1..], workspaceIds, windowIds);
      if WorkspaceSelected(all[0].0, all[0].1, workspaceIds) then
        [(all[0].0, SelectWindows(all[0].1, windowIds))] + rest
      else
        rest
  }

  /** The workspace filter as documented (ftl.py lines 99-100): an empty
      filter selects every workspace. */
  function SelectUrlsIntended(all: WorkspaceUrls, workspaceIds: seq<string>, windowIds: seq<string>): (r: WorkspaceUrls)
    ensures SubSeq(Keys(r), Keys(all))
  {
    if all == [] then []
    else
      var rest := SelectUrlsIntended(all[1..], workspaceIds, windowIds);
      if workspaceIds == [] || all[0].0 in workspaceIds then
        [(all[0].0, SelectWindows(all[0].1, windowIds))] + rest
      else
        rest
  }

  /** Filtering a second time with the same window filter changes nothing. */
  lemma SelectWindowsIdempotent(windows: WindowUrls, windowIds: seq<string>)
    ensures SelectWindows(SelectWindows(windows, windowIds), windowIds) == SelectWindows(windows, windowIds)
  {
  }

  /** select_urls as written: a workspace is kept exactly when it passes the
      workspace test, under a non-empty filter when its ID is listed and under
      an empty one when its ID is a key of its own window map; every kept
      workspace has its windows filtered by the same window filter, and the
      result is again a dictionary (no key twice). */
  lemma {:induction false} SelectUrlsWorkspaces(all: WorkspaceUrls, workspaceIds: seq<string>, windowIds: seq<string>)
    requires Distinct(Keys(all))
    ensures Distinct(Keys(SelectUrls(all, workspaceIds, windowIds)))
    ensures workspaceIds != [] ==> forall i :: 0 <= i < |all| ==>
      (all[i].0 in Keys(SelectUrls(all, workspaceIds, windowIds)) <==> all[i].0 in workspaceIds)
    ensures workspaceIds == [] ==> forall i :: 0 <= i < |all| ==>
      (all[i].0 in Keys(SelectUrls(all, workspaceIds, windowIds)) <==> all[i].0 in Keys(all[i].1))
    ensures forall i :: 0 <= i < |all| && all[i].0 in Keys(SelectUrls(all, workspaceIds, windowIds)) ==>
      (all[i].0, SelectWindows(all[i].1, windowIds)) in SelectUrls(all, workspaceIds, windowIds)
  {
    var r := SelectUrls(all, workspaceIds, windowIds);
    SubSeqDistinct(Keys(r), Keys(all));
    if all != [] {
      var rest := SelectUrls(all[1..], workspaceIds, windowIds);
      assert Keys(all) == [all[0].0] + Keys(all[1..]);
      DistinctTail(Keys(all));
      SelectUrlsWorkspaces(all[1..], workspaceIds, windowIds);
      SubSeqMembers(Keys(rest), Keys(all[1..]));
      assert all[0].0 !in Keys(rest);
      forall i | 0 <= i < |all|
        ensures all[i].0 in Keys(r) <==> WorkspaceSelected(all[i].0, all[i].1, workspaceIds)
        ensures all[i].0 in Keys(r) ==> (all[i].0, SelectWindows(all[i].1, windowIds)) in r
      {
        if i == 0 {
          if WorkspaceSelected(all[0].0, all[0].1, workspaceIds) {
            assert r[0] == (all[0].0, SelectWindows(all[0].1, windowIds));
          }
        } else {
          assert all[i] == all[1..][i - 1];
          assert all[i].0 != all[0].0 by {
            assert Keys(all)[i] != Keys(all)[0];
          }
          if WorkspaceSelected(all[0].0, all[0].1, workspaceIds) {
            assert Keys(r) == [all[0].0] + Keys(rest);
          }
        }
      }
    }
  }

  /** With a non-empty workspace filter, selecting twice equals selecting once. */
  lemma {:induction false} SelectUrlsIdempotent(all: WorkspaceUrls, workspaceIds: seq<string>, windowIds: seq<string>)
    requires workspaceIds != []
    ensures SelectUrls(SelectUrls(all, workspaceIds, windowIds), workspaceIds, windowIds)
      == SelectUrls(all, workspaceIds, windowIds)
  {
    if all != [] {
      var rest := SelectUrls(all[1..], workspaceIds, windowIds);
      SelectUrlsIdempotent(all[1..], workspaceIds, windowIds);
      if all[0].0 in workspaceIds {
        var r := [(all[0].0, SelectWindows(all[0].1, windowIds))] + rest;
        assert r[0] == (all[0].0, SelectWindows(all[0].1, windowIds)) && r[1..] == rest;
        SelectWindowsIdempotent(all[0].1, windowIds);
      }
    }
  }

  /** The first half of SelectUrlsDropsUnfiltered, proved on its own so that
      the quantified facts of SelectUrlsWorkspaces stay out of the proof that
      the selection differs from its input. */
  lemma UnfilteredKeyDropped(all: WorkspaceUrls, i: nat)
    requires Distinct(Keys(all))
    requires i < |all| && all[i].0 !in Keys(all[i].1)
    ensures all[i].0 !in Keys(SelectUrls(all, [], []))
  {
    SelectUrlsWorkspaces(all, [], []);
  }

  /** Counterexample to "if no IDs are provided, all workspaces will be
      selected": a workspace whose ID is not one of its own window keys is
      dropped by a selection with no filters at all. */
  lemma SelectUrlsDropsUnfiltered(all: WorkspaceUrls, i: nat)
    requires Distinct(Keys(all))
    requires i < |all| && all[i].0 !in Keys(all[i].1)
    ensures all[i].0 !in Keys(SelectUrls(all, [], []))
    ensures SelectUrls(all, [], []) != all
  {
    UnfilteredKeyDropped(all, i);
    KeyMissingDiffers(all, i, SelectUrls(all, [], []));
  }

  /** Counterexample to idempotence under an empty workspace filter: the
      window filter can remove the key that kept workspace "0" the first time. */
  lemma SelectUrlsNotIdempotent()
    ensures var all := [("0", [("0", ["http://a.com"]), ("1", ["http://b.com"])])];
      && SelectUrls(all, [], ["1"]) == [("0", [("1", ["http://b.com"])])]
      && SelectUrls(SelectUrls(all, [], ["1"]), [], ["1"]) == []
  {
    var windows: WindowUrls := [("0", ["http://a.com"]), ("1", ["http://b.com"])];
    assert Keys(windows) == ["0", "1"];
    assert SelectWindows(windows, ["1"]) == [("1", ["http://b.com"])];
    var once: WindowUrls := [("1", ["http://b.com"])];
    assert Keys(once) == ["1"];
    assert "0" !in Keys(once);
  }

  /** The corrected selection: a workspace is kept exactly when the filter is
      empty or lists it, with its windows filtered by the window filter. */
  lemma {:induction false} SelectUrlsIntendedWorkspaces(all: WorkspaceUrls, workspaceIds: seq<string>, windowIds: seq<string>)
    requires Distinct(Keys(all))
    ensures Distinct(Keys(SelectUrlsIntended(all, workspaceIds, windowIds)))
    ensures forall i :: 0 <= i < |all| ==>
      (all[i].0 in Keys(SelectUrlsIntended(all, workspaceIds, windowIds)) <==> workspaceIds == [] || all[i].0 in workspaceIds)
    ensures forall i :: 0 <= i < |all| && all[i].0 in Keys(SelectUrlsIntended(all, workspaceIds, windowIds)) ==>
      (all[i].0, SelectWindows(all[i].1, windowIds)) in SelectUrlsIntended(all, workspaceIds, windowIds)
  {
    var r := SelectUrlsIntended(all, workspaceIds, windowIds);
    SubSeqDistinct(Keys(r), Keys(all));
    if all != [] {
      var rest := SelectUrlsIntended(all[1..], workspaceIds, windowIds);
      assert Keys(all) == [all[0].0] + Keys(all[1..]);
      DistinctTail(Keys(all));
      SelectUrlsIntendedWorkspaces(all[1..], workspaceIds, windowIds);
      SubSeqMembers(Keys(rest), Keys(all[1..]));
      assert all[0].0 !in Keys(rest);
      forall i | 0 <= i < |all|
        ensures all[i].0 in Keys(r) <==> workspaceIds == [] || all[i].0 in workspaceIds
        ensures all[i].0 in Keys(r) ==> (all[i].0, SelectWindows(all[i].1, windowIds)) in r
      {
        if i == 0 {
          if workspaceIds == [] || all[0].0 in workspaceIds {
            assert r[0] == (all[0].0, SelectWindows(all[0].1, windowIds));
          }
        } else {
          assert all[i] == all[1..][i - 1];
          assert all[i].0 != all[0].0 by {
            assert Keys(all)[i] != Keys(all)[0];
          }
          if workspaceIds == [] || all[0].0 in workspaceIds {
            assert Keys(r) == [all[0].0] + Keys(rest);
          }
        }
      }
    }
  }

  /** With no filters the corrected selection returns its input unchanged. */
  lemma {:induction false} SelectUrlsIntendedNoFilter(all: WorkspaceUrls)
    ensures SelectUrlsIntended(all, [], []) == all
  {
    if all != [] {
      SelectUrlsIntendedNoFilter(all[1..]);
      assert all == [all[0]] + all[1..];
    }
  }

  /** The corrected selection is idempotent for every pair of filters. */
  lemma {:induction false} SelectUrlsIntendedIdempotent(all: WorkspaceUrls, workspaceIds: seq<string>, windowIds: seq<string>)
    ensures SelectUrlsIntended(SelectUrlsIntended(all, workspaceIds, windowIds), workspaceIds, windowIds)
      == SelectUrlsIntended(all, workspaceIds, windowIds)
  {
    if all != [] {
      var rest := SelectUrlsIntended(all[1..], workspaceIds, windowIds);
      SelectUrlsIntendedIdempotent(all[1..], workspaceIds, windowIds);
      if workspaceIds == [] || all[0].0 in workspaceIds {
        var r := [(all[0].0, SelectWindows(all[0].1, windowIds))] + rest;
        assert r[0] == (all[0].0, SelectWindows(all[0].1, windowIds)) && r[1..] == rest;
        SelectWindowsIdempotent(all[0].1, windowIds);
      }
    }
  }

  /** The correction changes nothing when workspaces are named explicitly. */
  lemma {:induction false} SelectUrlsIntendedAgrees(all: WorkspaceUrls, workspaceIds: seq<string>, windowIds: seq<string>)
    requires workspaceIds != []
    ensures SelectUrlsIntended(all, workspaceIds, windowIds) == SelectUrls(all, workspaceIds, windowIds)
  {
    if all != [] {
      SelectUrlsIntendedAgrees(all[1..], workspaceIds, windowIds);
    }
  }
}
