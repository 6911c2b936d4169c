/** get_urls_by_window_by_workspace: sort the windows by workspace ID, split
    the sorted list into runs of equal ID, and number each run's windows
    "0", "1", ... in order. */
module Grouping {
  import opened Wrappers
  import opened Strings
  import opened Assoc
  import opened StableSort
  import opened GroupBy
  import opened Session

  ghost predicate HasWorkspaceIds(windows: seq<Window>) {
    forall i :: 0 <= i < |windows| ==> windows[i].workspaceId.Some?
  }

  ghost predicate TabIndicesInRange(windows: seq<Window>) {
    forall i, j :: 0 <= i < |windows| && 0 <= j < |windows[i].tabs| ==> IndexInRange(windows[i].tabs[j])
  }

  /** The windows of `session` whose workspace ID is `id`, in session order. */
  function WindowsIn(session: seq<Window>, id: string): (r: seq<Window>)
    ensures SubSeq(r, session)
    ensures forall i :: 0 <= i < |r| ==> r[i].workspaceId == Some(id)
    ensures forall i :: 0 <= i < |session| && session[i].workspaceId == Some(id) ==> session[i] in r
  {
    if session == [] then []
    else if session[0].workspaceId == Some(id) then [session[0]] + WindowsIn(session[1..], id)
    else WindowsIn(session[1..], id)
  }

  /** WindowsIn neither drops nor repeats a window: each window with the
      given ID occurs as often as in the session, and no other window occurs. */
  lemma {:induction false} WindowsInCounts(session: seq<Window>, id: string)
    ensures forall w ::
      multiset(WindowsIn(session, id))[w] == if w.workspaceId == Some(id) then multiset(session)[w] else 0
  {
    if session != [] {
      WindowsInCounts(session[1..], id);
      assert session == [session[0]] + session[1..];
      assert multiset(session) == multiset{session[0]} + multiset(session[1..]);
    }
  }

  /** The key evaluation of `sorted(..., key=get_window_workspace_id)`: each
      window paired with its workspace ID; a missing ID raises KeyError. */
  function TagWindows(windows: seq<Window>): (r: Result<seq<(string, Window)>, Error>)
    ensures r.Ok? <==> HasWorkspaceIds(windows)
    ensures r.Err? ==> r == Err(KeyError(WorkspaceIdKey))
    ensures r.Ok? ==> |r.value| == |windows|
    ensures r.Ok? ==> forall i :: 0 <= i < |windows| ==> r.value[i] == (windows[i].workspaceId.value, windows[i])
  {
    if windows == [] then Ok([])
    else
      var id :- WindowWorkspaceId(windows[0]);
      var rest :- TagWindows(windows[1..]);
      Ok([(id, windows[0])] + rest)
  }

  /** get_window_tab_urls applied to each window of a run, in order. */
  function WindowsUrls(windows: seq<Window>): (r: Result<seq<seq<string>>, Error>)
    ensures r.Ok? <==> forall i :: 0 <= i < |windows| ==> WindowTabUrls(windows[i]).Ok?
    ensures r.Err? ==> r == Err(IndexError)
    ensures r.Ok? ==> |r.value| == |windows|
    ensures r.Ok? ==> forall i :: 0 <= i < |windows| ==> WindowTabUrls(windows[i]) == Ok(r.value[i])
  {
    if windows == [] then Ok([])
    else
      var urls :- WindowTabUrls(windows[0]);
      var rest :- WindowsUrls(windows[1..]);
      Ok([urls] + rest)
  }

  /** `{str(index): urls for index, urls in enumerate(...)}`. */
  function Enumerate(urls: seq<seq<string>>): (r: WindowUrls)
    ensures |r| == |urls|
    ensures forall i :: 0 <= i < |r| ==> r[i] == (DecimalString(i), urls[i])
  {
    seq(|urls|, i requires 0 <= i < |urls| => (DecimalString(i), urls[i]))
  }

  /** One workspace entry per run; the first bad tab index raises IndexError. */
  function NumberRuns(runs: seq<(string, seq<Window>)>): (r: Result<WorkspaceUrls, Error>)
    ensures r.Ok? <==> forall i :: 0 <= i < |runs| ==> WindowsUrls(runs[i].1).Ok?
    ensures r.Err? ==> r == Err(IndexError)
    ensures r.Ok? ==> |r.value| == |runs|
    ensures r.Ok? ==> forall i :: 0 <= i < |runs| ==> r.value[i] == (runs[i].0, Enumerate(WindowsUrls(runs[i].1).value))
  {
    if runs == [] then Ok([])
    else
      var urls :- WindowsUrls(runs[0].1);
      var rest :- NumberRuns(runs[1..]);
      Ok([(runs[0].0, Enumerate(urls))] + rest)
  }

  /** get_urls_by_window_by_workspace. Its behaviour is stated by the
      GroupUrls lemmas below; the contract records the two exceptions it can
      raise, and that there are no more workspaces than windows. */
  function GroupUrls(session: seq<Window>): (r: Result<WorkspaceUrls, Error>)
    ensures !HasWorkspaceIds(session) ==> r == Err(KeyError(WorkspaceIdKey))
    ensures r.Err? ==> r == Err(KeyError(WorkspaceIdKey)) || r == Err(IndexError)
    ensures r.Ok? ==> |r.value| <= |session|
  {
    var tagged :- TagWindows(session);
    NumberRuns(Runs(SortByKey(tagged)))
  }

  /** Window keys are distinct and read back as their positions. */
  lemma EnumerateKeys(urls: seq<seq<string>>)
    ensures Distinct(Keys(Enumerate(urls)))
    ensures forall i :: 0 <= i < |urls| ==> ParseDecimal(Keys(Enumerate(urls))[i]) == i
  {
    var ks := Keys(Enumerate(urls));
    forall i, j | 0 <= i < j < |ks| ensures ks[i] != ks[j] {
      if ks[i] == ks[j] {
        DecimalStringInjective(i, j);
      }
    }
    forall i | 0 <= i < |urls| ensures ParseDecimal(ks[i]) == i {
      ParseDecimalString(i);
    }
  }

  lemma {:induction false} TaggedWithKey(session: seq<Window>, k: string)
    requires HasWorkspaceIds(session)
    ensures Values(WithKey(TagWindows(session).value, k)) == WindowsIn(session, k)
  {
    if session != [] {
      var tagged := TagWindows(session).value;
      var rest := TagWindows(session[1..]).value;
      assert tagged == [tagged[0]] + rest;
      TaggedWithKey(session[1..], k);
      var w := WithKey(rest, k);
      if tagged[0].0 == k {
        assert WithKey(tagged, k) == [tagged[0]] + w;
        assert ([tagged[0]] + w)[1..] == w;
      } else {
        assert WithKey(tagged, k) == w;
      }
    }
  }

  /** Two groupings with the same shape hold the same number of items. */
  lemma {:induction false} RunsSizeSameShape<V, W>(m: seq<(string, seq<V>)>, runs: seq<(string, seq<W>)>)
    requires |m| == |runs|
    requires forall i :: 0 <= i < |m| ==> |m[i].1| == |runs[i].1|
    ensures RunsSize(m) == RunsSize(runs)
  {
    if m != [] {
      RunsSizeSameShape(m[1..], runs[1..]);
    }
  }

  /** The runs GroupUrls numbers: one per workspace ID, in ascending ID order,
      each holding that workspace's windows in session order. */
  lemma RunsOfSession(session: seq<Window>)
    requires HasWorkspaceIds(session)
    ensures var runs := Runs(SortByKey(TagWindows(session).value));
      && (forall i :: 0 <= i < |runs| ==> runs[i].1 == WindowsIn(session, runs[i].0))
      && (forall i, j :: 0 <= i < j < |runs| ==> Less(runs[i].0, runs[j].0))
      && (forall k :: k in Keys(runs) <==> WindowsIn(session, k) != [])
      && RunsSize(runs) == |session|
  {
    var tagged := TagWindows(session).value;
    var sorted := SortByKey(tagged);
    var runs := Runs(sorted);
    SortByKeySorted(tagged);
    RunsAscending(sorted);
    UngroupRuns(sorted);
    UngroupLength(runs);
    forall a, b | 0 <= a < b < |runs| ensures runs[a].0 != runs[b].0 {
      LessAsymmetric(runs[a].0, runs[b].0);
    }
    forall i | 0 <= i < |runs| ensures runs[i].1 == WindowsIn(session, runs[i].0) {
      RunHoldsKey(runs, i);
      SortByKeyStable(tagged, runs[i].0);
      TaggedWithKey(session, runs[i].0);
    }
    forall k ensures k in Keys(runs) <==> WindowsIn(session, k) != [] {
      if k in Keys(runs) {
        var i :| 0 <= i < |runs| && Keys(runs)[i] == k;
        assert runs[i].1 != [];
      }
      if WindowsIn(session, k) != [] {
        TaggedWithKey(session, k);
        SortByKeyStable(tagged, k);
        var p := WithKey(sorted, k)[0];
        assert p in sorted && p.0 == k;
        UngroupKeys(runs, p);
      }
    }
  }

  lemma RunsUrlsInRange(session: seq<Window>)
    requires HasWorkspaceIds(session) && TabIndicesInRange(session)
    ensures NumberRuns(Runs(SortByKey(TagWindows(session).value))).Ok?
  {
    var runs := Runs(SortByKey(TagWindows(session).value));
    RunsOfSession(session);
    forall i | 0 <= i < |runs| ensures WindowsUrls(runs[i].1).Ok? {
      var ws := runs[i].1;
      SubSeqMembers(ws, session);
      forall j | 0 <= j < |ws| ensures WindowTabUrls(ws[j]).Ok? {
        assert ws[j] in session;
      }
    }
  }

  /** Every window of the session sits in the run of its workspace ID. */
  lemma WindowInSomeRun(session: seq<Window>, runs: seq<(string, seq<Window>)>, n: nat)
    requires n < |session| && session[n].workspaceId.Some?
    requires forall i :: 0 <= i < |runs| ==> runs[i].1 == WindowsIn(session, runs[i].0)
    requires forall k :: k in Keys(runs) <==> WindowsIn(session, k) != []
    ensures exists i, j :: 0 <= i < |runs| && 0 <= j < |runs[i].1| && runs[i].1[j] == session[n]
  {
    var k := session[n].workspaceId.value;
    assert session[n] in WindowsIn(session, k);
    var i :| 0 <= i < |runs| && Keys(runs)[i] == k;
    assert session[n] in runs[i].1;
  }

  lemma RunsUrlsOutOfRange(session: seq<Window>)
    requires HasWorkspaceIds(session) && !TabIndicesInRange(session)
    ensures !NumberRuns(Runs(SortByKey(TagWindows(session).value))).Ok?
  {
    var runs := Runs(SortByKey(TagWindows(session).value));
    RunsOfSession(session);
    var n, t :| 0 <= n < |session| && 0 <= t < |session[n].tabs| && !IndexInRange(session[n].tabs[t]);
    WindowInSomeRun(session, runs, n);
    var i, j :| 0 <= i < |runs| && 0 <= j < |runs[i].1| && runs[i].1[j] == session[n];
    assert !WindowTabUrls(runs[i].1[j]).Ok?;
  }

  /** A session with no windows groups to the empty map; a window without a
      workspace ID makes the whole call raise KeyError (the sort evaluates
      every key before anything else); otherwise the call raises IndexError
      exactly when some tab's index is out of range. */
  lemma GroupUrlsFailures(session: seq<Window>)
    ensures session == [] ==> GroupUrls(session) == Ok([])
    ensures !HasWorkspaceIds(session) ==> GroupUrls(session) == Err(KeyError(WorkspaceIdKey))
    ensures HasWorkspaceIds(session) ==> (GroupUrls(session).Ok? <==> TabIndicesInRange(session))
    ensures HasWorkspaceIds(session) && !TabIndicesInRange(session) ==> GroupUrls(session) == Err(IndexError)
  {
    if HasWorkspaceIds(session) {
      if TabIndicesInRange(session) {
        RunsUrlsInRange(session);
      } else {
        RunsUrlsOutOfRange(session);
      }
    }
  }

  /** The workspace keys are exactly the workspace IDs that occur, each once,
      in ascending string order. */
  lemma GroupUrlsKeys(session: seq<Window>)
    requires GroupUrls(session).Ok?
    ensures var m := GroupUrls(session).value;
      && (forall i, j :: 0 <= i < j < |m| ==> Less(m[i].0, m[j].0))
      && Distinct(Keys(m))
      && (forall k :: k in Keys(m) <==> WindowsIn(session, k) != [])
  {
    var m := GroupUrls(session).value;
    var runs := Runs(SortByKey(TagWindows(session).value));
    RunsOfSession(session);
    assert Keys(m) == Keys(runs);
    forall i, j | 0 <= i < j < |m| ensures m[i].0 != m[j].0 {
      LessAsymmetric(m[i].0, m[j].0);
    }
  }

  /** Within a workspace, window "j" holds the URLs of the j-th window with
      that workspace ID, counted in session order. */
  lemma GroupUrlsWindows(session: seq<Window>)
    requires GroupUrls(session).Ok?
    ensures var m := GroupUrls(session).value;
      forall i :: 0 <= i < |m| ==>
        && |m[i].1| == |WindowsIn(session, m[i].0)|
        && forall j :: 0 <= j < |m[i].1| ==>
             && m[i].1[j].0 == DecimalString(j)
             && WindowTabUrls(WindowsIn(session, m[i].0)[j]) == Ok(m[i].1[j].1)
  {
    var m := GroupUrls(session).value;
    var runs := Runs(SortByKey(TagWindows(session).value));
    RunsOfSession(session);
    assert m == NumberRuns(runs).value;
    forall i | 0 <= i < |m|
      ensures |m[i].1| == |WindowsIn(session, m[i].0)|
      ensures forall j :: 0 <= j < |m[i].1| ==>
        && m[i].1[j].0 == DecimalString(j)
        && WindowTabUrls(WindowsIn(session, m[i].0)[j]) == Ok(m[i].1[j].1)
    {
      var urls := WindowsUrls(runs[i].1).value;
      assert m[i] == (runs[i].0, Enumerate(urls));
      assert runs[i].1 == WindowsIn(session, m[i].0);
    }
  }

  /** No window is lost or duplicated: the windows over all workspaces number
      as many as the session's windows. */
  lemma GroupUrlsWindowCount(session: seq<Window>)
    requires GroupUrls(session).Ok?
    ensures RunsSize(GroupUrls(session).value) == |session|
  {
    var m := GroupUrls(session).value;
    var runs := Runs(SortByKey(TagWindows(session).value));
    RunsOfSession(session);
    RunsSizeSameShape(m, runs);
  }
}
