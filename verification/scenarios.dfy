/** Worked examples of the whole pipeline on small sessions. */
module Scenarios {
  import opened Wrappers
  import opened Strings
  import opened Assoc
  import opened StableSort
  import opened GroupBy
  import opened Session
  import opened Grouping
  import opened Selection

  /** One window, one tab on the second of two history entries. */
  lemma GroupOneTab()
    ensures GroupUrls([Window(Some("w1"), [Tab(2, ["http://a.com", "http://b.com"])])])
      == Ok([("w1", [("0", ["http://b.com"])])])
  {
    var t := Tab(2, ["http://a.com", "http://b.com"]);
    var w := Window(Some("w1"), [t]);
    var urls := ["http://b.com"];
    assert [w][1..] == [] && [t][1..] == [];
    assert urls + [] == urls && [urls] + [] == [urls] && [("w1", w)] + [] == [("w1", w)];
    assert TabUrls([t]) == Ok(urls);
    assert TagWindows([w]) == Ok([("w1", w)]);
    assert SortByKey([("w1", w)]) == [("w1", w)];
    assert Runs([("w1", w)]) == [("w1", [w])];
    assert WindowsUrls([w]) == Ok([urls]);
    assert DecimalString(0) == "0";
    assert Enumerate([urls]) == [("0", urls)];
    assert [("w1", [w])][1..] == [];
    assert [("w1", [("0", urls)])] + [] == [("w1", [("0", urls)])];
    assert NumberRuns([("w1", [w])]) == Ok([("w1", [("0", urls)])]);
  }

  const TabA := Tab(1, ["http://x.com"])
  const TabB := Tab(0, ["http://y.com", "http://z.com"])
  const TabC := Tab(1, ["http://u.com"])
  const WinA := Window(Some("w2"), [TabA])
  const WinB := Window(Some("w1"), [TabB])
  const WinC := Window(Some("w2"), [TabC, TabC])

  lemma TagThree()
    ensures TagWindows([WinA, WinB, WinC]) == Ok([("w2", WinA), ("w1", WinB), ("w2", WinC)])
  {
    var a, b, c := WinA, WinB, WinC;
    assert [c][1..] == [] && [b, c][1..] == [c] && [a, b, c][1..] == [b, c];
    assert [("w2", c)] + [] == [("w2", c)];
    assert [("w1", b)] + [("w2", c)] == [("w1", b), ("w2", c)];
    assert [("w2", a)] + [("w1", b), ("w2", c)] == [("w2", a), ("w1", b), ("w2", c)];
    assert TagWindows([c]) == Ok([("w2", c)]);
    assert TagWindows([b, c]) == Ok([("w1", b), ("w2", c)]);
  }

  lemma SortLastTwo()
    ensures SortByKey([("w1", WinB), ("w2", WinC)]) == [("w1", WinB), ("w2", WinC)]
  {
    var b, c := WinB, WinC;
    assert !Less("w2", "w1");
    var s2 := [("w1", b), ("w2", c)];
    assert s2[1..] == [("w2", c)] && s2[1..][1..] == [];
    assert SortByKey([("w2", c)]) == [("w2", c)];
    assert Insert(("w1", b), [("w2", c)]) == [("w1", b), ("w2", c)];
  }

  lemma SortThree()
    ensures SortByKey([("w2", WinA), ("w1", WinB), ("w2", WinC)]) == [("w1", WinB), ("w2", WinA), ("w2", WinC)]
  {
    var a, b, c := WinA, WinB, WinC;
    assert Less("w1", "w2");
    assert !Less("w2", "w2");
    var s3 := [("w2", a), ("w1", b), ("w2", c)];
    assert s3[1..] == [("w1", b), ("w2", c)];
    SortLastTwo();
    var t := [("w1", b), ("w2", c)];
    assert t[1..] == [("w2", c)];
    assert [("w2", a)] + [("w2", c)] == [("w2", a), ("w2", c)];
    assert Insert(("w2", a), [("w2", c)]) == [("w2", a), ("w2", c)];
    assert [("w1", b)] + [("w2", a), ("w2", c)] == [("w1", b), ("w2", a), ("w2", c)];
    assert Insert(("w2", a), t) == [("w1", b), ("w2", a), ("w2", c)];
  }

  lemma RunsThree()
    ensures Runs([("w1", WinB), ("w2", WinA), ("w2", WinC)]) == [("w1", [WinB]), ("w2", [WinA, WinC])]
  {
    var a, b, c := WinA, WinB, WinC;
    var sorted := [("w1", b), ("w2", a), ("w2", c)];
    assert sorted[1..] == [("w2", a), ("w2", c)] && sorted[1..][1..] == [("w2", c)];
    assert Runs([("w2", c)]) == [("w2", [c])];
    assert [a] + [c] == [a, c];
    assert Runs([("w2", a), ("w2", c)]) == [("w2", [a, c])];
  }

  lemma NumberThree()
    ensures NumberRuns([("w1", [WinB]), ("w2", [WinA, WinC])]) == Ok([
        ("w1", [("0", ["http://z.com"])]),
        ("w2", [("0", ["http://x.com"]), ("1", ["http://u.com", "http://u.com"])])
      ])
  {
    var a, b, c := WinA, WinB, WinC;
    var ua, ub, uc := ["http://x.com"], ["http://z.com"], ["http://u.com", "http://u.com"];
    assert [TabA][1..] == [] && [TabB][1..] == [] && [TabC, TabC][1..] == [TabC] && [TabC][1..] == [];
    assert ua + [] == ua && ub + [] == ub && ["http://u.com"] + [] == ["http://u.com"];
    assert ["http://u.com"] + ["http://u.com"] == uc;
    assert TabUrls([TabA]) == Ok(ua);
    assert TabUrls([TabB]) == Ok(ub);
    assert TabUrls([TabC]) == Ok(["http://u.com"]);
    assert TabUrls([TabC, TabC]) == Ok(uc);
    assert [b][1..] == [] && [c][1..] == [] && [a, c][1..] == [c];
    assert [ub] + [] == [ub] && [uc] + [] == [uc] && [ua] + [uc] == [ua, uc];
    assert WindowsUrls([b]) == Ok([ub]);
    assert WindowsUrls([c]) == Ok([uc]);
    assert WindowsUrls([a, c]) == Ok([ua, uc]);
    assert DecimalString(0) == "0" && DecimalString(1) == "1";
    assert Enumerate([ub]) == [("0", ub)];
    assert Enumerate([ua, uc]) == [("0", ua), ("1", uc)];
    var runs := [("w1", [b]), ("w2", [a, c])];
    var g2 := ("w2", [("0", ua), ("1", uc)]);
    var g1 := ("w1", [("0", ub)]);
    assert runs[1..] == [("w2", [a, c])] && runs[1..][1..] == [];
    assert [g2] + [] == [g2] && [g1] + [g2] == [g1, g2];
    assert NumberRuns([("w2", [a, c])]) == Ok([g2]);
  }

  /** Windows are ordered by workspace ID, and windows sharing an ID keep
      their session order when numbered; index 0 wraps to the last entry;
      a URL open in two tabs is listed twice. */
  lemma GroupSortsAndKeepsOrder()
    ensures GroupUrls([WinA, WinB, WinC]) == Ok([
        ("w1", [("0", ["http://z.com"])]),
        ("w2", [("0", ["http://x.com"]), ("1", ["http://u.com", "http://u.com"])])
      ])
  {
    TagThree();
    SortThree();
    RunsThree();
    NumberThree();
  }

  /** A window without a workspace ID fails the whole grouping. */
  lemma GroupMissingWorkspaceId()
    ensures GroupUrls([
        Window(Some("w1"), [Tab(1, ["http://a.com"])]),
        Window(None, [])
      ]) == Err(KeyError("workspaceID"))
  {
    GroupUrlsFailures([Window(Some("w1"), [Tab(1, ["http://a.com"])]), Window(None, [])]);
  }

  /** An index past the end of a tab's history raises IndexError. */
  lemma GroupIndexPastEnd()
    ensures GroupUrls([Window(Some("w1"), [Tab(3, ["http://a.com", "http://b.com"])])]) == Err(IndexError)
  {
    var session := [Window(Some("w1"), [Tab(3, ["http://a.com", "http://b.com"])])];
    GroupUrlsFailures(session);
    assert !IndexInRange(session[0].tabs[0]);
  }

  /** Asking only for window "1" with no workspace filter: the code as written
      drops workspace "w1" (its ID is not "0" or "1"); the documented
      behaviour keeps it with its window "1". */
  lemma SelectWindowOnly()
    ensures var m: WorkspaceUrls := [("w1", [("0", ["http://x.com"]), ("1", ["http://y.com"])])];
      && SelectUrls(m, [], ["1"]) == []
      && SelectUrlsIntended(m, [], ["1"]) == [("w1", [("1", ["http://y.com"])])]
  {
    var windows: WindowUrls := [("0", ["http://x.com"]), ("1", ["http://y.com"])];
    assert Keys(windows) == ["0", "1"];
    assert windows[1..] == [("1", ["http://y.com"])] && windows[1..][1..] == [];
    assert SelectWindows(windows, ["1"]) == [("1", ["http://y.com"])];
  }
}
