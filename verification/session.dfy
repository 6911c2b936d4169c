/** The decoded session data the pipeline reads, and the two per-window
    lookups of ftl.py: a window's workspace ID and its tabs' current URLs. */
module Session {
  import opened Wrappers

  /** One tab: its navigation history (the `url` of each entry, oldest
      first) and `index`, the 1-based position of the current entry. */
  datatype Tab = Tab(index: int, entries: seq<string>)

  /** One window: its `workspaceID` (None when the key is absent) and its tabs. */
  datatype Window = Window(workspaceId: Option<string>, tabs: seq<Tab>)

  /** The Python exceptions the pipeline can raise on session data. */
  datatype Error = KeyError(key: string) | IndexError

  /** Window index (a decimal string) to the URLs of the window's tabs. */
  type WindowUrls = seq<(string, seq<string>)>

  /** Workspace ID to that workspace's windows. */
  type WorkspaceUrls = seq<(string, WindowUrls)>

  const WorkspaceIdKey: string := "workspaceID"

  /** Python's `s[i]` on a list: a negative `i` counts from the end, and
      anything outside `-len(s) <= i < len(s)` raises IndexError. */
  function PyIndex<T>(s: seq<T>, i: int): (r: Result<T, Error>)
    ensures r.Ok? <==> -|s| <= i < |s|
    ensures r.Err? ==> r == Err(IndexError)
    ensures r.Ok? ==> r.value == s[i % |s|]
  {
    if 0 <= i < |s| then Ok(s[i])
    else if -|s| <= i < 0 then Ok(s[|s| + i])
    else Err(IndexError)
  }

  /** The indices for which `entries[index - 1]` does not raise. */
  predicate IndexInRange(tab: Tab) {
    1 - |tab.entries| <= tab.index <= |tab.entries|
  }

  /** The current URL of a tab, `entries[int(index) - 1]["url"]`. */
  function CurrentUrl(tab: Tab): (r: Result<string, Error>)
    ensures r.Ok? <==> IndexInRange(tab)
    ensures r.Err? ==> r == Err(IndexError)
    ensures r.Ok? ==> r.value in tab.entries
    ensures 1 <= tab.index <= |tab.entries| ==> r == Ok(tab.entries[tab.index - 1])
    ensures tab.index == 0 && tab.entries != [] ==> r == Ok(tab.entries[|tab.entries| - 1])
    ensures 1 - |tab.entries| <= tab.index <= 0 ==> r == Ok(tab.entries[|tab.entries| + tab.index - 1])
  {
    PyIndex(tab.entries, tab.index - 1)
  }

  /** The list comprehension of get_window_tab_urls over a window's tabs:
      one URL per tab, in tab order, failing on the first bad index. */
  function TabUrls(tabs: seq<Tab>): (r: Result<seq<string>, Error>)
    ensures r.Ok? <==> forall i :: 0 <= i < |tabs| ==> IndexInRange(tabs[i])
    ensures r.Err? ==> r == Err(IndexError)
    ensures r.Ok? ==> |r.value| == |tabs|
    ensures r.Ok? ==> forall i :: 0 <= i < |tabs| ==> CurrentUrl(tabs[i]) == Ok(r.value[i])
  {
    if tabs == [] then Ok([])
    else
      var url :- CurrentUrl(tabs[0]);
      var rest :- TabUrls(tabs[1..]);
      Ok([url] + rest)
  }

  /** get_window_tab_urls: the current URL of each of the window's tabs. */
  function WindowTabUrls(window: Window): (r: Result<seq<string>, Error>)
    ensures r.Ok? <==> forall i :: 0 <= i < |window.tabs| ==> IndexInRange(window.tabs[i])
    ensures r.Err? ==> r == Err(IndexError)
    ensures r.Ok? ==> |r.value| == |window.tabs|
    ensures r.Ok? ==> forall i :: 0 <= i < |window.tabs| ==> CurrentUrl(window.tabs[i]) == Ok(r.value[i])
  {
    TabUrls(window.tabs)
  }

  /** `window["workspaceID"]`: a missing key raises KeyError. */
  function WindowWorkspaceId(window: Window): (r: Result<string, Error>)
    ensures r.Ok? <==> window.workspaceId.Some?
    ensures r.Ok? ==> window.workspaceId == Some(r.value)
    ensures r.Err? ==> r == Err(KeyError(WorkspaceIdKey))
  {
    match window.workspaceId
    case Some(id) => Ok(id)
    case None => Err(KeyError(WorkspaceIdKey))
  }
}
