# ftl: workspace and window URL selection, modelled in Dafny

`ftl` reads a Firefox session-recovery file and lists the current URL of every open tab. The URLs are grouped by workspace and by window. Callers can narrow the listing to some workspaces and some windows.

This project models the pure core of `ftl.py`:

- **`get_window_workspace_id`**: a window's `workspaceID`. A missing key raises `KeyError` (`Session.WindowWorkspaceId`).
- **`get_window_tab_urls`**: one URL per tab, `entries[int(index) - 1]`. Python list indexing applies: an index of 0 or below counts from the end, and anything outside `-len <= i < len` raises `IndexError` (`Session.WindowTabUrls`, built from `Session.PyIndex`, `Session.CurrentUrl` and `Session.TabUrls`).
- **`get_urls_by_window_by_workspace`** (`Grouping.GroupUrls`): three steps.
  - Sort the session's windows by workspace ID with Python's stable `sorted`. This is modelled by insertion sort on (key, window) pairs, `StableSort.SortByKey`. `StableSort.SortByKeyUnique` shows that any sorted rearrangement that keeps each key's order is that one.
  - Split the sorted list into maximal runs of equal ID with `itertools.groupby` (`GroupBy.Runs`). `GroupBy.RunPartitionUnique` shows that the maximal-run partition is unique.
  - Number each run's windows `"0"`, `"1"`, … with `str(index)` over `enumerate` (`Grouping.Enumerate`, `Strings.DecimalString`).
- **`select_urls`**: keeps the requested workspaces and windows (`Selection.SelectUrls`, with the workspace test `Selection.WorkspaceSelected` and the window filter `Selection.SelectWindows`). An empty filter falls back to a dictionary's own keys.

Python dictionaries become association lists `seq<(string, V)>` in insertion order, which is also the order `json.dumps` writes them. Python exceptions become the `Err` side of a `Result`. Strings compare as Python `str` does, code point by code point, with a proper prefix first (`Strings.Less`).

The model follows the code where the code and the docstrings disagree:

- **Tab index 0** (and any index down to `1 - len(entries)`) is not rejected. `entries[index - 1]` wraps to an entry counted from the end.
- **A window without `workspaceID`** is not put in a default workspace. It makes the whole grouping raise `KeyError`. This happens before any tab is looked at, because `sorted` evaluates every key first.
- **`select_urls` with an empty workspace filter** tests each workspace ID against that workspace's own window keys. It does not select every workspace as the docstring says (see Findings).

## Model

| member | source | states |
|---|---|---|
| Session.WindowWorkspaceId | ftl.py:34-40 | succeeds exactly when the window has a `workspaceID` and returns it; otherwise the error is `KeyError("workspaceID")` |
| Session.PyIndex | ftl.py:64 | Python list indexing: succeeds exactly when `-len <= i < len`, returning `s[i mod len]`; otherwise `IndexError` |
| Session.CurrentUrl | ftl.py:64 | a tab's current URL: succeeds exactly when `1 - len <= index <= len`; the URL is one of the tab's history entries; for `1 <= index <= len` it is entry `index - 1`; for index 0 it is the last entry; for non-positive indices it counts from the end; otherwise `IndexError` |
| Session.WindowTabUrls | ftl.py:51-66 | `get_window_tab_urls`: one URL per tab of the window, in tab order, each the tab's current URL; succeeds exactly when every tab's index is in range, else `IndexError` |
| Session.TabUrls | ftl.py:51-66 | one URL per tab in tab order, each the tab's current URL; succeeds exactly when every tab's index is in range, else `IndexError` |
| Strings.Less | ftl.py:83 | Python's `<` on `str`, which `sorted` compares keys with: `a < b` exactly when there is a position where the two agree on everything before it and either `a` ends there while `b` goes on, or both go on and `a`'s code point there is smaller |
| Strings.LessTotal | ftl.py:83 | string order is total: for distinct strings one is less than the other |
| Strings.LessTransitive | ftl.py:83 | string order is transitive |
| Strings.LessIrreflexive | ftl.py:83 | no string is less than itself |
| Strings.LessAsymmetric | ftl.py:83 | if `a < b` then neither `b < a` nor `a == b` |
| Strings.DecimalString | ftl.py:79 | `str(n)` for a natural number: non-empty, only decimal digits, no leading zero unless it is `"0"` |
| Strings.ParseDecimalString | ftl.py:79 | reading back `str(n)` as a decimal gives `n` (round trip) |
| Strings.DecimalStringInjective | ftl.py:79-80 | distinct window positions get distinct keys |
| StableSort.SortByKey | ftl.py:83 | the sort result is a permutation of its input (same length, same multiset) |
| StableSort.SortByKeySorted | ftl.py:83 | the sort result's keys never decrease |
| StableSort.SortByKeyStable | ftl.py:83 | stability: for every key, the entries with that key appear in their input order |
| StableSort.SortByKeyUnique | ftl.py:83 | any sorted sequence holding, for every key, the input's entries with that key in input order equals the sort result |
| GroupBy.Runs | ftl.py:82-85 | runs are non-empty, adjacent runs have different keys, there are no more runs than items, and the first run has the first item's key |
| GroupBy.UngroupRuns | ftl.py:82-85 | concatenating the runs, each item paired with its run's key, gives back the input |
| GroupBy.RunsPartition | ftl.py:82-85 | `Runs(s)` partitions `s` into maximal runs |
| GroupBy.RunPartitionUnique | ftl.py:82-85 | every partition of `s` into maximal runs is `Runs(s)` |
| GroupBy.RunsAscending | ftl.py:82-85 | over a sorted input the run keys strictly increase, so no key has two runs |
| GroupBy.RunHoldsKey | ftl.py:82-85 | when run keys are distinct, a run holds exactly the items with its key, in order |
| GroupBy.UngroupLength | ftl.py:82-85 | the runs hold as many items as the input |
| Grouping.TagWindows | ftl.py:83 | key evaluation of the sort: succeeds exactly when every window has a workspace ID, pairing each window with it in order; otherwise `KeyError("workspaceID")` |
| Grouping.WindowsUrls | ftl.py:79-80 | the URL lists of a run's windows in order; succeeds exactly when each window's lookup does, else `IndexError` |
| Grouping.Enumerate | ftl.py:79-80 | window `i` of a workspace is keyed `str(i)` and holds the `i`-th URL list |
| Grouping.EnumerateKeys | ftl.py:79-80 | window keys are distinct and each parses back to its window's position |
| Grouping.NumberRuns | ftl.py:77-86 | one workspace entry per run, keyed by the run's ID and holding its enumerated window URLs; `IndexError` when any window fails |
| Grouping.WindowsIn | ftl.py:82-85 | reference definition: the windows with a given workspace ID, in session order, and all of them |
| Grouping.WindowsInCounts | ftl.py:82-85 | the reference filter neither drops nor repeats a window: each window with the ID occurs as often as in the session, and no other window occurs |
| Grouping.RunsOfSession | ftl.py:82-85 | after sorting and grouping, each run holds exactly the windows of its workspace in session order; keys ascend; a key has a run exactly when some window has it; the runs hold all windows |
| Grouping.GroupUrls | ftl.py:69-86 | `get_urls_by_window_by_workspace`: a window without a workspace ID gives `KeyError("workspaceID")`; the only errors are that `KeyError` and `IndexError`; there are never more workspaces than windows. The rows for GroupUrlsFailures, GroupUrlsKeys, GroupUrlsWindows and GroupUrlsWindowCount state the rest of its behaviour |
| Grouping.GroupUrlsFailures | ftl.py:69-86 | an empty session gives an empty map; a window without a workspace ID gives `KeyError("workspaceID")`; otherwise the call succeeds exactly when every tab index is in range, and fails with `IndexError` when not |
| Grouping.GroupUrlsKeys | ftl.py:77-86 | workspace keys strictly ascend, are distinct, and are exactly the workspace IDs that occur in the session |
| Grouping.GroupUrlsWindows | ftl.py:77-86 | a workspace has as many windows as the session has windows with its ID; window `j` is keyed `str(j)` and holds the URLs of the `j`-th such window in session order |
| Grouping.GroupUrlsWindowCount | ftl.py:77-86 | no window is lost or duplicated: the total window count equals the session's window count |
| Scenarios.GroupOneTab | ftl.py:69-86 | a one-window, one-tab session with index 2 groups to `{"w1": {"0": [second URL]}}` |
| Scenarios.GroupSortsAndKeepsOrder | ftl.py:69-86 | three windows in workspaces w2, w1, w2: w1 comes first; w2's windows are numbered in session order; index 0 picks the last entry; a URL open twice is listed twice |
| Scenarios.GroupMissingWorkspaceId | ftl.py:83 | a session with one window lacking `workspaceID` raises `KeyError("workspaceID")` |
| Scenarios.GroupIndexPastEnd | ftl.py:64 | index 3 on a two-entry history raises `IndexError` |
| Selection.KeepKeys | ftl.py:108-112 | the result is an in-order subsequence of the input; for every key it holds all of the input's entries with that key if the key is allowed, and none otherwise; everything is kept when every key is allowed |
| Selection.SelectWindows | ftl.py:108-112 | the window filter only removes entries and keeps order; an empty filter keeps every window; a non-empty one keeps exactly the listed windows with their URLs unchanged: for every key, all the input's entries with that key if it is listed, none otherwise |
| Selection.SelectWindowsIdempotent | ftl.py:108-112 | applying the same window filter twice equals applying it once |
| Selection.WorkspaceSelected | ftl.py:114 | the workspace test as written: with a non-empty filter, a workspace passes exactly when the filter lists it; with an empty filter, exactly when its ID equals the key of one of its own windows |
| Selection.SelectUrls | ftl.py:107-115 | the selection keeps a subsequence of the workspace keys, in order, and adds none |
| Selection.SelectUrlsWorkspaces | ftl.py:107-115 | with distinct input keys the result keys are distinct; with a non-empty workspace filter a workspace is kept exactly when listed; with an empty one, exactly when its ID is one of its own window keys; every kept workspace holds its windows passed through the window filter |
| Selection.SelectUrlsIdempotent | ftl.py:107-115 | with a non-empty workspace filter, selecting twice equals selecting once |
| Selection.SelectUrlsDropsUnfiltered | ftl.py:114 | a workspace whose ID is not one of its own window keys is dropped by a selection with no filters, so that selection is not the identity |
| Selection.SelectUrlsNotIdempotent | ftl.py:111-114 | with an empty workspace filter and window filter `("1",)`, `{"0": {"0": …, "1": …}}` selects to `{"0": {"1": …}}`, and selecting again gives `{}` |
| Scenarios.SelectWindowOnly | ftl.py:99-114 | window filter `("1",)` without a workspace filter drops workspace `w1` entirely as written; the documented behaviour keeps `w1` with its window `"1"` |
| Selection.SelectUrlsIntended | ftl.py:99-102 | corrected selection (an empty workspace filter selects all workspaces): the result keys are a subsequence of the input keys |
| Selection.SelectUrlsIntendedWorkspaces | ftl.py:99-102 | corrected selection: a workspace is kept exactly when the filter is empty or lists it, with its windows passed through the window filter; keys stay distinct |
| Selection.SelectUrlsIntendedNoFilter | ftl.py:99-102 | corrected selection with no filters returns its input unchanged |
| Selection.SelectUrlsIntendedIdempotent | ftl.py:99-102 | corrected selection is idempotent for every pair of filters |
| Selection.SelectUrlsIntendedAgrees | ftl.py:107-115 | the correction coincides with the code whenever the workspace filter is non-empty |

## Left out

- `get_session_data` (file I/O, the 8-byte header, lz4 block decompression, JSON parsing) is not part of this model. The model starts from the decoded session: a sequence of `Window` values.
- `search_for_session_dir`, `to_pathlib_callback` and the `click` command (directory scanning by modification time, path conversion, option parsing, `json.dumps` output) are I/O and command-line glue, so they are not modelled.
- `int(tab["index"])` is not modelled: a tab's index is held as the already-parsed integer. A `ValueError` from a non-numeric index is not represented.
- Missing `"windows"`, `"tabs"`, `"entries"`, `"index"` or `"url"` keys are not represented: every `Window` and `Tab` has its fields. Only the `workspaceID` key can be absent.
- Non-string `workspaceID` values are not represented: workspace IDs are strings here. In the source, mixing them with strings (or two `null`s) makes `sorted` raise `TypeError`, while IDs that are all numbers sort numerically and give non-string keys.
- Strings.Less: Dafny characters are Unicode scalar values, so Python strings holding lone surrogate code points are not representable.
- GroupBy.Runs is written as a right fold rather than as `groupby`'s left-to-right scan. `GroupBy.RunPartitionUnique` shows that any partition into maximal runs equals it, so the result is the same.
- StableSort.SortByKey is an insertion sort, not Python's Timsort. `StableSort.SortByKeyUnique` shows that any stable sort yields the same sequence.
- `workspace_ids` and `window_ids` are tuples in the source and sequences here. Only membership (`in`) and emptiness are used, and both agree.

## Findings

| source | as written | input that shows it | evidently intended | confidence | as-written member | corrected member |
|---|---|---|---|---|---|---|
| ftl.py:114 | `workspace_id in (workspace_ids or windows.keys())`: with no workspace filter, each workspace ID is tested against that workspace's own window keys (`"0"`, `"1"`, …) | `select_urls({"w1": {"0": ["http://a.com"]}}, (), ())` returns `{}`; with `window_ids=("1",)`, workspace `"0"` holding windows `"0"` and `"1"` survives one selection but not a second | the docstring at ftl.py:99-100: with no workspace IDs, all workspaces are selected | high (not executed) | Selection.SelectUrlsDropsUnfiltered | Selection.SelectUrlsIntendedNoFilter |
