# niri-wselector engine, modelled in Dafny

niri-wselector is a window and workspace picker for the niri compositor. It
reads niri's window and workspace lists and filters the windows by
user-given rules. It ranks the entries, renders one label per entry for a
dmenu-style picker (fuzzel), and turns the picked index into `niri msg
action` commands. This project models that engine, all of it in
`niri_wselector/__main__.py`:

- **Rule matchers and the filter** (`Matchers`): `DictKeyMatcher` is
  `Equals(key, value)` and `DictKeyAnyMatcher` is `OneOf(key, values)`.
  `filter_by_dict` is `FilterBy`. A record is a `map<string, Value>`. A
  missing field reads as `Null`, as `dict.get` returns `None`. Value
  comparison is Python's `==`, so `True == 1` (`Values.PyEq`).
- **The snapshot** (`Niri`): the `Window` and `Workspace` records, and the
  views `NiriState` derives from them. These are the focused window and the
  focused workspace (the first match, like `next(...)`), the active
  workspaces, and the focused output. The id maps built by dict
  comprehension are `WorkspaceById` and `WindowById`; the last record with
  an id wins.
- **Sort keys** (`Ranking`): a key tuple is a sequence of parts, compared
  lexicographically like Python tuples. The sort is an insertion sort on
  (record, key) pairs. It is proved to return a sorted rearrangement of
  its input, and to be the only such arrangement when keys identify
  entries.
- **The window picker** (`WindowSession`, class `WindowHandler`): the
  candidates, the key `(workspace_prio, window_prio, output_prio, output,
  idx, id)`, the `multiple_workspaces` and `multiple_outputs` flags, the
  labels, the pre-selected label, and `select`.
- **The workspace picker** (`WorkspaceSession`, class `WorkspaceHandler`):
  the key `(focus_prio, output_prio, output, idx)`, the `multiple_outputs`
  flag, the labels with the active window's title, the pre-selected label,
  and `select`.
- **The window options of `main`** (`Selector`): how `--app-id`,
  `--window-matching` and `--workspace` become the window rule list, or
  one of the three refusals that end the program with status 1. This is a
  pure function, `WindowFilters`. The method `AssembleWindowFilters`
  appends step by step as `main` does and is proved equal to it.
- **Commands as values** (`Actions`): `select` returns the actions
  `FocusWindow(id)`, `FocusMonitor(output)` and `FocusWorkspace(idx)`.
  Each action gives the command line it stands for (`Argv`). Python's
  negative list indices are modelled by `PyIndex`.
- **Worked examples** (`Scenarios`): small concrete snapshots run through
  the general definitions.

The window picker's priorities `MIN`, `MIN + 1` and `0` are sentinels.
They become -2, -1 and 0 for the workspace tier, and -1 and 0 for the
window and output tiers. The workspace picker's `MAX` becomes 1; its other
priorities are already small literals. Only the relative order of these
values affects the sort.

Notes on the code's behaviour:
- `Equals(k, v)` compares `item.get(k)`. A rule whose value is `null`
  therefore accepts records that lack the field.
- The ` / <output>` part of a label and the `focus-monitor` action depend on
  the output being truthy, meaning present and not empty.
- A name shows only when it is not empty (`name or idx`).
- `select` accepts Python's negative indices. Only indices outside
  `-n <= i < n` fail.
- Every refusal exits with the same status 1.

## Model

| member | source | states |
|---|---|---|
| Seqs.First | niri_wselector/__main__.py:81-87 | `next(...)`: absent iff no element satisfies the test; otherwise an element that satisfies it with none before it |
| Seqs.Last | niri_wselector/__main__.py:139 | a dict built by comprehension keeps the last element with a key: absent iff none has it, otherwise one that has it with none after it |
| Seqs.Keep | niri_wselector/__main__.py:89-91 | a list comprehension with a condition: a subsequence holding exactly the elements that pass |
| Seqs.KeepCounts | niri_wselector/__main__.py:89-91 | each element is kept as often as it occurs in the input when it passes the test, and never otherwise |
| Seqs.HasDistinctIff | niri_wselector/__main__.py:168-179 | `len(set(...)) > 1` holds iff two positions hold different values |
| Text.ParseIntToString | niri_wselector/__main__.py:206 | `str(i)` is a decimal numeral that reads back as `i`, for negative `i` too |
| Text.IntToStringInjective | niri_wselector/__main__.py:206 | different integers print differently, so the id on the command line names one window |
| Matchers.FilterBy | niri_wselector/__main__.py:121-130 | `filter_by_dict` keeps a subsequence of its input, holding exactly the records every rule accepts (`AllMatch`, each rule judged by `Matches`: `Equals` compares `item.get(key)` with `==`, `OneOf` tests `in`) |
| Matchers.AllMatchSingle | niri_wselector/__main__.py:121-122 | a list of one rule accepts exactly what that rule accepts |
| Matchers.AllMatchAppend | niri_wselector/__main__.py:121-122 | `all(...)` over two lists of rules joined holds iff it holds over each |
| Matchers.FilterByCounts | niri_wselector/__main__.py:128-130 | each record is kept as often as it occurs in the input if the rules accept it, and never otherwise |
| Matchers.FilterByNoRules | niri_wselector/__main__.py:142-143 | with no rules the filter returns its input unchanged, which is why skipping it for an empty list changes nothing |
| Matchers.FilterByAppend | niri_wselector/__main__.py:128-130 | filtering a concatenation filters each part, keeping the input order |
| Matchers.FilterByRulesAppend | niri_wselector/__main__.py:121-130 | filtering by two rule lists joined is filtering by one and then by the other |
| Matchers.FilterTwice | niri_wselector/__main__.py:128-130 | two filters applied one after the other commute |
| Matchers.FilterByRulesCommute | niri_wselector/__main__.py:121-130 | the order of the rules does not change which records pass |
| Niri.Window.AsRecord | niri_wselector/__main__.py:48-54 | the record a rule sees has the window's declared fields under their JSON names, any other field niri reports, and no field besides |
| Niri.Workspace.AsRecord | niri_wselector/__main__.py:57-64 | the same for workspaces, with no field besides; `name`, `output` and `active_window_id` read as null when absent |
| Niri.UnreportedFieldsReadNull | niri_wselector/__main__.py:108-118 | a field niri did not report reads as null through `.get`, for windows and workspaces alike |
| Niri.Workspace.DisplayName | niri_wselector/__main__.py:197 | `get("name") or str(idx)`: the name when present and not empty, otherwise the decimal index; never empty |
| Niri.FocusedWindowIsFirst | niri_wselector/__main__.py:81-83 | `focused_window` is absent iff no window is focused; otherwise it is the first focused window listed |
| Niri.FocusedWorkspaceIsFirst | niri_wselector/__main__.py:85-87 | `focused_workspace` is absent iff no workspace is focused; otherwise it is the first focused one listed |
| Niri.ActiveWorkspacesAreActive | niri_wselector/__main__.py:89-91 | `active_workspaces` holds exactly the active workspaces, in snapshot order |
| Niri.FocusedOutputOfFocusedWorkspace | niri_wselector/__main__.py:93-96 | the focused output is absent when there is no focused workspace, and otherwise is exactly that workspace's `output` |
| Niri.WorkspaceByIdIsLast | niri_wselector/__main__.py:139 | `workspace_id_map[id]` exists iff some workspace has that id; it is the last one listed with it |
| Niri.WorkspaceByIdFinds | niri_wselector/__main__.py:139 | the id of every listed workspace is found in the map |
| Niri.WindowByIdIsLast | niri_wselector/__main__.py:213 | `window_id_map[id]` exists iff some window has that id; it is the last one listed with it |
| Ranking.StrLessStrictTotalOrder | niri_wselector/__main__.py:165 | Python's `<` on output names is a strict total order |
| Ranking.PartLessStrictTotalOrder | niri_wselector/__main__.py:165 | the order on key parts (numbers, optional output names with absent first) is a strict total order |
| Ranking.KeyLessStrictTotalOrder | niri_wselector/__main__.py:165 | tuple `<` on keys is a strict total order, so sorting by it is well defined |
| Ranking.KeyLeTransitive | niri_wselector/__main__.py:167 | "not greater" on keys is transitive |
| Ranking.KeyLeAntisymmetric | niri_wselector/__main__.py:167 | keys each not greater than the other are equal |
| Ranking.KeyLeSix | niri_wselector/__main__.py:165 | if a six-part key is not greater than another, then each part is not greater than the other's once all earlier parts tie |
| Ranking.KeyLeFour | niri_wselector/__main__.py:227 | the same for the four-part workspace key |
| Ranking.KeyLeCons | niri_wselector/__main__.py:165 | tuples with a first part compare by that part, and by the rest only when the first parts are equal |
| Ranking.KeyLeOfSix | niri_wselector/__main__.py:165 | the converse of `KeyLeSix`: parts ordered that way make the six-part key not greater, so the two state an if-and-only-if |
| Ranking.KeyLeOfFour | niri_wselector/__main__.py:227 | the converse of `KeyLeFour` for the workspace key |
| Ranking.Insert | niri_wselector/__main__.py:167 | inserting adds exactly one entry to the multiset of entries |
| Ranking.InsertSorted | niri_wselector/__main__.py:167 | inserting into a sorted list keeps it sorted |
| Ranking.SortByKey | niri_wselector/__main__.py:167 | `sorted(..., key=...)` returns a rearrangement of its input in ascending key order |
| Ranking.ItemsPermutation | niri_wselector/__main__.py:167 | rearranging ranked entries rearranges their records the same way |
| Ranking.KeyedCount | niri_wselector/__main__.py:146-167 | pairing each record with its key makes an entry occur as often as its record when it carries that record's key, and never otherwise |
| Ranking.SortedUnique | niri_wselector/__main__.py:167 | when equal keys mean equal entries, two sorted rearrangements of the same entries are equal, so the sorted order is determined |
| Actions.Action.Argv | niri_wselector/__main__.py:207 | every action is a `niri msg action ...` command line |
| Actions.ArgvNamesTarget | niri_wselector/__main__.py:204-207 | the command line names the action's target: `focus-window --id <id>`, `focus-monitor <output>`, `focus-workspace <idx>`, the numbers reading back as the id and the index |
| Actions.PyIndex | niri_wselector/__main__.py:205 | `list[i]` reads position `i` modulo `n`: position `i`, or `n + i` for `-n <= i < 0`; it fails exactly outside `-n <= i < n` |
| WindowSession.Candidates | niri_wselector/__main__.py:140-143 | the windows offered are a subsequence of the snapshot's, holding exactly those all rules accept (`AllMatch`); with no rules they are the snapshot's list itself |
| WindowSession.CandidatesCounts | niri_wselector/__main__.py:140-143 | each window is offered as often as niri lists it when the rules accept it, and never otherwise |
| WindowSession.RankWindows | niri_wselector/__main__.py:146-165 | each window is paired with `sort_key` (`SortKey`), computed on the workspace its id names |
| WindowSession.RankWindowsCount | niri_wselector/__main__.py:146-167 | a ranked entry occurs as often as its window if it carries that window's `SortKey`, and never otherwise |
| WindowSession.RankWindowsPermutation | niri_wselector/__main__.py:146-167 | ranking two rearrangements of the same windows gives rearrangements of the same entries |
| WindowSession.SortedEntriesKeyed | niri_wselector/__main__.py:146-167 | every sorted entry carries its own window's key |
| WindowSession.SessionWindows | niri_wselector/__main__.py:167 | `self.windows` is a rearrangement of the candidates, each with a known workspace |
| WindowSession.SessionWindowsOrdered | niri_wselector/__main__.py:146-167 | `self.windows` is in ascending `sort_key` order |
| WindowSession.MultipleWorkspacesIff | niri_wselector/__main__.py:168-170 | `multiple_workspaces` holds iff two listed windows have different workspace ids |
| WindowSession.MultipleOutputsIff | niri_wselector/__main__.py:171-179 | `multiple_outputs` holds iff two listed windows' workspaces have different outputs, an absent output counting as a value |
| WindowSession.WorkspaceTag | niri_wselector/__main__.py:197-199 | the tag is the workspace's name or index, followed by ` / <output>` iff outputs are ambiguous and this one is truthy |
| WindowSession.WindowLabel | niri_wselector/__main__.py:189-202 | the label starts with the focus mark and the title; it is longer iff workspaces are ambiguous and the workspace is known, and then ends with ` (@<tag>)` |
| WindowSession.WindowSelection | niri_wselector/__main__.py:204-207 | `select(i)` focuses the id of the window at Python index `i`, and fails exactly outside `-n <= i < n` |
| WindowSession.WindowKeyLe | niri_wselector/__main__.py:146-165 | ordered window keys: workspace tier first, then window tier, output tier, output, index and id, each deciding only on a tie before it |
| WindowSession.WindowOrder | niri_wselector/__main__.py:146-167 | windows of the focused workspace come first, then those of active ones. Within a tier the focused window is first with `select_focused` and last without it. Then the focused output first, then by output, workspace index and window id |
| WindowSession.FocusedWindowLeads | niri_wselector/__main__.py:150-157 | with `select_focused`, a focused window on the focused workspace has only such windows before it |
| WindowSession.SelectedIsFirstEntry | niri_wselector/__main__.py:183-187 | with `select_focused`, when the single focused window passed the rules and sits on the focused workspace, the pre-selected label is the first entry |
| WindowSession.SelectedIsAnEntry | niri_wselector/__main__.py:182-187 | with `select_focused`, when the focused window passed the rules, the pre-selected label is one of `dmenu_entries` |
| WindowSession.SelectReachesEveryCandidate | niri_wselector/__main__.py:204-207 | every candidate is listed, and selecting its position focuses exactly its id |
| WindowSession.TaggedWhenWorkspacesDiffer | niri_wselector/__main__.py:194-200 | once two listed windows differ in workspace, every label ends with its workspace tag |
| WindowSession.UntaggedWhenOneWorkspace | niri_wselector/__main__.py:168-202 | when all candidates share one workspace, each entry is just the focus mark and the title |
| WindowSession.OutputShownWhenOutputsDiffer | niri_wselector/__main__.py:171-200 | once listed windows differ in workspace and output, a window whose workspace has an output shows ` / <output>` inside its tag |
| WindowSession.LabelWithOutput | niri_wselector/__main__.py:197-200 | with both flags and a truthy output, the tag is `<name or idx> / <output>` |
| WindowSession.CandidatesPermutation | niri_wselector/__main__.py:140-143 | niri listing the same windows in another order offers the same candidates in another order |
| WindowSession.SameWorkspacesSameKey | niri_wselector/__main__.py:146-165 | `sort_key` of a window depends only on the window and the workspace list |
| WindowSession.SameWorkspacesSameRanking | niri_wselector/__main__.py:146-165 | two snapshots with the same workspaces rank any windows alike |
| WindowSession.KeyNamesWindow | niri_wselector/__main__.py:165 | equal window keys mean equal window ids, as the id is the last key part |
| WindowSession.SortedWindowsKeysIdentify | niri_wselector/__main__.py:146-167 | with unique window ids, two sorted entries with the same key are the same entry |
| WindowSession.WindowOrderIndependentOfListing | niri_wselector/__main__.py:140-167 | with unique window ids, `self.windows` does not depend on the order niri lists the windows in |
| WindowSession.WindowHandler.constructor | niri_wselector/__main__.py:137-187 | the handler holds the ranked windows, both flags, the prompt `Window`, the labels and the pre-selected label |
| WindowSession.WindowHandler.Select | niri_wselector/__main__.py:204-207 | the result is one `FocusWindow` with the id of the window at the Python index, or an error outside the range |
| WorkspaceSession.RankWorkspaces | niri_wselector/__main__.py:217-227 | the ranked entries hold the workspaces in order, the entry at each position carrying that workspace's `sort_key` (`WorkspaceKey`) |
| WorkspaceSession.RankWorkspacesCount | niri_wselector/__main__.py:217-229 | a ranked entry occurs as often as its workspace if it carries that workspace's key, and never otherwise |
| WorkspaceSession.RankWorkspacesPermutation | niri_wselector/__main__.py:217-229 | ranking two rearrangements of the same workspaces gives rearrangements of the same entries |
| WorkspaceSession.SessionWorkspaces | niri_wselector/__main__.py:229 | `self.workspaces` is a rearrangement of the snapshot's workspaces |
| WorkspaceSession.SessionWorkspacesOrdered | niri_wselector/__main__.py:217-229 | `self.workspaces` is in ascending `sort_key` order |
| WorkspaceSession.SortedWorkspacesKeyed | niri_wselector/__main__.py:217-229 | every sorted entry carries its own workspace's key and comes from the snapshot |
| WorkspaceSession.MultipleOutputsIff | niri_wselector/__main__.py:230 | `multiple_outputs` holds iff two listed workspaces have different outputs, an absent output counting as a value |
| WorkspaceSession.ActiveTitle | niri_wselector/__main__.py:249-252 | `(empty)` when `active_window_id` is null or no window has that id; otherwise the title of the last window listed with the id, as the dict comprehension keeps |
| WorkspaceSession.WorkspaceLabel | niri_wselector/__main__.py:240-254 | the label starts with the focus mark, `@` and the name or index, and always ends with ` -- <title>`; it holds ` / <output>` after the name iff outputs are ambiguous and the output is truthy, and nothing else: its length is the sum of those parts |
| WorkspaceSession.FocusActions | niri_wselector/__main__.py:256-260 | selecting a workspace focuses its output first iff the output is truthy, and always ends by focusing its index |
| WorkspaceSession.WorkspaceSelection | niri_wselector/__main__.py:256-260 | `select(i)` yields the actions for the workspace at Python index `i`, and fails exactly outside `-n <= i < n` |
| WorkspaceSession.WorkspaceKeyLe | niri_wselector/__main__.py:217-227 | ordered workspace keys: focus tier, then output tier, output and index, each deciding only on a tie before it |
| WorkspaceSession.WorkspaceOrder | niri_wselector/__main__.py:217-229 | with `select_focused` the focused workspace comes first and without it last. Active ones come before the rest. Within a tier the focused output comes first, then by output and index |
| WorkspaceSession.FocusPrioOrdered | niri_wselector/__main__.py:218-223 | the focus tier never decreases along the list |
| WorkspaceSession.FocusedSortsToEnd | niri_wselector/__main__.py:218-219 | the only focused workspace is first with `select_focused` and last without it |
| WorkspaceSession.FocusedAtEnd | niri_wselector/__main__.py:218-219 | in a list ordered by focus tier, the only focused workspace sits at the end its tier puts it |
| WorkspaceSession.SelectedIsFirstEntry | niri_wselector/__main__.py:234-238 | with `select_focused` and a single focused workspace, the pre-selected label is the first entry |
| WorkspaceSession.SelectedIsAnEntry | niri_wselector/__main__.py:233-238 | with `select_focused` and a focused workspace, the pre-selected label is one of `dmenu_entries` |
| WorkspaceSession.FocusedIsLastEntry | niri_wselector/__main__.py:218-219 | without `select_focused`, a single focused workspace is listed last |
| WorkspaceSession.SelectReachesEveryWorkspace | niri_wselector/__main__.py:256-260 | every workspace is listed, and selecting its position yields its own focus actions |
| WorkspaceSession.OutputShownWhenOutputsDiffer | niri_wselector/__main__.py:230-252 | once two listed workspaces differ in output, a workspace with a truthy output shows it in its label |
| WorkspaceSession.OutputHiddenWhenOneOutput | niri_wselector/__main__.py:230-252 | when all workspaces share one output value, no label shows an output |
| WorkspaceSession.FocusedWorkspaceOfPermutation | niri_wselector/__main__.py:85-87 | with one focused workspace, the focused workspace does not depend on listing order |
| WorkspaceSession.OrderIndependentOfListing | niri_wselector/__main__.py:217-229 | when output and index identify a workspace and one is focused, the sorted list does not depend on the order niri lists them in |
| WorkspaceSession.KeyNamesWorkspace | niri_wselector/__main__.py:227 | equal keys mean equal outputs and indices |
| WorkspaceSession.WorkspaceHandler.constructor | niri_wselector/__main__.py:211-238 | the handler holds the ranked workspaces, the flag, the prompt `Workspace`, the labels and the pre-selected label |
| WorkspaceSession.WorkspaceHandler.Select | niri_wselector/__main__.py:256-260 | for the workspace at the Python index, the actions are `FocusMonitor` if the output is truthy, then `FocusWorkspace`; outside the range, an error |
| Selector.WorkspaceIds | niri_wselector/__main__.py:362-364 | an id is collected iff some workspace with that id meets the workspace rules, and every collected value is an integer |
| Selector.MatchedIds | niri_wselector/__main__.py:362-364 | the ids of the filtered workspaces are exactly those of the workspaces meeting the rules |
| Selector.EntryMatchersAccept | niri_wselector/__main__.py:337-339 | the rules built from a JSON object accept a record iff each entry's key reads, in the record, a value equal to the entry's |
| Selector.IdValuesHas | niri_wselector/__main__.py:364 | every workspace's id is among the collected values |
| Selector.AssembleWindowFilters | niri_wselector/__main__.py:316-370 | appending the rules step by step gives the same snapshot, rule list or refusal as `WindowFilters` |
| Selector.WorkspaceRuleMatches | niri_wselector/__main__.py:362-370 | the appended `OneOf("workspace_id", ids)` accepts a window iff its workspace id belongs to a workspace meeting the rules |
| Selector.FiltersMeaning | niri_wselector/__main__.py:316-370 | a window passes the assembled rules iff it passes the app-id rule and the `--window-matching` entries, and (with `--workspace`) its workspace meets the workspace rules in the snapshot kept after `--app-id` |
| Selector.NoWorkspaceMatchAborts | niri_wselector/__main__.py:362-368 | the run is refused for no matched workspace iff a `--workspace` rule was given and no workspace meets it |
| Selector.RefusedOptions | niri_wselector/__main__.py:333-360 | an invalid `--window-matching` is refused iff it is not a non-empty object; an invalid `--workspace` iff it is neither an applicable keyword nor a non-empty object |
| Selector.WorkspaceKeywords | niri_wselector/__main__.py:347-352 | `@focused` keeps the focused workspaces, `@active` the active ones, and `@output` (when the focused output is truthy) those on the focused output |
| Selector.FocusedAppWithoutFocus | niri_wselector/__main__.py:323-329 | `--app-id @focused` without a focused window empties the snapshot, so nothing is offered, and any `--workspace` rule is then refused |
| Selector.FocusedAppKeepsItsApp | niri_wselector/__main__.py:323-327 | `--app-id @focused` with a focused window offers only windows of the focused window's app |
| Selector.WorkspaceRuleMakesWorkspacesKnown | niri_wselector/__main__.py:362-370 | with a `--workspace` rule every offered window's workspace id names a workspace, so `sort_key` never fails |
| Scenarios.SingleFocusedWindow | niri_wselector/__main__.py:137-202 | one focused window on the focused workspace, with `select_focused`: the only label is `* A` and it is pre-selected |
| Scenarios.TwoOutputsOrder | niri_wselector/__main__.py:146-167 | the window on the focused workspace is listed first, although niri reports it second |
| Scenarios.LeftLabel | niri_wselector/__main__.py:189-202 | the label `A (@1 / DP-1)` |
| Scenarios.RightLabel | niri_wselector/__main__.py:189-202 | the label `B (@1 / HDMI-1)` |
| Scenarios.TwoOutputsFlags | niri_wselector/__main__.py:168-179 | two windows on different workspaces and outputs set both flags |
| Scenarios.TwoOutputsLabels | niri_wselector/__main__.py:168-202 | windows on two outputs get the labels `A (@1 / DP-1)` and `B (@1 / HDMI-1)` |
| Scenarios.UnknownOutputAborts | niri_wselector/__main__.py:353-368 | `--workspace '{"output": "DP-9"}'` without such an output is refused as matching no workspace |
| Scenarios.NoFocusedApp | niri_wselector/__main__.py:323-329 | `--app-id @focused` without a focused window gives the empty snapshot and no labels |

## Left out

- Talking to niri and to the picker: fetching the snapshot (`niri msg --json`) and its cache, running fuzzel, reading the picked index, the exit status 2 mapping, and running the `niri msg action` commands. The snapshot is an input, and `select` returns the actions as values.
- JSON decoding of `--window-matching` and `--workspace`: the decoded argument is an input (`Selector.Decoded`). Rule values are null, booleans, integers and strings; JSON floats, lists and objects as values are not modelled. The same holds for the fields of the window and workspace records: a field niri reports with an object, list or float value can only be left out of `others`, and then reads as null. A rule `{"<that field>": null}` therefore accepts such a record in the model, where Python rejects it because the value is not `None`.
- Argument parsing, `--width`, `--prompt`, and the branch taken without `--windows` or `--workspaces`. argparse makes one of the two flags required.
- The diagnostic texts: a refusal is a `Selector.RuleError` value, and every refusal exits with status 1.
- The exact values of `MIN`, `MAX` and `MIN + 1`. They are small integers in the same order, which gives the same sort.
- Ranking.KeyLess: Python raises `TypeError` when it compares an absent output with a present one, which happens only when all earlier key parts tie. The model fixes an order, with absent before present; the source leaves this case undefined.
- Ranking.SortByKey: stability (equal keys keep input order) is not stated. With unique window ids, and with output and index identifying a workspace, `SortedUnique` shows both pickers' orders are determined anyway (`WindowOrderIndependentOfListing`, `OrderIndependentOfListing`).
- WindowSession.WindowHandler.constructor: requires every candidate's `workspace_id` to name a workspace. The source raises `KeyError` in `sort_key` otherwise; the model states this as a precondition rather than modelling the crash.
- WorkspaceSession.ActiveTitle: a workspace record without the `active_window_id` key (a `KeyError` in the source) is treated like `null`, so it shows `(empty)`.
- Window titles and names are strings of Unicode scalar values, compared code point by code point as Python does; there is no encoding or normalisation.
- WindowSession.SelectedIsFirstEntry: assumes a single focused window. With several, the source pre-selects the first one niri lists, which need not be the first entry.
- WorkspaceSession.SelectedIsFirstEntry: assumes a single focused workspace, for the same reason.
- Selector.Decoded: the entries of a decoded object are assumed to have distinct keys, as those of a decoded JSON object do; with a repeated key the rules would hold one entry per occurrence, where Python keeps the last.
