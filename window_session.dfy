/**
 * The window picker session (`WindowHandler`): filter the snapshot's
 * windows, rank them, render one label per window, pick the label to
 * pre-select, and turn the picked index into a focus action.
 */
module WindowSession {
  import opened Wrappers
  import opened Values
  import opened Seqs
  import opened Matchers
  import opened Niri
  import opened Ranking
  import opened Actions

  /** The windows the session offers: all of them when there are no rules
      (an empty rule list is falsy and skips `filter_by_dict`). */
  function Candidates(niri: NiriState, filters: seq<Matcher>): (r: seq<Window>)
    ensures IsSubsequence(r, niri.windows)
    ensures forall w :: w in r <==> w in niri.windows && AllMatch(filters, w.AsRecord())
    ensures |filters| == 0 ==> r == niri.windows
  {
    if |filters| > 0 then FilterBy(niri.windows, WindowRecord, filters)
    else
      FilterByNoRules(niri.windows, WindowRecord);
      niri.windows
  }

  /** Each window is offered as often as niri lists it when the rules
      accept it, and never otherwise. */
  lemma CandidatesCounts(niri: NiriState, filters: seq<Matcher>, w: Window)
    ensures multiset(Candidates(niri, filters))[w] ==
            if AllMatch(filters, w.AsRecord()) then multiset(niri.windows)[w] else 0
  {
    if |filters| > 0 {
      FilterByCounts(niri.windows, WindowRecord, filters, w);
    }
  }

  /** `sort_key` reads `workspace_id_map[w["workspace_id"]]`, which raises
      unless some workspace has that id. */
  predicate WorkspacesKnown(niri: NiriState, windows: seq<Window>) {
    forall w :: w in windows ==> niri.WorkspaceById(w.workspaceId).Some?
  }

  /** `workspace_prio`: MIN, MIN + 1 and 0 of the source, in the same order. */
  function WorkspacePrio(ws: Workspace): (r: int) {
    if ws.isFocused then -2 else if ws.isActive then -1 else 0
  }

  /** `window_prio`: MIN and 0 of the source, in the same order. With
      `select_focused` the focused window is put ahead, otherwise behind. */
  function WindowPrio(w: Window, selectFocused: bool): (r: int) {
    if selectFocused then (if w.isFocused then -1 else 0)
    else (if w.isFocused then 0 else -1)
  }

  /** The tuple `(workspace_prio, window_prio, output_prio, output, idx, id)`. */
  function WindowKey(niri: NiriState, selectFocused: bool, w: Window, ws: Workspace): (r: Key) {
    [Num(WorkspacePrio(ws)), Num(WindowPrio(w, selectFocused)), Num(OutputPrio(niri.FocusedOutput(), ws.output)),
     Text(ws.output), Num(ws.idx), Num(w.id)]
  }

  /** `sort_key(w)`, with the window's workspace looked up by id. */
  function SortKey(niri: NiriState, selectFocused: bool, w: Window): (r: Key)
    requires niri.WorkspaceById(w.workspaceId).Some?
  {
    WindowKey(niri, selectFocused, w, niri.WorkspaceById(w.workspaceId).value)
  }

  function RankWindows(niri: NiriState, selectFocused: bool, windows: seq<Window>): (r: seq<Ranked<Window>>)
    requires WorkspacesKnown(niri, windows)
    ensures |r| == |windows|
    ensures forall i :: 0 <= i < |r| ==> r[i].item == windows[i] && r[i].key == SortKey(niri, selectFocused, windows[i])
  {
    if windows == [] then []
    else [Ranked(windows[0], SortKey(niri, selectFocused, windows[0]))] + RankWindows(niri, selectFocused, windows[1..])
  }

  /** How often an entry occurs among the ranked windows: as often as its
      window when it carries that window's key, else never. */
  lemma RankWindowsCount(niri: NiriState, sf: bool, windows: seq<Window>, e: Ranked<Window>)
    requires WorkspacesKnown(niri, windows)
    ensures multiset(RankWindows(niri, sf, windows))[e] ==
            if e.item in windows && e.key == SortKey(niri, sf, e.item) then multiset(windows)[e.item] else 0
  {
    var key := (w: Window) requires niri.WorkspaceById(w.workspaceId).Some? => SortKey(niri, sf, w);
    KeyedCount(RankWindows(niri, sf, windows), windows, key, e);
  }

  /** Ranking a rearrangement of the windows ranks a rearrangement of the entries. */
  lemma RankWindowsPermutation(niri: NiriState, sf: bool, a: seq<Window>, b: seq<Window>)
    requires WorkspacesKnown(niri, a) && WorkspacesKnown(niri, b)
    requires multiset(a) == multiset(b)
    ensures multiset(RankWindows(niri, sf, a)) == multiset(RankWindows(niri, sf, b))
  {
    var ma, mb := multiset(RankWindows(niri, sf, a)), multiset(RankWindows(niri, sf, b));
    forall e ensures ma[e] == mb[e] {
      RankWindowsCount(niri, sf, a, e);
      RankWindowsCount(niri, sf, b, e);
    }
    assert ma == mb;
  }

  /** Every ranked entry carries its own record's key. */
  lemma SortedEntriesKeyed(niri: NiriState, selectFocused: bool, windows: seq<Window>, sorted: seq<Ranked<Window>>)
    requires WorkspacesKnown(niri, windows)
    requires multiset(sorted) == multiset(RankWindows(niri, selectFocused, windows))
    ensures forall e :: e in sorted ==> e.item in windows && e.key == SortKey(niri, selectFocused, e.item)
  {
    var ranked := RankWindows(niri, selectFocused, windows);
    forall e | e in sorted ensures e.item in windows && e.key == SortKey(niri, selectFocused, e.item) {
      assert e in multiset(ranked);
      var i :| 0 <= i < |ranked| && ranked[i] == e;
    }
  }

  /** The candidates ranked and sorted by key, before their keys are dropped. */
  function SortedEntries(niri: NiriState, selectFocused: bool, filters: seq<Matcher>): (r: seq<Ranked<Window>>)
    requires WorkspacesKnown(niri, Candidates(niri, filters))
  {
    SortByKey(RankWindows(niri, selectFocused, Candidates(niri, filters)))
  }

  /** `self.windows`: the candidates sorted by `sort_key`; a rearrangement
      of the candidates (the order is stated by `SessionWindowsOrdered`). */
  function SessionWindows(niri: NiriState, selectFocused: bool, filters: seq<Matcher>): (r: seq<Window>)
    requires WorkspacesKnown(niri, Candidates(niri, filters))
    ensures multiset(r) == multiset(Candidates(niri, filters))
    ensures WorkspacesKnown(niri, r)
  {
    var candidates := Candidates(niri, filters);
    var ranked := RankWindows(niri, selectFocused, candidates);
    var sorted := SortedEntries(niri, selectFocused, filters);
    ItemsPermutation(sorted, ranked);
    assert Items(ranked) == candidates;
    var r := Items(sorted);
    forall w | w in r ensures niri.WorkspaceById(w.workspaceId).Some? {
      assert w in multiset(candidates);
    }
    r
  }

  /** The windows are in `sort_key` order. */
  lemma SessionWindowsOrdered(niri: NiriState, selectFocused: bool, filters: seq<Matcher>, i: int, j: int)
    requires WorkspacesKnown(niri, Candidates(niri, filters))
    requires 0 <= i < j < |SessionWindows(niri, selectFocused, filters)|
    ensures var r := SessionWindows(niri, selectFocused, filters);
            KeyLe(SortKey(niri, selectFocused, r[i]), SortKey(niri, selectFocused, r[j]))
  {
    var candidates := Candidates(niri, filters);
    var sorted := SortedEntries(niri, selectFocused, filters);
    SortedEntriesKeyed(niri, selectFocused, candidates, sorted);
    assert sorted[i] in sorted && sorted[j] in sorted;
    assert KeyLe(sorted[i].key, sorted[j].key);
  }

  /** `multiple_workspaces`: the windows span more than one workspace id. */
  function MultipleWorkspaces(windows: seq<Window>): (r: bool) {
    HasDistinct(seq(|windows|, i requires 0 <= i < |windows| => windows[i].workspaceId))
  }

  /** The output of a window's workspace (`.get("output")` of its record). */
  function OutputOf(niri: NiriState, w: Window): (r: Option<string>)
    requires niri.WorkspaceById(w.workspaceId).Some?
  {
    niri.WorkspaceById(w.workspaceId).value.output
  }

  /** `multiple_outputs`: the windows' workspaces span more than one output
      value, an absent output counting as a value of its own. */
  function MultipleOutputs(niri: NiriState, windows: seq<Window>): (r: bool)
    requires WorkspacesKnown(niri, windows)
  {
    HasDistinct(seq(|windows|, i requires 0 <= i < |windows| && windows[i] in windows => OutputOf(niri, windows[i])))
  }

  lemma MultipleWorkspacesIff(windows: seq<Window>)
    ensures MultipleWorkspaces(windows) <==>
            exists i, j :: 0 <= i < |windows| && 0 <= j < |windows| && windows[i].workspaceId != windows[j].workspaceId
  {
    var ids := seq(|windows|, i requires 0 <= i < |windows| => windows[i].workspaceId);
    HasDistinctIff(ids);
    assert forall i :: 0 <= i < |windows| ==> ids[i] == windows[i].workspaceId;
  }

  lemma MultipleOutputsIff(niri: NiriState, windows: seq<Window>)
    requires WorkspacesKnown(niri, windows)
    ensures MultipleOutputs(niri, windows) <==>
            exists i, j :: 0 <= i < |windows| && 0 <= j < |windows| &&
                           OutputOf(niri, windows[i]) != OutputOf(niri, windows[j])
  {
    var outputs := seq(|windows|, i requires 0 <= i < |windows| && windows[i] in windows => OutputOf(niri, windows[i]));
    HasDistinctIff(outputs);
    assert forall i :: 0 <= i < |windows| ==> outputs[i] == OutputOf(niri, windows[i]);
  }

  /** `workspace_name`: the workspace's name or index, then ` / <output>`
      only when outputs are ambiguous and this one is present and not empty. */
  function WorkspaceTag(ws: Workspace, multipleOutputs: bool): (r: string)
    ensures ws.DisplayName() <= r
    ensures |r| > |ws.DisplayName()| <==> multipleOutputs && ws.HasOutput()
    ensures multipleOutputs && ws.HasOutput() ==> r[|ws.DisplayName()|..] == " / " + ws.output.value
  {
    var name := ws.DisplayName();
    if multipleOutputs && ws.HasOutput() then name + " / " + ws.output.value else name
  }

  /** `_entry_to_dmenu`: the title, marked when focused, followed by
      ` (@<workspace tag>)` only when workspaces are ambiguous and the
      window's workspace is known. */
  function WindowLabel(w: Window, ws: Option<Workspace>, multipleWorkspaces: bool, multipleOutputs: bool): (r: string)
    ensures var head := FocusMark(w.isFocused) + w.title;
            && head <= r
            && (|r| > |head| <==> multipleWorkspaces && ws.Some?)
            && (multipleWorkspaces && ws.Some? ==> r[|head|..] == " (@" + WorkspaceTag(ws.value, multipleOutputs) + ")")
  {
    var entry := FocusMark(w.isFocused) + w.title;
    if multipleWorkspaces && ws.Some? then
      var tag := " (@" + WorkspaceTag(ws.value, multipleOutputs) + ")";
      assert (entry + tag)[|entry|..] == tag;
      entry + tag
    else entry
  }

  /** The label of `w` in a session whose windows are `windows`. */
  function EntryLabel(niri: NiriState, windows: seq<Window>, w: Window): (r: string)
    requires WorkspacesKnown(niri, windows)
  {
    WindowLabel(w, niri.WorkspaceById(w.workspaceId), MultipleWorkspaces(windows), MultipleOutputs(niri, windows))
  }

  /** `dmenu_entries`: one label per ranked window, in rank order. */
  function SessionEntries(niri: NiriState, selectFocused: bool, filters: seq<Matcher>): (r: seq<string>)
    requires WorkspacesKnown(niri, Candidates(niri, filters))
    ensures var ws := SessionWindows(niri, selectFocused, filters);
            |r| == |ws| && forall i :: 0 <= i < |r| ==> r[i] == EntryLabel(niri, ws, ws[i])
  {
    var ws := SessionWindows(niri, selectFocused, filters);
    seq(|ws|, i requires 0 <= i < |ws| => EntryLabel(niri, ws, ws[i]))
  }

  /** `dmenu_selected`: the focused window's label when asked for and when
      there is a focused window (which need not have passed the rules). */
  function SessionSelected(niri: NiriState, selectFocused: bool, filters: seq<Matcher>): (r: Option<string>)
    requires WorkspacesKnown(niri, Candidates(niri, filters))
    ensures r.Some? <==> selectFocused && niri.FocusedWindow().Some?
    ensures r.Some? ==> r.value == EntryLabel(niri, SessionWindows(niri, selectFocused, filters), niri.FocusedWindow().value)
  {
    if selectFocused && niri.FocusedWindow().Some? then
      Some(EntryLabel(niri, SessionWindows(niri, selectFocused, filters), niri.FocusedWindow().value))
    else None
  }

  /** `select(idx)`: focus the window at that position of the ranked list. */
  function WindowSelection(windows: seq<Window>, idx: int): (r: Result<seq<Action>, SelectError>)
    ensures r.Ok? <==> -|windows| <= idx < |windows|
    ensures r.Err? ==> r.error == IndexOutOfRange(idx)
    ensures 0 <= idx < |windows| ==> r == Ok([FocusWindow(windows[idx].id)])
    ensures -|windows| <= idx < 0 ==> r == Ok([FocusWindow(windows[|windows| + idx].id)])
  {
    match PyIndex(|windows|, idx)
    case None => Err(IndexOutOfRange(idx))
    case Some(k) => Ok([FocusWindow(windows[k].id)])
  }

  /** The workspace record a known window sorts and renders with. */
  function WorkspaceOf(niri: NiriState, w: Window): (r: Workspace)
    requires niri.WorkspaceById(w.workspaceId).Some?
  {
    niri.WorkspaceById(w.workspaceId).value
  }

  /** Comparing two window keys: each part decides only when all the parts
      before it are equal. */
  lemma WindowKeyLe(niri: NiriState, sf: bool, v: Window, vs: Workspace, w: Window, ws: Workspace)
    requires KeyLe(WindowKey(niri, sf, v, vs), WindowKey(niri, sf, w, ws))
    ensures WorkspacePrio(vs) <= WorkspacePrio(ws)
    ensures WorkspacePrio(vs) == WorkspacePrio(ws) ==> WindowPrio(v, sf) <= WindowPrio(w, sf)
    ensures WorkspacePrio(vs) == WorkspacePrio(ws) && WindowPrio(v, sf) == WindowPrio(w, sf) ==>
              OutputPrio(niri.FocusedOutput(), vs.output) <= OutputPrio(niri.FocusedOutput(), ws.output)
    ensures (WorkspacePrio(vs) == WorkspacePrio(ws) && WindowPrio(v, sf) == WindowPrio(w, sf) &&
             OutputPrio(niri.FocusedOutput(), vs.output) == OutputPrio(niri.FocusedOutput(), ws.output)) ==>
              vs.output == ws.output || OutputLess(vs.output, ws.output)
    ensures (WorkspacePrio(vs) == WorkspacePrio(ws) && WindowPrio(v, sf) == WindowPrio(w, sf) &&
             vs.output == ws.output) ==> vs.idx <= ws.idx
    ensures (WorkspacePrio(vs) == WorkspacePrio(ws) && WindowPrio(v, sf) == WindowPrio(w, sf) &&
             vs.output == ws.output && vs.idx == ws.idx) ==> v.id <= w.id
  {
    KeyLeSix(WorkspacePrio(vs), WindowPrio(v, sf), OutputPrio(niri.FocusedOutput(), vs.output), vs.output, vs.idx, v.id,
             WorkspacePrio(ws), WindowPrio(w, sf), OutputPrio(niri.FocusedOutput(), ws.output), ws.output, ws.idx, w.id);
  }

  /** The order of the window list: windows of the focused workspace, then
      of active ones, then the rest; within one of these groups the focused
      window is first when `select_focused` is set and last otherwise; then
      windows on the focused output, then by output, workspace index and id. */
  lemma WindowOrder(niri: NiriState, sf: bool, filters: seq<Matcher>, i: int, j: int)
    requires WorkspacesKnown(niri, Candidates(niri, filters))
    requires 0 <= i < j < |SessionWindows(niri, sf, filters)|
    ensures var r := SessionWindows(niri, sf, filters);
            var v, w := r[i], r[j];
            var vs, ws := WorkspaceOf(niri, v), WorkspaceOf(niri, w);
            && (ws.isFocused ==> vs.isFocused)
            && (ws.isActive ==> vs.isFocused || vs.isActive)
            && (WorkspacePrio(vs) == WorkspacePrio(ws) && v.isFocused != w.isFocused ==> (v.isFocused <==> sf))
            && (WorkspacePrio(vs) == WorkspacePrio(ws) && v.isFocused == w.isFocused ==>
                  OutputPrio(niri.FocusedOutput(), vs.output) <= OutputPrio(niri.FocusedOutput(), ws.output))
            && ((WorkspacePrio(vs) == WorkspacePrio(ws) && v.isFocused == w.isFocused &&
                 OutputPrio(niri.FocusedOutput(), vs.output) == OutputPrio(niri.FocusedOutput(), ws.output)) ==>
                  vs.output == ws.output || OutputLess(vs.output, ws.output))
            && (WorkspacePrio(vs) == WorkspacePrio(ws) && v.isFocused == w.isFocused && vs.output == ws.output ==>
                  vs.idx <= ws.idx)
            && ((WorkspacePrio(vs) == WorkspacePrio(ws) && v.isFocused == w.isFocused && vs.output == ws.output &&
                 vs.idx == ws.idx) ==> v.id <= w.id)
  {
    var r := SessionWindows(niri, sf, filters);
    assert r[i] in r && r[j] in r;
    SessionWindowsOrdered(niri, sf, filters, i, j);
    WindowKeyLe(niri, sf, r[i], WorkspaceOf(niri, r[i]), r[j], WorkspaceOf(niri, r[j]));
  }

  /** With `select_focused`, a focused window on the focused workspace is
      preceded only by windows that are focused and on the focused workspace too. */
  lemma FocusedWindowLeads(niri: NiriState, filters: seq<Matcher>, k: int, i: int)
    requires WorkspacesKnown(niri, Candidates(niri, filters))
    requires 0 <= i < k < |SessionWindows(niri, true, filters)|
    requires var r := SessionWindows(niri, true, filters);
             r[k].isFocused && WorkspaceOf(niri, r[k]).isFocused
    ensures var r := SessionWindows(niri, true, filters);
            r[i].isFocused && WorkspaceOf(niri, r[i]).isFocused
  {
    WindowOrder(niri, true, filters, i, k);
  }

  /** Scenario of a single focused window: with `select_focused`, when the
      focused window passed the rules, sits on the focused workspace and is
      the only focused one, its label is both the first entry and the
      pre-selected one. */
  lemma SelectedIsFirstEntry(niri: NiriState, filters: seq<Matcher>)
    requires WorkspacesKnown(niri, Candidates(niri, filters))
    requires niri.FocusedWindow().Some?
    requires niri.FocusedWindow().value in Candidates(niri, filters)
    requires WorkspaceOf(niri, niri.FocusedWindow().value).isFocused
    requires forall v, w :: v in niri.windows && w in niri.windows && v.isFocused && w.isFocused ==> v == w
    ensures |SessionEntries(niri, true, filters)| > 0
    ensures SessionSelected(niri, true, filters) == Some(SessionEntries(niri, true, filters)[0])
  {
    var r := SessionWindows(niri, true, filters);
    var f := niri.FocusedWindow().value;
    FocusedWindowIsFirst(niri);
    assert f in multiset(r);
    var k :| 0 <= k < |r| && r[k] == f;
    if k > 0 {
      FocusedWindowLeads(niri, filters, k, 0);
      assert r[0] in multiset(Candidates(niri, filters));
      assert r[0] in niri.windows;
    }
    assert r[0] == f;
  }

  /** Round trip: every candidate window is listed, and selecting its
      position focuses exactly that window. */
  lemma SelectReachesEveryCandidate(niri: NiriState, sf: bool, filters: seq<Matcher>, x: Window)
    requires WorkspacesKnown(niri, Candidates(niri, filters))
    requires x in Candidates(niri, filters)
    ensures var r := SessionWindows(niri, sf, filters);
            exists i :: 0 <= i < |r| && r[i] == x && WindowSelection(r, i) == Ok([FocusWindow(x.id)])
  {
    var r := SessionWindows(niri, sf, filters);
    assert x in multiset(r);
    var i :| 0 <= i < |r| && r[i] == x;
  }

  /** Ambiguity is set-wide: once two listed windows sit on different
      workspaces, every label ends with its workspace tag. */
  lemma TaggedWhenWorkspacesDiffer(niri: NiriState, sf: bool, filters: seq<Matcher>, i: int, j: int, k: int)
    requires WorkspacesKnown(niri, Candidates(niri, filters))
    requires var r := SessionWindows(niri, sf, filters);
             0 <= i < |r| && 0 <= j < |r| && 0 <= k < |r| && r[i].workspaceId != r[j].workspaceId
    ensures var r := SessionWindows(niri, sf, filters);
            SessionEntries(niri, sf, filters)[k] ==
              FocusMark(r[k].isFocused) + r[k].title +
              " (@" + WorkspaceTag(WorkspaceOf(niri, r[k]), MultipleOutputs(niri, r)) + ")"
  {
    var r := SessionWindows(niri, sf, filters);
    MultipleWorkspacesIff(r);
    assert r[k] in r;
    var ws := WorkspaceOf(niri, r[k]);
    var mo := MultipleOutputs(niri, r);
    assert SessionEntries(niri, sf, filters)[k] == WindowLabel(r[k], Some(ws), true, mo);
    LabelWithTag(r[k], ws, mo);
  }

  /** When every candidate window sits on one workspace, no label carries
      a workspace tag. */
  lemma UntaggedWhenOneWorkspace(niri: NiriState, sf: bool, filters: seq<Matcher>, k: int)
    requires WorkspacesKnown(niri, Candidates(niri, filters))
    requires forall v, w :: v in Candidates(niri, filters) && w in Candidates(niri, filters) ==> v.workspaceId == w.workspaceId
    requires 0 <= k < |SessionWindows(niri, sf, filters)|
    ensures var r := SessionWindows(niri, sf, filters);
            SessionEntries(niri, sf, filters)[k] == FocusMark(r[k].isFocused) + r[k].title
  {
    var r := SessionWindows(niri, sf, filters);
    SingleWorkspaceOfRearrangement(r, Candidates(niri, filters));
    assert r[k] in r;
    var entry := WindowLabel(r[k], niri.WorkspaceById(r[k].workspaceId), false, MultipleOutputs(niri, r));
    assert SessionEntries(niri, sf, filters)[k] == entry;
    assert entry == FocusMark(r[k].isFocused) + r[k].title;
  }

  lemma SingleWorkspaceOfRearrangement(r: seq<Window>, c: seq<Window>)
    requires multiset(r) == multiset(c)
    requires forall v, w :: v in c && w in c ==> v.workspaceId == w.workspaceId
    ensures !MultipleWorkspaces(r)
  {
    forall i, j | 0 <= i < |r| && 0 <= j < |r| ensures r[i].workspaceId == r[j].workspaceId {
      assert r[i] in multiset(c) && r[j] in multiset(c);
    }
    MultipleWorkspacesIff(r);
  }

  /** With `select_focused`, when the focused window passed the rules, the
      pre-selected label is one of the entries. */
  lemma SelectedIsAnEntry(niri: NiriState, filters: seq<Matcher>)
    requires WorkspacesKnown(niri, Candidates(niri, filters))
    requires niri.FocusedWindow().Some? && niri.FocusedWindow().value in Candidates(niri, filters)
    ensures SessionSelected(niri, true, filters).Some?
    ensures SessionSelected(niri, true, filters).value in SessionEntries(niri, true, filters)
  {
    var r := SessionWindows(niri, true, filters);
    var f := niri.FocusedWindow().value;
    assert f in multiset(r);
    var i :| 0 <= i < |r| && r[i] == f;
    assert SessionEntries(niri, true, filters)[i] == EntryLabel(niri, r, f);
  }

  lemma LabelWithTag(w: Window, ws: Workspace, multipleOutputs: bool)
    ensures WindowLabel(w, Some(ws), true, multipleOutputs) ==
              FocusMark(w.isFocused) + w.title + " (@" + WorkspaceTag(ws, multipleOutputs) + ")"
  {
  }

  /** Scenario of two outputs: when listed windows sit on workspaces of
      different outputs and of different ids, a window whose workspace has
      an output shows it as ` / <output>` inside its tag. */
  lemma OutputShownWhenOutputsDiffer(niri: NiriState, sf: bool, filters: seq<Matcher>, i: int, j: int, k: int)
    requires WorkspacesKnown(niri, Candidates(niri, filters))
    requires var r := SessionWindows(niri, sf, filters);
             0 <= i < |r| && 0 <= j < |r| && 0 <= k < |r| &&
             OutputOf(niri, r[i]) != OutputOf(niri, r[j]) && r[i].workspaceId != r[j].workspaceId &&
             WorkspaceOf(niri, r[k]).HasOutput()
    ensures var r := SessionWindows(niri, sf, filters);
            r[k] in r &&
            SessionEntries(niri, sf, filters)[k] ==
              FocusMark(r[k].isFocused) + r[k].title +
              " (@" + WorkspaceOf(niri, r[k]).DisplayName() + " / " + WorkspaceOf(niri, r[k]).output.value + ")"
  {
    var r := SessionWindows(niri, sf, filters);
    MultipleOutputsIff(niri, r);
    MultipleWorkspacesIff(r);
    assert r[k] in r;
    var ws := WorkspaceOf(niri, r[k]);
    assert SessionEntries(niri, sf, filters)[k] == WindowLabel(r[k], Some(ws), true, true);
    LabelWithOutput(r[k], ws);
  }

  lemma LabelWithOutput(w: Window, ws: Workspace)
    requires ws.HasOutput()
    ensures WindowLabel(w, Some(ws), true, true) ==
              FocusMark(w.isFocused) + w.title + " (@" + ws.DisplayName() + " / " + ws.output.value + ")"
  {
  }

  /** The keys read only the workspaces: two snapshots with the same
      workspaces give every window the same key. */
  lemma SameWorkspacesSameKey(niri: NiriState, niri': NiriState, sf: bool, w: Window)
    requires niri'.workspaces == niri.workspaces
    requires niri.WorkspaceById(w.workspaceId).Some?
    ensures niri'.WorkspaceById(w.workspaceId) == niri.WorkspaceById(w.workspaceId)
    ensures SortKey(niri', sf, w) == SortKey(niri, sf, w)
  {
    assert niri'.FocusedWorkspace() == niri.FocusedWorkspace();
  }

  /** The last part of a window key is the window id. */
  lemma KeyNamesWindow(niri: NiriState, sf: bool, v: Window, w: Window)
    requires niri.WorkspaceById(v.workspaceId).Some? && niri.WorkspaceById(w.workspaceId).Some?
    requires SortKey(niri, sf, v) == SortKey(niri, sf, w)
    ensures v.id == w.id
  {
    assert SortKey(niri, sf, v)[5] == SortKey(niri, sf, w)[5];
  }

  /** Listing the same windows in another order offers the same candidates,
      in another order. */
  lemma CandidatesPermutation(niri: NiriState, niri': NiriState, filters: seq<Matcher>)
    requires multiset(niri'.windows) == multiset(niri.windows)
    ensures multiset(Candidates(niri', filters)) == multiset(Candidates(niri, filters))
  {
    var c, c' := Candidates(niri, filters), Candidates(niri', filters);
    forall w ensures multiset(c')[w] == multiset(c)[w] {
      CandidatesCounts(niri, filters, w);
      CandidatesCounts(niri', filters, w);
    }
    assert multiset(c') == multiset(c);
  }

  /** Two snapshots with the same workspaces rank any windows alike. */
  lemma SameWorkspacesSameRanking(niri: NiriState, niri': NiriState, sf: bool, windows: seq<Window>)
    requires niri'.workspaces == niri.workspaces
    requires WorkspacesKnown(niri, windows)
    ensures WorkspacesKnown(niri', windows)
    ensures RankWindows(niri', sf, windows) == RankWindows(niri, sf, windows)
  {
    forall w | w in windows ensures niri'.WorkspaceById(w.workspaceId).Some? {
      SameWorkspacesSameKey(niri, niri', sf, w);
    }
    var r, r' := RankWindows(niri, sf, windows), RankWindows(niri', sf, windows);
    forall i | 0 <= i < |windows| ensures r'[i] == r[i] {
      assert windows[i] in windows;
      SameWorkspacesSameKey(niri, niri', sf, windows[i]);
    }
  }

  /** With unique window ids, equal keys mean equal entries. */
  lemma SortedWindowsKeysIdentify(niri: NiriState, sf: bool, filters: seq<Matcher>)
    requires forall v, w :: v in niri.windows && w in niri.windows && v.id == w.id ==> v == w
    requires WorkspacesKnown(niri, Candidates(niri, filters))
    ensures KeysIdentify(SortedEntries(niri, sf, filters))
  {
    var sorted := SortedEntries(niri, sf, filters);
    SortedEntriesKeyed(niri, sf, Candidates(niri, filters), sorted);
    forall x, y | x in sorted && y in sorted && x.key == y.key ensures x == y {
      KeyNamesWindow(niri, sf, x.item, y.item);
    }
  }

  /** The window list does not depend on the order niri reports the windows
      in, as long as window ids are unique: the id ends the sort key, so the
      key fixes the order completely. */
  lemma WindowOrderIndependentOfListing(niri: NiriState, niri': NiriState, sf: bool, filters: seq<Matcher>)
    requires niri'.workspaces == niri.workspaces
    requires multiset(niri'.windows) == multiset(niri.windows)
    requires forall v, w :: v in niri.windows && w in niri.windows && v.id == w.id ==> v == w
    requires WorkspacesKnown(niri, Candidates(niri, filters))
    ensures WorkspacesKnown(niri', Candidates(niri', filters))
    ensures SessionWindows(niri', sf, filters) == SessionWindows(niri, sf, filters)
  {
    var c, c' := Candidates(niri, filters), Candidates(niri', filters);
    CandidatesPermutation(niri, niri', filters);
    assert WorkspacesKnown(niri, c') by {
      forall w | w in c' ensures niri.WorkspaceById(w.workspaceId).Some? {
        assert w in multiset(c);
      }
    }
    SameWorkspacesSameRanking(niri, niri', sf, c');
    RankWindowsPermutation(niri, sf, c, c');
    SortedWindowsKeysIdentify(niri, sf, filters);
    SortedUnique(SortedEntries(niri, sf, filters), SortedEntries(niri', sf, filters));
  }

  class WindowHandler {
    const niri: NiriState
    const windows: seq<Window>
    const multipleWorkspaces: bool
    const multipleOutputs: bool
    const dmenuPrompt: string
    const dmenuEntries: seq<string>
    const dmenuSelected: Option<string>

    constructor (niri: NiriState, selectFocused: bool, windowFilters: seq<Matcher>)
      requires WorkspacesKnown(niri, Candidates(niri, windowFilters))
      ensures this.niri == niri
      ensures windows == SessionWindows(niri, selectFocused, windowFilters)
      ensures multipleWorkspaces == MultipleWorkspaces(windows)
      ensures multipleOutputs == MultipleOutputs(niri, windows)
      ensures dmenuPrompt == "Window"
      ensures dmenuEntries == SessionEntries(niri, selectFocused, windowFilters)
      ensures dmenuSelected == SessionSelected(niri, selectFocused, windowFilters)
    {
      this.niri := niri;
      var sorted := SessionWindows(niri, selectFocused, windowFilters);
      windows := sorted;
      multipleWorkspaces := MultipleWorkspaces(sorted);
      multipleOutputs := MultipleOutputs(niri, sorted);
      dmenuPrompt := "Window";
      dmenuEntries := seq(|sorted|, i requires 0 <= i < |sorted| => EntryLabel(niri, sorted, sorted[i]));
      dmenuSelected :=
        if selectFocused && niri.FocusedWindow().Some? then Some(EntryLabel(niri, sorted, niri.FocusedWindow().value))
        else None;
    }

    /** `select(idx)`: the actions to run for the picked index. */
    method Select(idx: int) returns (r: Result<seq<Action>, SelectError>)
      ensures r.Ok? <==> -|windows| <= idx < |windows|
      ensures r.Ok? ==> r.value == [FocusWindow(windows[PyIndex(|windows|, idx).value].id)]
      ensures r == WindowSelection(windows, idx)
    {
      var k := PyIndex(|windows|, idx);
      if k.None? {
        return Err(IndexOutOfRange(idx));
      }
      var entry := windows[k.value];
      r := Ok([FocusWindow(entry.id)]);
    }
  }
}
