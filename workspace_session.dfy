/**
 * The workspace picker session (`WorkspaceHandler`): rank every workspace
 * of the snapshot, render one label per workspace, pick the label to
 * pre-select, and turn the picked index into the focus actions.
 */
module WorkspaceSession {
  import opened Wrappers
  import opened Seqs
  import opened Niri
  import opened Ranking
  import opened Actions

  /** `focus_prio`: the focused workspace first (-2) with `select_focused`
      and last (the source's MAX, here 1) without; active ones (-1) before
      the rest (0). */
  function FocusPrio(w: Workspace, selectFocused: bool): (r: int) {
    if w.isFocused then (if selectFocused then -2 else 1)
    else if w.isActive then -1
    else 0
  }

  /** The tuple `(focus_prio, output_prio, output, idx)`. */
  function WorkspaceKey(focusedOutput: Option<string>, selectFocused: bool, w: Workspace): (r: Key) {
    [Num(FocusPrio(w, selectFocused)), Num(OutputPrio(focusedOutput, w.output)), Text(w.output), Num(w.idx)]
  }

  function RankWorkspaces(fo: Option<string>, selectFocused: bool, workspaces: seq<Workspace>): (r: seq<Ranked<Workspace>>)
    ensures Items(r) == workspaces
    ensures |r| == |workspaces| &&
            forall i :: 0 <= i < |r| ==> r[i].key == WorkspaceKey(fo, selectFocused, workspaces[i])
  {
    if workspaces == [] then []
    else [Ranked(workspaces[0], WorkspaceKey(fo, selectFocused, workspaces[0]))]
         + RankWorkspaces(fo, selectFocused, workspaces[1..])
  }

  /** How often an entry occurs among the ranked workspaces: as often as its
      workspace when it carries that workspace's key, else never. */
  lemma RankWorkspacesCount(fo: Option<string>, sf: bool, workspaces: seq<Workspace>, e: Ranked<Workspace>)
    ensures multiset(RankWorkspaces(fo, sf, workspaces))[e] ==
            if e.key == WorkspaceKey(fo, sf, e.item) then multiset(workspaces)[e.item] else 0
  {
    KeyedCount(RankWorkspaces(fo, sf, workspaces), workspaces, (w: Workspace) => WorkspaceKey(fo, sf, w), e);
  }

  /** Ranking a permutation of the workspaces ranks a permutation of the entries. */
  lemma RankWorkspacesPermutation(fo: Option<string>, sf: bool, a: seq<Workspace>, b: seq<Workspace>)
    requires multiset(a) == multiset(b)
    ensures multiset(RankWorkspaces(fo, sf, a)) == multiset(RankWorkspaces(fo, sf, b))
  {
    var ma, mb := multiset(RankWorkspaces(fo, sf, a)), multiset(RankWorkspaces(fo, sf, b));
    forall e ensures ma[e] == mb[e] {
      RankWorkspacesCount(fo, sf, a, e);
      RankWorkspacesCount(fo, sf, b, e);
    }
    assert ma == mb;
  }

  /** The workspaces ranked and sorted by key, before their keys are dropped. */
  function SortedEntries(niri: NiriState, selectFocused: bool): (r: seq<Ranked<Workspace>>) {
    SortByKey(RankWorkspaces(niri.FocusedOutput(), selectFocused, niri.workspaces))
  }

  /** `self.workspaces`: every workspace of the snapshot, rearranged (the
      order is stated by `SessionWorkspacesOrdered`). */
  function SessionWorkspaces(niri: NiriState, selectFocused: bool): (r: seq<Workspace>)
    ensures multiset(r) == multiset(niri.workspaces)
  {
    var ranked := RankWorkspaces(niri.FocusedOutput(), selectFocused, niri.workspaces);
    var sorted := SortedEntries(niri, selectFocused);
    ItemsPermutation(sorted, ranked);
    assert Items(ranked) == niri.workspaces;
    Items(sorted)
  }

  /** The workspaces are in `sort_key` order. */
  lemma SessionWorkspacesOrdered(niri: NiriState, selectFocused: bool, i: int, j: int)
    requires 0 <= i < j < |SessionWorkspaces(niri, selectFocused)|
    ensures var r := SessionWorkspaces(niri, selectFocused);
            KeyLe(WorkspaceKey(niri.FocusedOutput(), selectFocused, r[i]), WorkspaceKey(niri.FocusedOutput(), selectFocused, r[j]))
  {
    var sorted := SortedEntries(niri, selectFocused);
    SortedWorkspacesKeyed(niri.FocusedOutput(), selectFocused, niri.workspaces, sorted);
    assert sorted[i] in sorted && sorted[j] in sorted;
    assert KeyLe(sorted[i].key, sorted[j].key);
  }

  /** Every ranked entry carries its own workspace's key. */
  lemma SortedWorkspacesKeyed(fo: Option<string>, sf: bool, workspaces: seq<Workspace>, sorted: seq<Ranked<Workspace>>)
    requires multiset(sorted) == multiset(RankWorkspaces(fo, sf, workspaces))
    ensures forall e :: e in sorted ==> e.key == WorkspaceKey(fo, sf, e.item) && e.item in workspaces
  {
    forall e | e in sorted ensures e.key == WorkspaceKey(fo, sf, e.item) && e.item in workspaces {
      RankWorkspacesCount(fo, sf, workspaces, e);
    }
  }

  /** `multiple_outputs`: the workspaces span more than one output value,
      an absent output counting as a value of its own. */
  function MultipleOutputs(workspaces: seq<Workspace>): (r: bool) {
    HasDistinct(seq(|workspaces|, i requires 0 <= i < |workspaces| => workspaces[i].output))
  }

  lemma MultipleOutputsIff(workspaces: seq<Workspace>)
    ensures MultipleOutputs(workspaces) <==>
            exists i, j :: 0 <= i < |workspaces| && 0 <= j < |workspaces| &&
                           workspaces[i].output != workspaces[j].output
  {
    var outputs := seq(|workspaces|, i requires 0 <= i < |workspaces| => workspaces[i].output);
    HasDistinctIff(outputs);
    assert forall i :: 0 <= i < |workspaces| ==> outputs[i] == workspaces[i].output;
  }

  /** The title shown after a workspace: that of the window its
      `active_window_id` names (the last one listed under that id), or
      `(empty)` when it names none or no window has the id. */
  function ActiveTitle(niri: NiriState, ws: Workspace): (r: string)
    ensures ws.activeWindowId.None? ==> r == "(empty)"
    ensures ws.activeWindowId.Some? && (forall w :: w in niri.windows ==> w.id != ws.activeWindowId.value) ==>
              r == "(empty)"
    ensures ws.activeWindowId.Some? && (exists w :: w in niri.windows && w.id == ws.activeWindowId.value) ==>
              exists i :: 0 <= i < |niri.windows| && niri.windows[i].id == ws.activeWindowId.value &&
                          r == niri.windows[i].title &&
                          forall j :: i < j < |niri.windows| ==> niri.windows[j].id != ws.activeWindowId.value
  {
    match ws.activeWindowId
    case None => "(empty)"
    case Some(id) =>
      WindowByIdIsLast(niri, id);
      match niri.WindowById(id)
      case None => "(empty)"
      case Some(w) => w.title
  }

  /** `_entry_to_dmenu`: `@` and the name or index, marked when focused;
      then ` / <output>` only when outputs are ambiguous and this one is
      present and not empty; then ` -- ` and the active window's title. */
  function WorkspaceLabel(ws: Workspace, multipleOutputs: bool, title: string): (r: string)
    ensures FocusMark(ws.isFocused) + "@" + ws.DisplayName() <= r
    ensures |r| >= 4 + |title| && r[|r| - 4 - |title|..] == " -- " + title
    ensures |r| > |FocusMark(ws.isFocused) + "@" + ws.DisplayName()| + 4 + |title| <==>
              multipleOutputs && ws.HasOutput()
    ensures multipleOutputs && ws.HasOutput() ==>
              var head := FocusMark(ws.isFocused) + "@" + ws.DisplayName();
              " / " + ws.output.value <= r[|head|..]
    ensures |r| == |FocusMark(ws.isFocused) + "@" + ws.DisplayName()| +
                   (if multipleOutputs && ws.HasOutput() then 3 + |ws.output.value| else 0) + 4 + |title|
  {
    var entry := FocusMark(ws.isFocused) + "@" + ws.DisplayName();
    var entry' := if multipleOutputs && ws.HasOutput() then entry + " / " + ws.output.value else entry;
    entry' + " -- " + title
  }

  /** The label of `ws` in a session whose workspaces are `workspaces`. */
  function EntryLabel(niri: NiriState, workspaces: seq<Workspace>, ws: Workspace): (r: string) {
    WorkspaceLabel(ws, MultipleOutputs(workspaces), ActiveTitle(niri, ws))
  }

  /** `dmenu_entries`: one label per ranked workspace, in rank order. */
  function SessionEntries(niri: NiriState, selectFocused: bool): (r: seq<string>)
    ensures var ws := SessionWorkspaces(niri, selectFocused);
            |r| == |ws| && forall i :: 0 <= i < |r| ==> r[i] == EntryLabel(niri, ws, ws[i])
  {
    var ws := SessionWorkspaces(niri, selectFocused);
    seq(|ws|, i requires 0 <= i < |ws| => EntryLabel(niri, ws, ws[i]))
  }

  /** `dmenu_selected`: the focused workspace's label when asked for and
      when there is a focused workspace. */
  function SessionSelected(niri: NiriState, selectFocused: bool): (r: Option<string>)
    ensures r.Some? <==> selectFocused && niri.FocusedWorkspace().Some?
    ensures r.Some? ==> r.value == EntryLabel(niri, SessionWorkspaces(niri, selectFocused), niri.FocusedWorkspace().value)
  {
    if selectFocused && niri.FocusedWorkspace().Some? then
      Some(EntryLabel(niri, SessionWorkspaces(niri, selectFocused), niri.FocusedWorkspace().value))
    else None
  }

  /** What selecting a workspace does: move to its output first when it
      has one (present and not empty), then focus its index there. */
  function FocusActions(ws: Workspace): (r: seq<Action>)
    ensures |r| > 0 && r[|r| - 1] == FocusWorkspace(ws.idx)
    ensures |r| == 2 <==> ws.HasOutput()
    ensures |r| == 2 ==> r[0] == FocusMonitor(ws.output.value)
    ensures |r| <= 2
  {
    (if ws.HasOutput() then [FocusMonitor(ws.output.value)] else []) + [FocusWorkspace(ws.idx)]
  }

  /** `select(idx)`: the actions for the workspace at that position of the
      ranked list, Python's negative indices included. */
  function WorkspaceSelection(workspaces: seq<Workspace>, idx: int): (r: Result<seq<Action>, SelectError>)
    ensures r.Ok? <==> -|workspaces| <= idx < |workspaces|
    ensures r.Err? ==> r.error == IndexOutOfRange(idx)
    ensures 0 <= idx < |workspaces| ==> r == Ok(FocusActions(workspaces[idx]))
    ensures -|workspaces| <= idx < 0 ==> r == Ok(FocusActions(workspaces[|workspaces| + idx]))
  {
    match PyIndex(|workspaces|, idx)
    case None => Err(IndexOutOfRange(idx))
    case Some(k) => Ok(FocusActions(workspaces[k]))
  }

  /** Comparing two workspace keys: each part decides only when all the
      parts before it are equal. */
  lemma WorkspaceKeyLe(niri: NiriState, sf: bool, v: Workspace, w: Workspace)
    requires KeyLe(WorkspaceKey(niri.FocusedOutput(), sf, v), WorkspaceKey(niri.FocusedOutput(), sf, w))
    ensures FocusPrio(v, sf) <= FocusPrio(w, sf)
    ensures FocusPrio(v, sf) == FocusPrio(w, sf) ==> OutputPrio(niri.FocusedOutput(), v.output) <= OutputPrio(niri.FocusedOutput(), w.output)
    ensures FocusPrio(v, sf) == FocusPrio(w, sf) && OutputPrio(niri.FocusedOutput(), v.output) == OutputPrio(niri.FocusedOutput(), w.output) ==>
              v.output == w.output || OutputLess(v.output, w.output)
    ensures FocusPrio(v, sf) == FocusPrio(w, sf) && v.output == w.output ==> v.idx <= w.idx
  {
    KeyLeFour(FocusPrio(v, sf), OutputPrio(niri.FocusedOutput(), v.output), v.output, v.idx,
              FocusPrio(w, sf), OutputPrio(niri.FocusedOutput(), w.output), w.output, w.idx);
  }

  /** The order of the workspace list: with `select_focused` the focused
      workspace comes first and without it last; active workspaces come
      before the rest; within one of these groups, the focused output
      first, then by output and by index. */
  lemma WorkspaceOrder(niri: NiriState, sf: bool, i: int, j: int)
    requires 0 <= i < j < |SessionWorkspaces(niri, sf)|
    ensures var r := SessionWorkspaces(niri, sf);
            var v, w := r[i], r[j];
            && (sf && w.isFocused ==> v.isFocused)
            && (!sf && v.isFocused ==> w.isFocused)
            && (w.isActive && !w.isFocused ==> v.isActive || v.isFocused)
            && (FocusPrio(v, sf) == FocusPrio(w, sf) ==> OutputPrio(niri.FocusedOutput(), v.output) <= OutputPrio(niri.FocusedOutput(), w.output))
            && (FocusPrio(v, sf) == FocusPrio(w, sf) && OutputPrio(niri.FocusedOutput(), v.output) == OutputPrio(niri.FocusedOutput(), w.output) ==>
                  v.output == w.output || OutputLess(v.output, w.output))
            && (FocusPrio(v, sf) == FocusPrio(w, sf) && v.output == w.output ==> v.idx <= w.idx)
  {
    var r := SessionWorkspaces(niri, sf);
    SessionWorkspacesOrdered(niri, sf, i, j);
    WorkspaceKeyLe(niri, sf, r[i], r[j]);
  }

  /** The first part of the key alone: focus priority never decreases along the list. */
  lemma FocusPrioOrdered(niri: NiriState, sf: bool, i: int, j: int)
    requires 0 <= i < j < |SessionWorkspaces(niri, sf)|
    ensures var r := SessionWorkspaces(niri, sf);
            FocusPrio(r[i], sf) <= FocusPrio(r[j], sf)
  {
    var r := SessionWorkspaces(niri, sf);
    SessionWorkspacesOrdered(niri, sf, i, j);
    KeyLeFour(FocusPrio(r[i], sf), OutputPrio(niri.FocusedOutput(), r[i].output), r[i].output, r[i].idx,
              FocusPrio(r[j], sf), OutputPrio(niri.FocusedOutput(), r[j].output), r[j].output, r[j].idx);
  }

  /** At most one workspace of the snapshot is flagged focused. */
  predicate FocusUnique(niri: NiriState) {
    forall v, w :: v in niri.workspaces && w in niri.workspaces && v.isFocused && w.isFocused ==> v == w
  }

  /** A focused workspace, when it is the only one, sorts first with
      `select_focused` and last without it. */
  lemma FocusedSortsToEnd(niri: NiriState, sf: bool, f: Workspace)
    requires f in niri.workspaces && f.isFocused
    requires FocusUnique(niri)
    ensures var r := SessionWorkspaces(niri, sf);
            |r| > 0 && (if sf then r[0] == f else r[|r| - 1] == f)
  {
    var r := SessionWorkspaces(niri, sf);
    forall i, j | 0 <= i < j < |r| ensures FocusPrio(r[i], sf) <= FocusPrio(r[j], sf) {
      FocusPrioOrdered(niri, sf, i, j);
    }
    forall w | w in r && w.isFocused ensures w == f {
      assert w in multiset(niri.workspaces);
    }
    assert f in multiset(r);
    FocusedAtEnd(r, sf, f);
  }

  /** In a list ordered by focus priority, the only focused workspace is
      at the end its priority puts it. */
  lemma FocusedAtEnd(r: seq<Workspace>, sf: bool, f: Workspace)
    requires f in r && f.isFocused
    requires forall w :: w in r && w.isFocused ==> w == f
    requires forall i, j :: 0 <= i < j < |r| ==> FocusPrio(r[i], sf) <= FocusPrio(r[j], sf)
    ensures |r| > 0 && (if sf then r[0] == f else r[|r| - 1] == f)
  {
    var k :| 0 <= k < |r| && r[k] == f;
    var end := if sf then 0 else |r| - 1;
    if k != end {
      assert r[end].isFocused;
    }
  }

  /** With `select_focused` and a single focused workspace, its label is
      both the first entry and the pre-selected one. */
  lemma SelectedIsFirstEntry(niri: NiriState)
    requires niri.FocusedWorkspace().Some?
    requires FocusUnique(niri)
    ensures |SessionEntries(niri, true)| > 0
    ensures SessionSelected(niri, true) == Some(SessionEntries(niri, true)[0])
  {
    var r := SessionWorkspaces(niri, true);
    var f := niri.FocusedWorkspace().value;
    FocusedWorkspaceIsFirst(niri);
    FocusedSortsToEnd(niri, true, f);
    assert SessionEntries(niri, true)[0] == EntryLabel(niri, r, f);
  }

  /** With `select_focused`, the pre-selected label is always one of the
      entries: the focused workspace is always listed. */
  lemma SelectedIsAnEntry(niri: NiriState)
    requires niri.FocusedWorkspace().Some?
    ensures SessionSelected(niri, true).Some? && SessionSelected(niri, true).value in SessionEntries(niri, true)
  {
    var r := SessionWorkspaces(niri, true);
    var f := niri.FocusedWorkspace().value;
    FocusedWorkspaceIsFirst(niri);
    assert f in multiset(r);
    var i :| 0 <= i < |r| && r[i] == f;
    assert SessionEntries(niri, true)[i] == EntryLabel(niri, r, f);
  }

  /** Without `select_focused`, a single focused workspace is the last entry. */
  lemma FocusedIsLastEntry(niri: NiriState)
    requires niri.FocusedWorkspace().Some?
    requires FocusUnique(niri)
    ensures var r := SessionWorkspaces(niri, false);
            |r| > 0 && r[|r| - 1] == niri.FocusedWorkspace().value
  {
    FocusedWorkspaceIsFirst(niri);
    FocusedSortsToEnd(niri, false, niri.FocusedWorkspace().value);
  }

  /** Round trip: every workspace is listed, and selecting its position
      moves to its output (when it has one) and focuses its index. */
  lemma SelectReachesEveryWorkspace(niri: NiriState, sf: bool, x: Workspace)
    requires x in niri.workspaces
    ensures var r := SessionWorkspaces(niri, sf);
            exists i :: 0 <= i < |r| && r[i] == x && WorkspaceSelection(r, i) == Ok(FocusActions(x))
  {
    var r := SessionWorkspaces(niri, sf);
    assert x in multiset(r);
    var i :| 0 <= i < |r| && r[i] == x;
  }

  /** When every workspace sits on the same output (or all lack one), no
      label shows an output. */
  lemma OutputHiddenWhenOneOutput(niri: NiriState, sf: bool, k: int)
    requires forall v, w :: v in niri.workspaces && w in niri.workspaces ==> v.output == w.output
    requires 0 <= k < |SessionWorkspaces(niri, sf)|
    ensures var r := SessionWorkspaces(niri, sf);
            SessionEntries(niri, sf)[k] ==
              FocusMark(r[k].isFocused) + "@" + r[k].DisplayName() + " -- " + ActiveTitle(niri, r[k])
  {
    var r := SessionWorkspaces(niri, sf);
    MultipleOutputsIff(r);
    forall i, j | 0 <= i < |r| && 0 <= j < |r| ensures r[i].output == r[j].output {
      assert r[i] in multiset(niri.workspaces) && r[j] in multiset(niri.workspaces);
    }
  }

  /** Scenario of two outputs: once two workspaces sit on different
      outputs, every workspace with an output shows it in its label. */
  lemma OutputShownWhenOutputsDiffer(niri: NiriState, sf: bool, i: int, j: int, k: int)
    requires var r := SessionWorkspaces(niri, sf);
             0 <= i < |r| && 0 <= j < |r| && 0 <= k < |r| &&
             r[i].output != r[j].output && r[k].HasOutput()
    ensures var r := SessionWorkspaces(niri, sf);
            SessionEntries(niri, sf)[k] ==
              FocusMark(r[k].isFocused) + "@" + r[k].DisplayName() + " / " + r[k].output.value +
              " -- " + ActiveTitle(niri, r[k])
  {
    var r := SessionWorkspaces(niri, sf);
    MultipleOutputsIff(r);
  }

  /** The focused workspace of two listings of the same workspaces is the
      same when only one workspace is focused. */
  lemma FocusedWorkspaceOfPermutation(niri: NiriState, niri': NiriState)
    requires multiset(niri.workspaces) == multiset(niri'.workspaces)
    requires FocusUnique(niri)
    ensures niri.FocusedWorkspace() == niri'.FocusedWorkspace()
  {
    FocusedWorkspaceIsFirst(niri);
    FocusedWorkspaceIsFirst(niri');
    if niri.FocusedWorkspace().Some? {
      assert niri.FocusedWorkspace().value in multiset(niri'.workspaces);
    }
    if niri'.FocusedWorkspace().Some? {
      assert niri'.FocusedWorkspace().value in multiset(niri.workspaces);
    }
  }

  /** The workspace list does not depend on the order niri reports the
      workspaces in, as long as an output and an index name at most one
      workspace and at most one workspace is focused: the sort key then
      fixes the order completely. */
  lemma OrderIndependentOfListing(niri: NiriState, niri': NiriState, sf: bool)
    requires multiset(niri.workspaces) == multiset(niri'.workspaces)
    requires FocusUnique(niri)
    requires forall v, w :: v in niri.workspaces && w in niri.workspaces && v.output == w.output && v.idx == w.idx ==> v == w
    ensures SessionWorkspaces(niri, sf) == SessionWorkspaces(niri', sf)
  {
    FocusedWorkspaceOfPermutation(niri, niri');
    var fo := niri.FocusedOutput();
    assert niri'.FocusedOutput() == fo;
    RankWorkspacesPermutation(fo, sf, niri.workspaces, niri'.workspaces);
    var sorted, sorted' := SortedEntries(niri, sf), SortedEntries(niri', sf);
    SortedWorkspacesKeyed(fo, sf, niri.workspaces, sorted);
    forall x, y | x in sorted && y in sorted && x.key == y.key ensures x == y {
      KeyNamesWorkspace(fo, sf, x.item, y.item);
    }
    SortedUnique(sorted, sorted');
  }

  /** Equal keys mean equal outputs and indices. */
  lemma KeyNamesWorkspace(fo: Option<string>, sf: bool, v: Workspace, w: Workspace)
    requires WorkspaceKey(fo, sf, v) == WorkspaceKey(fo, sf, w)
    ensures v.output == w.output && v.idx == w.idx
  {
    assert WorkspaceKey(fo, sf, v)[2] == WorkspaceKey(fo, sf, w)[2];
    assert WorkspaceKey(fo, sf, v)[3] == WorkspaceKey(fo, sf, w)[3];
  }

  class WorkspaceHandler {
    const niri: NiriState
    const workspaces: seq<Workspace>
    const multipleOutputs: bool
    const dmenuPrompt: string
    const dmenuEntries: seq<string>
    const dmenuSelected: Option<string>

    constructor (niri: NiriState, selectFocused: bool)
      ensures this.niri == niri
      ensures workspaces == SessionWorkspaces(niri, selectFocused)
      ensures multipleOutputs == MultipleOutputs(workspaces)
      ensures dmenuPrompt == "Workspace"
      ensures dmenuEntries == SessionEntries(niri, selectFocused)
      ensures dmenuSelected == SessionSelected(niri, selectFocused)
    {
      this.niri := niri;
      var sorted := SessionWorkspaces(niri, selectFocused);
      workspaces := sorted;
      multipleOutputs := MultipleOutputs(sorted);
      dmenuPrompt := "Workspace";
      dmenuEntries := seq(|sorted|, i requires 0 <= i < |sorted| => EntryLabel(niri, sorted, sorted[i]));
      dmenuSelected :=
        if selectFocused && niri.FocusedWorkspace().Some? then Some(EntryLabel(niri, sorted, niri.FocusedWorkspace().value))
        else None;
    }

    /** `select(idx)`: the actions to run for the picked index, in order. */
    method Select(idx: int) returns (r: Result<seq<Action>, SelectError>)
      ensures r.Ok? <==> -|workspaces| <= idx < |workspaces|
      ensures r.Ok? ==> r.value == FocusActions(workspaces[PyIndex(|workspaces|, idx).value])
      ensures r == WorkspaceSelection(workspaces, idx)
    {
      var k := PyIndex(|workspaces|, idx);
      if k.None? {
        return Err(IndexOutOfRange(idx));
      }
      var entry := workspaces[k.value];
      var actions: seq<Action> := [];
      if entry.HasOutput() {
        actions := actions + [FocusMonitor(entry.output.value)];
      }
      actions := actions + [FocusWorkspace(entry.idx)];
      r := Ok(actions);
    }
  }
}
