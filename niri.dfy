/**
 * The compositor snapshot: the window and workspace records niri reports,
 * and the views derived from them (`NiriState`'s cached properties).
 */
module Niri {
  import opened Wrappers
  import opened Values
  import opened Seqs
  import Text

  /** A window record. `others` holds whatever further fields niri reports;
      the engine reads only the named ones, but match rules may name any. */
  datatype Window = Window(
    id: int,
    title: string,
    appId: string,
    workspaceId: int,
    isFocused: bool,
    isFloating: bool,
    others: Record)
  {
    /** The record as the match rules see it. */
    function AsRecord(): (r: Record)
      ensures Get(r, "id") == Int(id) && Get(r, "title") == Str(title)
      ensures Get(r, "app_id") == Str(appId) && Get(r, "workspace_id") == Int(workspaceId)
      ensures Get(r, "is_focused") == Bool(isFocused) && Get(r, "is_floating") == Bool(isFloating)
      ensures forall k :: k in others && k !in WindowFields ==> Get(r, k) == others[k]
      ensures r.Keys == others.Keys + WindowFields
    {
      others + map[
        "id" := Int(id), "title" := Str(title), "app_id" := Str(appId),
        "workspace_id" := Int(workspaceId), "is_focused" := Bool(isFocused),
        "is_floating" := Bool(isFloating)]
    }
  }

  const WindowFields: set<string> := {"id", "title", "app_id", "workspace_id", "is_focused", "is_floating"}

  /** A workspace record; `name`, `output` and `active_window_id` may be absent. */
  datatype Workspace = Workspace(
    id: int,
    idx: int,
    name: Option<string>,
    output: Option<string>,
    isActive: bool,
    isFocused: bool,
    activeWindowId: Option<int>,
    others: Record)
  {
    function AsRecord(): (r: Record)
      ensures Get(r, "id") == Int(id) && Get(r, "idx") == Int(idx)
      ensures Get(r, "name") == OptStr(name) && Get(r, "output") == OptStr(output)
      ensures Get(r, "is_active") == Bool(isActive) && Get(r, "is_focused") == Bool(isFocused)
      ensures Get(r, "active_window_id") == OptInt(activeWindowId)
      ensures forall k :: k in others && k !in WorkspaceFields ==> Get(r, k) == others[k]
      ensures r.Keys == others.Keys + WorkspaceFields
    {
      others + map[
        "id" := Int(id), "idx" := Int(idx), "name" := OptStr(name),
        "output" := OptStr(output), "is_active" := Bool(isActive),
        "is_focused" := Bool(isFocused), "active_window_id" := OptInt(activeWindowId)]
    }

    /** `get("name") or str(idx)`: the name unless it is absent or empty. */
    function DisplayName(): (r: string)
      ensures |r| > 0
      ensures name.Some? && name.value != "" ==> r == name.value
      ensures name.None? || name.value == "" ==> r == Text.IntToString(idx)
    {
      if name.Some? && name.value != "" then name.value else Text.IntToString(idx)
    }

    /** `output := get("output")` is truthy: present and not empty. */
    predicate HasOutput() {
      output.Some? && output.value != ""
    }
  }

  const WorkspaceFields: set<string> := {"id", "idx", "name", "output", "is_active", "is_focused", "active_window_id"}

  /** The record views as named functions, so that every mention of
      `FilterBy(..., WindowRecord, ...)` denotes the same arrow value and
      lemmas stated about one filter call apply to another; a lambda written
      out at each call would be a fresh term each time. */
  function WindowRecord(w: Window): (r: Record) { w.AsRecord() }

  function WorkspaceRecord(w: Workspace): (r: Record) { w.AsRecord() }

  /** A field niri did not report reads as null through `.get`, so a rule
      `{"<field>": null}` accepts the record. */
  lemma UnreportedFieldsReadNull(w: Window, ws: Workspace, k: string)
    ensures k !in w.others && k !in WindowFields ==> Get(w.AsRecord(), k) == Null
    ensures k !in ws.others && k !in WorkspaceFields ==> Get(ws.AsRecord(), k) == Null
  {
  }

  /** One snapshot of niri's windows and workspaces. */
  datatype NiriState = NiriState(windows: seq<Window>, workspaces: seq<Workspace>)
  {
    /** `focused_window`: the first window flagged focused. */
    function FocusedWindow(): (r: Option<Window>) {
      First(windows, (w: Window) => w.isFocused)
    }

    /** `focused_workspace`: the first workspace flagged focused. */
    function FocusedWorkspace(): (r: Option<Workspace>) {
      First(workspaces, (w: Workspace) => w.isFocused)
    }

    /** `active_workspaces`: the active workspaces, in snapshot order. */
    function ActiveWorkspaces(): (r: seq<Workspace>) {
      Keep(workspaces, (w: Workspace) => w.isActive)
    }

    /** `focused_output`: the output of the focused workspace, absent when
        there is none or when it has no output. */
    function FocusedOutput(): (r: Option<string>) {
      match FocusedWorkspace()
      case None => None
      case Some(w) => w.output
    }

    /** `workspace_id_map.get(id)`: the last workspace listed with that id. */
    function WorkspaceById(id: int): (r: Option<Workspace>) {
      Last(workspaces, (w: Workspace) => w.id == id)
    }

    /** `window_id_map.get(id)`: the last window listed with that id. */
    function WindowById(id: int): (r: Option<Window>) {
      Last(windows, (w: Window) => w.id == id)
    }
  }

  lemma FocusedWindowIsFirst(niri: NiriState)
    ensures var r := niri.FocusedWindow();
            && (r.None? <==> forall i :: 0 <= i < |niri.windows| ==> !niri.windows[i].isFocused)
            && (r.Some? ==> r.value in niri.windows && r.value.isFocused)
            && (r.Some? ==> exists i :: 0 <= i < |niri.windows| && niri.windows[i] == r.value
                                        && forall j :: 0 <= j < i ==> !niri.windows[j].isFocused)
  {
  }

  lemma FocusedWorkspaceIsFirst(niri: NiriState)
    ensures var r := niri.FocusedWorkspace();
            && (r.None? <==> forall i :: 0 <= i < |niri.workspaces| ==> !niri.workspaces[i].isFocused)
            && (r.Some? ==> r.value in niri.workspaces && r.value.isFocused)
            && (r.Some? ==> exists i :: 0 <= i < |niri.workspaces| && niri.workspaces[i] == r.value
                                        && forall j :: 0 <= j < i ==> !niri.workspaces[j].isFocused)
  {
  }

  lemma ActiveWorkspacesAreActive(niri: NiriState)
    ensures IsSubsequence(niri.ActiveWorkspaces(), niri.workspaces)
    ensures forall w :: w in niri.ActiveWorkspaces() <==> w in niri.workspaces && w.isActive
  {
  }

  lemma FocusedOutputOfFocusedWorkspace(niri: NiriState)
    ensures niri.FocusedWorkspace().None? ==> niri.FocusedOutput().None?
    ensures niri.FocusedWorkspace().Some? ==> niri.FocusedOutput() == niri.FocusedWorkspace().value.output
    ensures niri.FocusedOutput().Some? ==>
              exists w :: w in niri.workspaces && w.isFocused && w.output == niri.FocusedOutput()
  {
    FocusedWorkspaceIsFirst(niri);
  }

  lemma WorkspaceByIdIsLast(niri: NiriState, id: int)
    ensures var r := niri.WorkspaceById(id);
            && (r.None? <==> forall i :: 0 <= i < |niri.workspaces| ==> niri.workspaces[i].id != id)
            && (r.Some? ==> r.value in niri.workspaces && r.value.id == id)
            && (r.Some? ==> exists i :: 0 <= i < |niri.workspaces| && niri.workspaces[i] == r.value
                                        && forall j :: i < j < |niri.workspaces| ==> niri.workspaces[j].id != id)
  {
  }

  /** A listed workspace's id always finds a workspace. */
  lemma WorkspaceByIdFinds(niri: NiriState, ws: Workspace)
    requires ws in niri.workspaces
    ensures niri.WorkspaceById(ws.id).Some?
  {
    var i :| 0 <= i < |niri.workspaces| && niri.workspaces[i] == ws;
    WorkspaceByIdIsLast(niri, ws.id);
  }

  lemma WindowByIdIsLast(niri: NiriState, id: int)
    ensures var r := niri.WindowById(id);
            && (r.None? <==> forall i :: 0 <= i < |niri.windows| ==> niri.windows[i].id != id)
            && (r.Some? ==> r.value in niri.windows && r.value.id == id)
            && (r.Some? ==> exists i :: 0 <= i < |niri.windows| && niri.windows[i] == r.value
                                        && forall j :: i < j < |niri.windows| ==> niri.windows[j].id != id)
  {
  }

  /** `output_prio`: ahead (-1) on the focused output, else 0 (the window
      picker's MIN is here -1 too). Python's `None == None` holds, so without
      a focused output the records that have no output are the ones put ahead. */
  function OutputPrio(focusedOutput: Option<string>, output: Option<string>): (r: int) {
    if output == focusedOutput then -1 else 0
  }

  /** The `* ` both pickers put before the focused entry's label. */
  function FocusMark(focused: bool): (r: string) {
    if focused then "* " else ""
  }

  /** The snapshot that stands in when `--app-id @focused` finds no focused window. */
  const Empty := NiriState([], [])
}
