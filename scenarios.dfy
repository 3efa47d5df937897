/**
 * Small concrete snapshots, worked through the window picker and the
 * window options, as checks of the general statements on known data.
 */
module Scenarios {
  import opened Wrappers
  import opened Values
  import opened Niri
  import opened WindowSession
  import opened Matchers
  import opened Selector

  /** One focused window on the focused workspace. */
  const Lone := Window(1, "A", "x", 10, true, false, map[])
  const LoneSpace := Workspace(10, 1, None, None, true, true, Some(1), map[])
  const LoneSnapshot := NiriState([Lone], [LoneSpace])

  /** With `select_focused` and no rules the only label is `* A`, and it
      is the pre-selected one. */
  lemma SingleFocusedWindow()
    ensures WorkspacesKnown(LoneSnapshot, Candidates(LoneSnapshot, []))
    ensures SessionEntries(LoneSnapshot, true, []) == ["* A"]
    ensures SessionSelected(LoneSnapshot, true, []) == Some("* A")
  {
    var niri := LoneSnapshot;
    assert niri.WorkspaceById(10) == Some(LoneSpace);
    assert Candidates(niri, []) == [Lone];
    var r := SessionWindows(niri, true, []);
    assert multiset(r) == multiset{Lone};
    assert |r| == 1;
    assert r[0] in multiset(r);
    assert r == [Lone];
    assert !MultipleWorkspaces(r) by {
      MultipleWorkspacesIff(r);
    }
    assert niri.FocusedWindow() == Some(Lone);
    assert EntryLabel(niri, r, Lone) == "* A";
  }

  /** Two windows, each on a workspace of its own output; the focused
      workspace is on `DP-1`, and niri lists the windows the other way round. */
  const Left := Window(1, "A", "x", 10, false, false, map[])
  const Right := Window(2, "B", "x", 20, false, false, map[])
  const LeftSpace := Workspace(10, 1, None, Some("DP-1"), true, true, Some(1), map[])
  const RightSpace := Workspace(20, 1, None, Some("HDMI-1"), true, false, Some(2), map[])
  const TwoOutputs := NiriState([Right, Left], [LeftSpace, RightSpace])

  /** The lookups the window picker makes on this snapshot. */
  lemma TwoOutputsLookups()
    ensures TwoOutputs.WorkspaceById(10) == Some(LeftSpace)
    ensures TwoOutputs.WorkspaceById(20) == Some(RightSpace)
    ensures Candidates(TwoOutputs, []) == [Right, Left]
    ensures WorkspacesKnown(TwoOutputs, Candidates(TwoOutputs, []))
  {
    var s := TwoOutputs.workspaces;
    assert s == [LeftSpace, RightSpace] && s[0].id == 10 && s[1].id == 20;
    WorkspaceByIdIsLast(TwoOutputs, 10);
    WorkspaceByIdIsLast(TwoOutputs, 20);
  }

  /** A rearrangement of two distinct values is one of their two orders. */
  lemma TwoOrders<T>(r: seq<T>, a: T, b: T)
    requires multiset(r) == multiset{a, b} && a != b
    ensures r == [a, b] || r == [b, a]
  {
    assert |r| == |multiset(r)| == 2;
    assert r[0] in multiset(r) && r[1] in multiset(r);
  }

  /** The window on the focused workspace comes first. */
  lemma TwoOutputsOrder()
    ensures WorkspacesKnown(TwoOutputs, Candidates(TwoOutputs, []))
    ensures SessionWindows(TwoOutputs, false, []) == [Left, Right]
  {
    TwoOutputsLookups();
    assert WorkspaceOf(TwoOutputs, Left).isFocused && !WorkspaceOf(TwoOutputs, Right).isFocused;
    var r := SessionWindows(TwoOutputs, false, []);
    TwoOrders(r, Left, Right);
    WindowOrder(TwoOutputs, false, [], 0, 1);
  }

  lemma LeftLabel()
    ensures WindowLabel(Left, Some(LeftSpace), true, true) == "A (@1 / DP-1)"
  {
    LabelWithOutput(Left, LeftSpace);
    assert LeftSpace.DisplayName() == "1";
    assert FocusMark(false) + "A" + " (@" + "1" + " / " + "DP-1" + ")" == "A (@1 / DP-1)";
  }

  lemma RightLabel()
    ensures WindowLabel(Right, Some(RightSpace), true, true) == "B (@1 / HDMI-1)"
  {
    LabelWithOutput(Right, RightSpace);
    assert RightSpace.DisplayName() == "1";
    assert FocusMark(false) + "B" + " (@" + "1" + " / " + "HDMI-1" + ")" == "B (@1 / HDMI-1)";
  }

  /** The two windows differ in workspace and in output. */
  lemma TwoOutputsFlags()
    ensures WorkspacesKnown(TwoOutputs, [Left, Right])
    ensures MultipleWorkspaces([Left, Right]) && MultipleOutputs(TwoOutputs, [Left, Right])
  {
    TwoOutputsLookups();
    var r := [Left, Right];
    MultipleWorkspacesIff(r);
    MultipleOutputsIff(TwoOutputs, r);
    assert OutputOf(TwoOutputs, r[0]) != OutputOf(TwoOutputs, r[1]);
  }

  /** Both labels carry their workspace and its output, since the two
      windows differ in both. */
  lemma TwoOutputsLabels()
    ensures WorkspacesKnown(TwoOutputs, Candidates(TwoOutputs, []))
    ensures SessionEntries(TwoOutputs, false, []) == ["A (@1 / DP-1)", "B (@1 / HDMI-1)"]
  {
    TwoOutputsLookups();
    TwoOutputsOrder();
    TwoOutputsFlags();
    LeftLabel();
    RightLabel();
    var r := [Left, Right];
    assert EntryLabel(TwoOutputs, r, Left) == "A (@1 / DP-1)";
    assert EntryLabel(TwoOutputs, r, Right) == "B (@1 / HDMI-1)";
  }

  /** `--workspace '{"output": "DP-9"}'` on a snapshot without that output
      is refused before any picker runs. */
  lemma UnknownOutputAborts()
    ensures WindowFilters(TwoOutputs, WindowOptions(None, None,
              Some(WorkspaceArg("{\"output\": \"DP-9\"}", Mapping([("output", Str("DP-9"))])))))
            == Err(NoWorkspaceMatched)
  {
    var opts := WindowOptions(None, None,
      Some(WorkspaceArg("{\"output\": \"DP-9\"}", Mapping([("output", Str("DP-9"))]))));
    var m := Equals("output", Str("DP-9"));
    var text := opts.workspace.value.text;
    assert text[0] == '{';
    assert text != "@focused" && text != "@active" && text != "@output";
    var entries := [("output", Str("DP-9"))];
    assert EntryMatchers(entries)[0] == m;
    assert EntryMatchers(entries) == [m];
    assert WorkspaceMatchers(TwoOutputs, opts.workspace) == Ok([m]);
    forall ws | ws in TwoOutputs.workspaces ensures !AllMatch([m], ws.AsRecord()) {
      AllMatchSingle(m, ws.AsRecord());
    }
    NoWorkspaceMatchAborts(TwoOutputs, opts);
  }

  /** `--app-id @focused` when no window is focused: the window picker is
      built on an empty snapshot and offers nothing. */
  lemma NoFocusedApp()
    ensures WindowFilters(TwoOutputs, WindowOptions(Some("@focused"), None, None)) == Ok(Assembly(Empty, []))
    ensures WorkspacesKnown(Empty, Candidates(Empty, []))
    ensures SessionEntries(Empty, false, []) == []
  {
    assert TwoOutputs.windows == [Right, Left];
    FocusedWindowIsFirst(TwoOutputs);
    assert TwoOutputs.FocusedWindow() == None;
    assert AppIdRule(TwoOutputs, Some("@focused")) == Assembly(Empty, []);
    var none: seq<Matcher> := [];
    assert none + none + none == none;
  }
}
