/**
 * The window branch of `main`: turning `--app-id`, `--window-matching`
 * and `--workspace` into the rule list the window picker filters with,
 * or into the error that ends the program with status 1.
 */
module Selector {
  import opened Wrappers
  import opened Values
  import opened Seqs
  import opened Matchers
  import opened Niri
  import WindowSession

  /** What `_parse_arg_as_json_dict` makes of an argument: the entries of a
      JSON object in document order, or nothing usable (not JSON, or JSON
      that is not an object). */
  datatype Decoded = NotAMapping | Mapping(entries: seq<(string, Value)>)

  /** A `--workspace` argument: its text, and what it decodes to as JSON. */
  datatype WorkspaceArg = WorkspaceArg(text: string, decoded: Decoded)

  /** The window options of the command line; `None` when not given. */
  datatype WindowOptions = WindowOptions(
    appId: Option<string>,
    windowMatching: Option<Decoded>,
    workspace: Option<WorkspaceArg>)

  /** The three ways the window options are refused; each ends the program
      with status 1. */
  datatype RuleError = InvalidWindowRule | InvalidWorkspaceRule | NoWorkspaceMatched

  /** The snapshot the window picker is built on and its rule list. */
  datatype Assembly = Assembly(niri: NiriState, filters: seq<Matcher>)

  /** A decoded argument is usable when it is an object with at least one
      entry (an empty dict is falsy). */
  predicate Usable(d: Decoded) {
    d.Mapping? && |d.entries| > 0
  }

  /** `DictKeyMatcher(k, v) for k, v in ....items()`. */
  function EntryMatchers(entries: seq<(string, Value)>): (r: seq<Matcher>)
    ensures |r| == |entries|
    ensures forall i :: 0 <= i < |r| ==> r[i] == Equals(entries[i].0, entries[i].1)
  {
    seq(|entries|, i requires 0 <= i < |entries| => Equals(entries[i].0, entries[i].1))
  }

  /** The rules built from an object accept a record exactly when each of
      its entries' keys maps, in the record, to a value equal to the entry's
      (a key the record lacks reads as `None`). */
  lemma EntryMatchersAccept(entries: seq<(string, Value)>, rec: Record)
    ensures AllMatch(EntryMatchers(entries), rec) <==>
            forall i :: 0 <= i < |entries| ==> PyEq(Get(rec, entries[i].0), entries[i].1)
  {
    var r := EntryMatchers(entries);
    assert forall i :: 0 <= i < |entries| ==> (Matches(r[i], rec) <==> PyEq(Get(rec, entries[i].0), entries[i].1));
  }

  /** `match args.app_id`: the app-id rule, and the snapshot to go on with,
      which is emptied when `@focused` finds no focused window. */
  function AppIdRule(niri: NiriState, appId: Option<string>): (r: Assembly) {
    match appId
    case None => Assembly(niri, [])
    case Some(id) =>
      if id == "@focused" then
        match niri.FocusedWindow()
        case Some(f) => Assembly(niri, [Equals("app_id", Str(f.appId))])
        case None => Assembly(Empty, [])
      else Assembly(niri, [Equals("app_id", Str(id))])
  }

  /** `match args.window_matching`. */
  function MatchingRules(windowMatching: Option<Decoded>): (r: Result<seq<Matcher>, RuleError>) {
    match windowMatching
    case None => Ok([])
    case Some(d) => if Usable(d) then Ok(EntryMatchers(d.entries)) else Err(InvalidWindowRule)
  }

  /** `match args.workspace`: the rules a workspace must meet. `@output`
      stands for the focused output only when there is one and it is not
      empty; otherwise the text is read as JSON like any other. */
  function WorkspaceMatchers(niri: NiriState, workspace: Option<WorkspaceArg>): (r: Result<seq<Matcher>, RuleError>) {
    match workspace
    case None => Ok([])
    case Some(arg) =>
      if arg.text == "@focused" then Ok([Equals("is_focused", Bool(true))])
      else if arg.text == "@active" then Ok([Equals("is_active", Bool(true))])
      else if arg.text == "@output" && niri.FocusedOutput().Some? && niri.FocusedOutput().value != "" then
        Ok([OneOf("output", [Str(niri.FocusedOutput().value)])])
      else if Usable(arg.decoded) then Ok(EntryMatchers(arg.decoded.entries))
      else Err(InvalidWorkspaceRule)
  }

  /** Some workspace with this id meets the rules. */
  predicate MatchedWorkspace(niri: NiriState, matchers: seq<Matcher>, id: int) {
    exists ws :: ws in niri.workspaces && AllMatch(matchers, WorkspaceRecord(ws)) && ws.id == id
  }

  /** The ids of some workspaces, as rule values. */
  function IdValues(s: seq<Workspace>): (r: seq<Value>)
    ensures |r| == |s| && forall i :: 0 <= i < |s| ==> r[i] == Int(s[i].id)
  {
    seq(|s|, i requires 0 <= i < |s| => Int(s[i].id))
  }

  /** `{w["id"] for w in filter_by_dict(...)}`: the ids of the workspaces
      that meet the rules, as rule values. An id is listed exactly when some
      workspace with that id meets the rules. */
  function WorkspaceIds(niri: NiriState, matchers: seq<Matcher>): (r: seq<Value>)
    ensures forall v :: v in r ==> v.Int?
    ensures forall id :: Int(id) in r <==> MatchedWorkspace(niri, matchers, id)
  {
    var matched := FilterBy(niri.workspaces, WorkspaceRecord, matchers);
    MatchedIds(niri, matchers, matched);
    IdValues(matched)
  }

  lemma MatchedIds(niri: NiriState, matchers: seq<Matcher>, matched: seq<Workspace>)
    requires matched == FilterBy(niri.workspaces, WorkspaceRecord, matchers)
    ensures forall id :: Int(id) in IdValues(matched) <==> MatchedWorkspace(niri, matchers, id)
  {
    var r := IdValues(matched);
    forall id ensures Int(id) in r <==> MatchedWorkspace(niri, matchers, id) {
      if Int(id) in r {
        var i :| 0 <= i < |r| && r[i] == Int(id);
        var ws := matched[i];
        assert ws in matched;
        assert ws in niri.workspaces && AllMatch(matchers, WorkspaceRecord(ws)) && ws.id == id;
      }
      if MatchedWorkspace(niri, matchers, id) {
        var ws :| ws in niri.workspaces && AllMatch(matchers, WorkspaceRecord(ws)) && ws.id == id;
        assert ws in matched;
        IdValuesHas(matched, ws);
      }
    }
  }

  lemma IdValuesHas(s: seq<Workspace>, ws: Workspace)
    requires ws in s
    ensures Int(ws.id) in IdValues(s)
  {
    var i :| 0 <= i < |s| && s[i] == ws;
    assert IdValues(s)[i] == Int(ws.id);
  }

  /** The workspace branch of the window picker: with workspace rules, a
      single rule that keeps the windows of the matched workspaces; no
      matched workspace aborts. */
  function WorkspaceRule(niri: NiriState, matchers: seq<Matcher>): (r: Result<seq<Matcher>, RuleError>) {
    if matchers == [] then Ok([])
    else
      var ids := WorkspaceIds(niri, matchers);
      if ids == [] then Err(NoWorkspaceMatched) else Ok([OneOf("workspace_id", ids)])
  }

  /** The window branch of `main` up to building the handler: the rules in
      the order they are appended, or the first error met. */
  function WindowFilters(niri: NiriState, opts: WindowOptions): (r: Result<Assembly, RuleError>) {
    var app := AppIdRule(niri, opts.appId);
    match MatchingRules(opts.windowMatching)
    case Err(e) => Err(e)
    case Ok(matching) =>
      match WorkspaceMatchers(app.niri, opts.workspace)
      case Err(e) => Err(e)
      case Ok(wsMatchers) =>
        match WorkspaceRule(app.niri, wsMatchers)
        case Err(e) => Err(e)
        case Ok(wsRule) => Ok(Assembly(app.niri, app.filters + matching + wsRule))
  }

  /** The same branch, step by step: the snapshot may be replaced and the
      rule lists grow by appending, as in `main`. */
  method AssembleWindowFilters(snapshot: NiriState, opts: WindowOptions) returns (r: Result<Assembly, RuleError>)
    ensures r == WindowFilters(snapshot, opts)
  {
    var niri := snapshot;
    var workspaceMatchers: seq<Matcher> := [];
    var windowFilters: seq<Matcher> := [];
    assert forall m: seq<Matcher> :: [] + m == m;

    match opts.appId {
      case None =>
      case Some(id) =>
        if id == "@focused" {
          var focused := niri.FocusedWindow();
          if focused.Some? {
            windowFilters := windowFilters + [Equals("app_id", Str(focused.value.appId))];
          } else {
            niri := Empty;
          }
        } else {
          windowFilters := windowFilters + [Equals("app_id", Str(id))];
        }
    }
    var app := AppIdRule(snapshot, opts.appId);
    assert niri == app.niri && windowFilters == app.filters;

    match opts.windowMatching {
      case None =>
      case Some(d) =>
        if Usable(d) {
          windowFilters := windowFilters + EntryMatchers(d.entries);
        } else {
          return Err(InvalidWindowRule);
        }
    }
    assert MatchingRules(opts.windowMatching).Ok?;
    assert windowFilters == app.filters + MatchingRules(opts.windowMatching).value;

    match opts.workspace {
      case None =>
      case Some(arg) =>
        if arg.text == "@focused" {
          workspaceMatchers := workspaceMatchers + [Equals("is_focused", Bool(true))];
        } else if arg.text == "@active" {
          workspaceMatchers := workspaceMatchers + [Equals("is_active", Bool(true))];
        } else if arg.text == "@output" && niri.FocusedOutput().Some? && niri.FocusedOutput().value != "" {
          workspaceMatchers := workspaceMatchers + [OneOf("output", [Str(niri.FocusedOutput().value)])];
        } else if Usable(arg.decoded) {
          workspaceMatchers := workspaceMatchers + EntryMatchers(arg.decoded.entries);
        } else {
          return Err(InvalidWorkspaceRule);
        }
    }
    assert WorkspaceMatchers(niri, opts.workspace) == Ok(workspaceMatchers);

    if |workspaceMatchers| > 0 {
      var ids := WorkspaceIds(niri, workspaceMatchers);
      if |ids| == 0 {
        return Err(NoWorkspaceMatched);
      }
      windowFilters := windowFilters + [OneOf("workspace_id", ids)];
    } else {
      assert windowFilters == windowFilters + [];
    }

    r := Ok(Assembly(niri, windowFilters));
  }

  /** A window meets the workspace rule exactly when its workspace id is
      that of a workspace meeting the workspace rules. */
  lemma WorkspaceRuleMatches(niri: NiriState, matchers: seq<Matcher>, workspaceId: int, rec: Record)
    requires WorkspaceRule(niri, matchers).Ok?
    requires Get(rec, "workspace_id") == Int(workspaceId)
    ensures AllMatch(WorkspaceRule(niri, matchers).value, rec) <==>
            matchers == [] || MatchedWorkspace(niri, matchers, workspaceId)
  {
    if matchers != [] {
      var ids := WorkspaceIds(niri, matchers);
      var rule := OneOf("workspace_id", ids);
      assert WorkspaceRule(niri, matchers).value == [rule];
      assert Int(workspaceId) in ids <==> MatchedWorkspace(niri, matchers, workspaceId);
      AllMatchSingle(rule, rec);
      if Matches(rule, rec) {
        var i :| 0 <= i < |ids| && PyEq(Int(workspaceId), ids[i]);
        assert ids[i] in ids;
      }
      if Int(workspaceId) in ids {
        var i :| 0 <= i < |ids| && ids[i] == Int(workspaceId);
        assert PyEq(Int(workspaceId), ids[i]);
      }
    }
  }

  /** The rule list is the conjunction of its three groups: the app-id rule,
      the `--window-matching` entries, and "the window's workspace meets the
      workspace rules", the last judged on the snapshot kept after `--app-id`. */
  lemma FiltersMeaning(niri: NiriState, opts: WindowOptions, w: Window)
    requires WindowFilters(niri, opts).Ok?
    ensures var app := AppIdRule(niri, opts.appId);
            var a := WindowFilters(niri, opts).value;
            MatchingRules(opts.windowMatching).Ok? && WorkspaceMatchers(app.niri, opts.workspace).Ok? &&
            a.niri == app.niri &&
            (AllMatch(a.filters, w.AsRecord()) <==>
              && AllMatch(app.filters, w.AsRecord())
              && AllMatch(MatchingRules(opts.windowMatching).value, w.AsRecord())
              && (opts.workspace.None? ||
                  MatchedWorkspace(app.niri, WorkspaceMatchers(app.niri, opts.workspace).value, w.workspaceId)))
  {
    var app := AppIdRule(niri, opts.appId);
    var matching := MatchingRules(opts.windowMatching).value;
    var wsMatchers := WorkspaceMatchers(app.niri, opts.workspace).value;
    var wsRule := WorkspaceRule(app.niri, wsMatchers).value;
    AllMatchAppend(app.filters + matching, wsRule, w.AsRecord());
    AllMatchAppend(app.filters, matching, w.AsRecord());
    WorkspaceRuleMatches(app.niri, wsMatchers, w.workspaceId, w.AsRecord());
    assert opts.workspace.Some? ==> wsMatchers != [];
  }

  /** A workspace rule that matches no workspace aborts, and one that
      passes matched at least one. */
  lemma NoWorkspaceMatchAborts(niri: NiriState, opts: WindowOptions)
    requires MatchingRules(opts.windowMatching).Ok?
    requires var app := AppIdRule(niri, opts.appId);
             WorkspaceMatchers(app.niri, opts.workspace).Ok?
    ensures var app := AppIdRule(niri, opts.appId);
            var wsMatchers := WorkspaceMatchers(app.niri, opts.workspace).value;
            (opts.workspace.Some? && forall ws :: ws in app.niri.workspaces ==> !AllMatch(wsMatchers, ws.AsRecord()))
            <==> WindowFilters(niri, opts) == Err(NoWorkspaceMatched)
  {
    var app := AppIdRule(niri, opts.appId);
    var wsMatchers := WorkspaceMatchers(app.niri, opts.workspace).value;
    assert opts.workspace.Some? <==> wsMatchers != [];
    if wsMatchers != [] {
      var ids := WorkspaceIds(app.niri, wsMatchers);
      if ids != [] {
        assert ids[0] in ids;
        assert ids[0] == Int(ids[0].i);
        assert MatchedWorkspace(app.niri, wsMatchers, ids[0].i);
      }
      if exists ws :: ws in app.niri.workspaces && AllMatch(wsMatchers, ws.AsRecord()) {
        var ws :| ws in app.niri.workspaces && AllMatch(wsMatchers, ws.AsRecord());
        assert MatchedWorkspace(app.niri, wsMatchers, ws.id);
        assert Int(ws.id) in ids;
      }
    }
  }

  /** Which options are refused: an unusable `--window-matching` first; then
      a `--workspace` that is neither a keyword that applies nor a usable
      JSON object. */
  lemma RefusedOptions(niri: NiriState, opts: WindowOptions)
    ensures WindowFilters(niri, opts) == Err(InvalidWindowRule) <==>
            opts.windowMatching.Some? && !Usable(opts.windowMatching.value)
    ensures var app := AppIdRule(niri, opts.appId);
            WindowFilters(niri, opts) == Err(InvalidWorkspaceRule) <==>
            && (opts.windowMatching.None? || Usable(opts.windowMatching.value))
            && opts.workspace.Some?
            && opts.workspace.value.text != "@focused" && opts.workspace.value.text != "@active"
            && !(opts.workspace.value.text == "@output" && app.niri.FocusedOutput().Some? &&
                 app.niri.FocusedOutput().value != "")
            && !Usable(opts.workspace.value.decoded)
  {
  }

  /** The workspace keywords: `@focused` keeps the focused workspace,
      `@active` the active ones, and `@output` (when it applies) those on
      the focused output. */
  lemma WorkspaceKeywords(niri: NiriState, arg: WorkspaceArg, ws: Workspace)
    ensures arg.text == "@focused" ==>
              WorkspaceMatchers(niri, Some(arg)).Ok? &&
              (AllMatch(WorkspaceMatchers(niri, Some(arg)).value, ws.AsRecord()) <==> ws.isFocused)
    ensures arg.text == "@active" ==>
              WorkspaceMatchers(niri, Some(arg)).Ok? &&
              (AllMatch(WorkspaceMatchers(niri, Some(arg)).value, ws.AsRecord()) <==> ws.isActive)
    ensures arg.text == "@output" && niri.FocusedOutput().Some? && niri.FocusedOutput().value != "" ==>
              WorkspaceMatchers(niri, Some(arg)).Ok? &&
              (AllMatch(WorkspaceMatchers(niri, Some(arg)).value, ws.AsRecord()) <==> ws.output == niri.FocusedOutput())
  {
    var rec := ws.AsRecord();
    if arg.text == "@focused" {
      AllMatchSingle(Equals("is_focused", Bool(true)), rec);
    } else if arg.text == "@active" {
      AllMatchSingle(Equals("is_active", Bool(true)), rec);
    } else if arg.text == "@output" && niri.FocusedOutput().Some? && niri.FocusedOutput().value != "" {
      var o := niri.FocusedOutput().value;
      AllMatchSingle(OneOf("output", [Str(o)]), rec);
      assert [Str(o)][0] == Str(o);
      assert Get(rec, "output") == OptStr(ws.output);
      assert Matches(OneOf("output", [Str(o)]), rec) <==> PyEq(OptStr(ws.output), Str(o));
      assert PyEq(OptStr(ws.output), Str(o)) <==> ws.output == Some(o) by {
        match ws.output
        case None =>
        case Some(x) =>
      }
    }
  }

  /** `--app-id @focused` without a focused window leaves nothing to pick:
      the snapshot is emptied, so there are no candidates, and any
      `--workspace` rule then matches no workspace and is refused. */
  lemma FocusedAppWithoutFocus(niri: NiriState, opts: WindowOptions)
    requires opts.appId == Some("@focused") && niri.FocusedWindow().None?
    ensures WindowFilters(niri, opts).Ok? ==>
              WindowFilters(niri, opts).value.niri == Empty &&
              WindowSession.Candidates(Empty, WindowFilters(niri, opts).value.filters) == []
    ensures opts.workspace.Some? ==> WindowFilters(niri, opts).Err?
  {
  }

  /** `--app-id @focused` with a focused window keeps the snapshot and only
      windows of the focused window's app; the focused window itself passes
      the app-id rule. */
  lemma FocusedAppKeepsItsApp(niri: NiriState, opts: WindowOptions)
    requires opts.appId == Some("@focused") && niri.FocusedWindow().Some?
    requires WindowFilters(niri, opts).Ok?
    ensures var a := WindowFilters(niri, opts).value;
            a.niri == niri &&
            forall w :: w in WindowSession.Candidates(niri, a.filters) ==> w.appId == niri.FocusedWindow().value.appId
  {
    var a := WindowFilters(niri, opts).value;
    var f := niri.FocusedWindow().value;
    forall w | w in WindowSession.Candidates(niri, a.filters) ensures w.appId == f.appId {
      var rec := w.AsRecord();
      var m := Equals("app_id", Str(f.appId));
      FiltersMeaning(niri, opts, w);
      assert AppIdRule(niri, opts.appId).filters == [m];
      AllMatchSingle(m, rec);
    }
  }

  /** With a `--workspace` rule, every candidate window's workspace is
      known, so the window picker can look each one up. */
  lemma WorkspaceRuleMakesWorkspacesKnown(niri: NiriState, opts: WindowOptions)
    requires opts.workspace.Some?
    requires WindowFilters(niri, opts).Ok?
    ensures var a := WindowFilters(niri, opts).value;
            WindowSession.WorkspacesKnown(a.niri, WindowSession.Candidates(a.niri, a.filters))
  {
    var a := WindowFilters(niri, opts).value;
    forall w | w in WindowSession.Candidates(a.niri, a.filters)
      ensures a.niri.WorkspaceById(w.workspaceId).Some?
    {
      FiltersMeaning(niri, opts, w);
      var ws :| ws in a.niri.workspaces && AllMatch(WorkspaceMatchers(a.niri, opts.workspace).value, WorkspaceRecord(ws)) && ws.id == w.workspaceId;
      WorkspaceByIdFinds(a.niri, ws);
    }
  }
}
