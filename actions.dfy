/** What a session's `select` does: compositor actions as values, each with
    the `niri msg action ...` command line it stands for. */
module Actions {
  import opened Wrappers
  import Text

  datatype Action = FocusWindow(id: int) | FocusMonitor(output: string) | FocusWorkspace(idx: int)
  {
    function Argv(): (r: seq<string>)
      ensures |r| >= 5 && r[..3] == ["niri", "msg", "action"]
    {
      match this
      case FocusWindow(id) => ["niri", "msg", "action", "focus-window", "--id", Text.IntToString(id)]
      case FocusMonitor(output) => ["niri", "msg", "action", "focus-monitor", output]
      case FocusWorkspace(idx) => ["niri", "msg", "action", "focus-workspace", Text.IntToString(idx)]
    }
  }

  /** The command line names the action's target: niri reads back the same
      window id, output name or workspace index. */
  lemma ArgvNamesTarget(a: Action)
    ensures a.FocusWindow? ==> |a.Argv()| == 6 && a.Argv()[3] == "focus-window" && a.Argv()[4] == "--id" &&
                               Text.ParseInt(a.Argv()[5]) == a.id
    ensures a.FocusMonitor? ==> |a.Argv()| == 5 && a.Argv()[3] == "focus-monitor" && a.Argv()[4] == a.output
    ensures a.FocusWorkspace? ==> |a.Argv()| == 5 && a.Argv()[3] == "focus-workspace" &&
                                  Text.ParseInt(a.Argv()[4]) == a.idx
  {
    match a
    case FocusWindow(id) => Text.ParseIntToString(id);
    case FocusMonitor(_) =>
    case FocusWorkspace(idx) => Text.ParseIntToString(idx);
  }

  datatype SelectError = IndexOutOfRange(index: int)

  /** The position Python's `s[i]` reads in a list of length `n`: negative
      indices count from the end, anything else out of range raises. Within
      range, the position is `i` modulo `n`, so `i` and `i - n` read the
      same element. */
  function PyIndex(n: nat, i: int): (r: Option<nat>)
    ensures r.Some? <==> -(n as int) <= i < n
    ensures r.Some? ==> r.value < n && r.value == i % n
    ensures 0 <= i < n ==> r == Some(i)
    ensures -(n as int) <= i < 0 ==> r == Some(n + i)
  {
    if 0 <= i < n then Some(i)
    else if -(n as int) <= i < 0 then
      assert i == n * -1 + (n + i);
      Some(n + i)
    else None
  }
}
