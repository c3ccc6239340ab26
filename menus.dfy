/**
 * The two menus of bluetoothctl-launcher.py and the action it then runs:
 * `select_device_via_menu`, `select_action_via_menu` and `perform_action`.
 */
module Menus {
  import opened Wrappers
  import opened PyStr
  import opened Devices
  import opened Process

  // ---------------------------------------------------------- device menu

  /** `[str(d) for d in devices]`: the lines of the device menu, in order. */
  function Displays(devs: seq<Device>): (lines: seq<string>)
    ensures |lines| == |devs|
    ensures forall k :: 0 <= k < |devs| ==> lines[k] == Display(devs[k])
  {
    if devs == [] then [] else [Display(devs[0])] + Displays(devs[1..])
  }

  /**
   * Position of the first device shown as `line`, or `|devs|` when no
   * device is.
   */
  function FirstMatch(devs: seq<Device>, line: string): (k: nat)
    ensures k <= |devs|
    ensures k < |devs| ==> Display(devs[k]) == line
    ensures forall j :: 0 <= j < k ==> Display(devs[j]) != line
    decreases |devs|
  {
    if devs == [] then 0
    else if Display(devs[0]) == line then 0
    else 1 + FirstMatch(devs[1..], line)
  }

  /** The device a picked line resolves to: the first one shown that way. */
  function Resolve(devs: seq<Device>, line: string): (r: Option<Device>)
    ensures r.Some? ==> r.value in devs && Display(r.value) == line
    ensures r.None? <==> forall k :: 0 <= k < |devs| ==> Display(devs[k]) != line
  {
    var k := FirstMatch(devs, line);
    if k < |devs| then Some(devs[k]) else None
  }

  /**
   * The scan in `select_device_via_menu`: walk the devices in order and
   * return the first whose display string equals the picked line; `None`
   * when there is none.
   */
  method FindDevice(devs: seq<Device>, line: string) returns (r: Option<Device>)
    ensures r == Resolve(devs, line)
  {
    var i := 0;
    while i < |devs|
      invariant 0 <= i <= |devs|
      invariant forall j :: 0 <= j < i ==> Display(devs[j]) != line
    {
      if line == Display(devs[i]) {
        return Some(devs[i]);
      }
      i := i + 1;
    }
    return None;
  }

  /** `select_device_via_menu(devices)` answered by the script `rs`. */
  function PickDevice(devs: seq<Device>, rs: seq<Reply>): (s: Stage<Option<Device>>)
    ensures s.result.Starved? <==> rs == []
    ensures s.calls == if rs == [] then [] else [FzfCall(JoinLines(Displays(devs)))]
    ensures rs != [] && rs[0].code == FzfCancelled ==> s.result == Normal(None)
    ensures rs != [] && rs[0].code == 0 ==> s.result == Normal(Resolve(devs, Strip(rs[0].stdout)))
    ensures rs != [] && rs[0].code != 0 && rs[0].code != FzfCancelled ==>
              s.result == Raised(CalledProcessError(rs[0].code, Some(rs[0].stdout), None))
  {
    var picked := SpawnFzf(JoinLines(Displays(devs)), rs);
    match picked.result
    case Starved => Stage(Starved, picked.calls)
    case Raised(e) => Stage(Raised(e), picked.calls)
    case Normal(None) => Stage(Normal(None), picked.calls)
    case Normal(Some(line)) => Stage(Normal(Resolve(devs, line)), picked.calls)
  }

  /**
   * `select_device_via_menu(devices)`: show the devices' lines in `fzf`;
   * `None` when the menu is closed, otherwise the first device shown as the
   * picked line (or `None` if none is).
   */
  method SelectDevice(devs: seq<Device>, rs: seq<Reply>) returns (result: Completion<Option<Device>>, calls: seq<Call>)
    ensures Stage(result, calls) == PickDevice(devs, rs)
  {
    var picked := SpawnFzf(JoinLines(Displays(devs)), rs);
    calls := picked.calls;
    match picked.result
    case Starved =>
      result := Starved;
    case Raised(e) =>
      result := Raised(e);
    case Normal(None) =>
      result := Normal(None);
    case Normal(Some(line)) =>
      var d := FindDevice(devs, line);
      result := Normal(d);
  }

  /** No two devices share an id, and no id holds a `[` (true of Bluetooth addresses). */
  ghost predicate DistinctIds(devs: seq<Device>) {
    && (forall k :: 0 <= k < |devs| ==> NoBracket(devs[k].id))
    && (forall i, j :: 0 <= i < j < |devs| ==> devs[i].id != devs[j].id)
  }

  /** The `k`-th device can be told apart by its line: ids are distinct and its name starts with a non-blank. */
  ghost predicate Pickable(devs: seq<Device>, k: nat) {
    DistinctIds(devs) && k < |devs| && devs[k].name != [] && !IsSpace(devs[k].name[0])
  }

  /**
   * Picking a device's line gets that device back: when ids are distinct and
   * the device's name starts with a non-blank, `fzf` printing its line (plus
   * a newline) resolves to exactly that device, after one `fzf` call.
   */
  lemma PickShownDevice(devs: seq<Device>, k: nat, trailer: string, stderr: string, rest: seq<Reply>)
    requires Pickable(devs, k)
    requires AllSpace(trailer)
    ensures PickDevice(devs, [Reply(0, Display(devs[k]) + trailer, stderr)] + rest)
            == Stage(Normal(Some(devs[k])), [FzfCall(JoinLines(Displays(devs)))])
  {
    var line := Display(devs[k]);
    assert line[0] == devs[k].name[0];
    PickReturnsLine(line, trailer, stderr);
    ShownLineResolves(devs, k);
  }

  /** With distinct ids, a device's own line resolves to that device. */
  lemma ShownLineResolves(devs: seq<Device>, k: nat)
    requires DistinctIds(devs) && k < |devs|
    ensures Resolve(devs, Display(devs[k])) == Some(devs[k])
  {
    var m := FirstMatch(devs, Display(devs[k]));
    if m != k {
      assert m < k;
      DisplayInjective(devs[m], devs[k]);
    }
  }

  /**
   * A device whose name is empty or starts with whitespace can never be
   * picked: its display string starts with whitespace, and `fzf`'s output is
   * stripped before the lookup, so it never equals that display string.
   */
  lemma BlankNamedDeviceUnpickable(devs: seq<Device>, k: nat, r: Reply, rest: seq<Reply>)
    requires k < |devs| && (devs[k].name == [] || IsSpace(devs[k].name[0]))
    ensures PickDevice(devs, [r] + rest).result != Normal(Some(devs[k]))
  {
    var s := PickDevice(devs, [r] + rest);
    if s.result.Normal? && s.result.value.Some? {
      var line := Strip(r.stdout);
      var m := FirstMatch(devs, line);
      assert Display(devs[m]) == line;
      assert !IsSpace(Display(devs[m])[0]);
      if devs[k].name == [] {
        assert Display(devs[k])[0] == ' ';
      } else {
        assert Display(devs[k])[0] == devs[k].name[0];
      }
    }
  }

  // ---------------------------------------------------------- action menu

  /**
   * The three actions offered for a device, in a fixed order: undo or do
   * the connection, the pairing, the trust.
   */
  function ActionLabels(d: Device): (labels: seq<string>)
  {
    [ if d.connected then "Disconnect" else "Connect",
      if d.paired then "Remove" else "Pair",
      if d.trusted then "Untrust" else "Trust" ]
  }

  /**
   * The action menu is always three labels, and each label depends on its
   * own flag only: the first on the connection, the second on the pairing,
   * the third on the trust. So two devices get the same menu exactly when
   * they agree on all three flags.
   */
  lemma ActionLabelsDetermineFlags(d1: Device, d2: Device)
    ensures |ActionLabels(d1)| == 3
    ensures ActionLabels(d1)[0] == ActionLabels(d2)[0] <==> d1.connected == d2.connected
    ensures ActionLabels(d1)[1] == ActionLabels(d2)[1] <==> d1.paired == d2.paired
    ensures ActionLabels(d1)[2] == ActionLabels(d2)[2] <==> d1.trusted == d2.trusted
    ensures ActionLabels(d1) == ActionLabels(d2) <==>
              d1.connected == d2.connected && d1.paired == d2.paired && d1.trusted == d2.trusted
  {
    if ActionLabels(d1) == ActionLabels(d2) {
      assert ActionLabels(d1)[0] == ActionLabels(d2)[0];
      assert ActionLabels(d1)[1] == ActionLabels(d2)[1];
      assert ActionLabels(d1)[2] == ActionLabels(d2)[2];
    }
  }

  /** `select_action_via_menu(device)`: show the three labels in `fzf`. */
  function PickAction(d: Device, rs: seq<Reply>): (s: Stage<Option<string>>)
    ensures s.result.Starved? <==> rs == []
    ensures s.calls == if rs == [] then [] else [FzfCall(JoinLines(ActionLabels(d)))]
    ensures rs != [] ==> s.result == ClassifyPick(rs[0])
  {
    SpawnFzf(JoinLines(ActionLabels(d)), rs)
  }

  /** Picking a label in the action menu gets that label back. */
  lemma PickOfferedAction(d: Device, k: nat, trailer: string, stderr: string, rest: seq<Reply>)
    requires k < 3 && AllSpace(trailer)
    ensures PickAction(d, [Reply(0, ActionLabels(d)[k] + trailer, stderr)] + rest).result == Normal(Some(ActionLabels(d)[k]))
  {
    var l := ActionLabels(d)[k];
    assert l[0] != ' ' && l[|l| - 1] != ' ';
    assert !IsSpace(l[0]) && !IsSpace(l[|l| - 1]);
    PickReturnsLine(l, trailer, stderr);
  }

  // -------------------------------------------------------- command table

  /** The command table of `perform_action` for the device `id`. */
  function Commands(id: string): map<string, seq<string>> {
    map[
      "Disconnect" := ["bluetoothctl", "disconnect", id],
      "Connect" := ["bluetoothctl", "connect", id],
      "Trust" := ["bluetoothctl", "trust", id],
      "Untrust" := ["bluetoothctl", "untrust", id],
      "Pair" := ["bluetoothctl", "pair", id],
      "Remove" := ["bluetoothctl", "remove", id]
    ]
  }

  /** The six actions the table knows. */
  const Actions: set<string> := {"Disconnect", "Connect", "Trust", "Untrust", "Pair", "Remove"}

  /**
   * The table knows exactly six actions, and each runs `bluetoothctl` with
   * the action's name in lower case and the device id as its only argument.
   */
  lemma CommandTableShape(id: string)
    ensures Commands(id).Keys == Actions
    ensures forall a :: a in Actions ==> Commands(id)[a] == ["bluetoothctl", Lower(a), id]
  {
    LowerAction("Disconnect", "disconnect");
    LowerAction("Connect", "connect");
    LowerAction("Trust", "trust");
    LowerAction("Untrust", "untrust");
    LowerAction("Pair", "pair");
    LowerAction("Remove", "remove");
  }

  lemma LowerAction(a: string, lower: string)
    requires |a| == |lower| && |a| > 0
    requires 'A' <= a[0] <= 'Z' && lower[0] as int == a[0] as int + 32
    requires a[1..] == lower[1..] && forall k :: 0 < k < |a| ==> 'a' <= a[k] <= 'z'
    ensures Lower(a) == lower
  {
  }

  /** Every label the action menu offers is a key of the command table. */
  lemma OfferedActionsKnown(d: Device)
    ensures forall l :: l in ActionLabels(d) ==> l in Commands(d.id)
  {
  }

  /** `perform_action(device, action)` answered by the script `rs`. */
  function PerformAction(d: Device, action: string, rs: seq<Reply>): (s: Stage<()>)
    ensures action !in Actions ==> s == Stage(Raised(KeyError(action)), [])
    ensures action in Actions ==> s.calls == if rs == [] then [] else [Call(Commands(d.id)[action], None)]
    ensures action in Actions && rs != [] ==> (s.result.Normal? <==> rs[0].code == 0)
    ensures action in Actions && rs != [] && rs[0].code != 0 ==> s.result == Raised(CalledProcessError(rs[0].code, None, None))
  {
    var commands := Commands(d.id);
    if action !in commands then Stage(Raised(KeyError(action)), [])
    else
      var ran := Run(Call(commands[action], None), rs, CaptureNone);
      match ran.result
      case Starved => Stage(Starved, ran.calls)
      case Raised(e) => Stage(Raised(e), ran.calls)
      case Normal(_) => Stage(Normal(()), ran.calls)
  }
}
