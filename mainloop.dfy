/**
 * The `__main__` block of bluetoothctl-launcher.py: a `while True` loop
 * whose body lists the devices, lets the user pick a device and then an
 * action, and runs it.  Closing the device menu ends the program with
 * status 0; closing the action menu starts over; a failed external program
 * (`CalledProcessError`) is reported, acknowledged with Enter, and the loop
 * starts over; a successful action ends the loop.
 */
module MainLoop {
  import opened Wrappers
  import opened PyStr
  import opened Devices
  import opened Process
  import opened Listing
  import opened Menus

  /** What a run shows of itself: the programs it starts and the errors it reports. */
  datatype Event =
    | Ran(call: Call)          // an external program was started
    | Reported(error: PyError) // the diagnostic was printed and Enter awaited

  /** How a run of the launcher ends. */
  datatype Exit =
    | Finished                 // `break` after a successful action
    | DeviceMenuClosed         // `exit(0)`: no device picked
    | Crashed(error: PyError)  // an exception the loop does not catch
    | OutOfReplies             // the script of replies ran out (the program would be waiting)

  /** The launcher's exit status, where it has exited. */
  function ExitStatus(x: Exit): Option<int> {
    match x
    case Finished => Some(0)
    case DeviceMenuClosed => Some(0)
    case Crashed(_) => Some(1)
    case OutOfReplies => None
  }

  /** One pass through the body of the loop: it ends the run, or the loop goes round again after `used` replies. */
  datatype Turn =
    | Stop(exit: Exit, events: seq<Event>)
    | Again(events: seq<Event>, used: nat)

  /** A whole run: how it ended and what it did. */
  datatype Outcome = Outcome(exit: Exit, events: seq<Event>)

  /** The run `r`, preceded by `events`. */
  function Prefixed(events: seq<Event>, r: Outcome): Outcome {
    Outcome(r.exit, events + r.events)
  }

  lemma PrefixedTwice(e1: seq<Event>, e2: seq<Event>, r: Outcome)
    ensures Prefixed(e1, Prefixed(e2, r)) == Prefixed(e1 + e2, r)
  {
    assert e1 + (e2 + r.events) == e1 + e2 + r.events;
  }

  function Log(calls: seq<Call>): (evs: seq<Event>)
    ensures |evs| == |calls|
    ensures forall k :: 0 <= k < |calls| ==> evs[k] == Ran(calls[k])
  {
    if calls == [] then [] else [Ran(calls[0])] + Log(calls[1..])
  }

  /** One call is logged as one event. */
  lemma LogOne(c: Call)
    ensures Log([c]) == [Ran(c)]
  {
  }

  lemma LogAppend(a: seq<Call>, b: seq<Call>)
    ensures Log(a + b) == Log(a) + Log(b)
  {
    assert forall k :: 0 <= k < |a| + |b| ==> Log(a + b)[k] == (Log(a) + Log(b))[k];
  }

  /**
   * The `except subprocess.CalledProcessError` clause: a failed external
   * program is reported and the loop goes round again; any other exception
   * ends the run.
   */
  function Except(e: PyError, events: seq<Event>, used: nat): (t: Turn)
    ensures e.CalledProcessError? ==> t == Again(events + [Reported(e)], used)
    ensures !e.CalledProcessError? ==> t == Stop(Crashed(e), events)
  {
    if e.CalledProcessError? then Again(events + [Reported(e)], used) else Stop(Crashed(e), events)
  }

  /** The body of the loop, answered by the script `rs`: list the devices, then the device menu. */
  function Round(rs: seq<Reply>): (t: Turn)
    ensures t.Again? ==> 1 <= t.used <= |rs|
    ensures rs != [] ==> t.events != [] && t.events[0] == Ran(ListCall())
  {
    ListDevicesCalls(rs);
    var listed := ListDevices(rs);
    match listed.result
    case Starved => Stop(OutOfReplies, Log(listed.calls))
    case Raised(e) => Except(e, Log(listed.calls), |listed.calls|)
    case Normal(devs) => Resume(AtDeviceMenu(devs), rs, |listed.calls|, Log(listed.calls))
  }

  /** How far the body of the loop has got once the devices are listed. */
  datatype Point =
    | AtDeviceMenu(devs: seq<Device>)        // the device menu is next
    | AtActionMenu(device: Device)           // a device was picked; the action menu is next
    | AtAction(device: Device, action: string) // an action was picked; its command is next

  function Remaining(p: Point): nat {
    match p
    case AtDeviceMenu(_) => 2
    case AtActionMenu(_) => 1
    case AtAction(_, _) => 0
  }

  /**
   * The rest of the body from point `p`, after `n` replies and the events
   * `ev`: the device menu (closing it ends the run), the action menu
   * (closing it goes round again), the action (success ends the run).
   */
  function Resume(p: Point, rs: seq<Reply>, n: nat, ev: seq<Event>): (t: Turn)
    requires n <= |rs|
    ensures t.Again? ==> n < t.used <= |rs|
    ensures ev != [] ==> t.events != [] && t.events[0] == ev[0]
    ensures t.Stop? && t.exit == DeviceMenuClosed ==> p.AtDeviceMenu?
    decreases Remaining(p), 1
  {
    match p
    case AtDeviceMenu(devs) => DeviceMenu(devs, rs, n, ev)
    case AtActionMenu(d) => ActionMenu(d, rs, n, ev)
    case AtAction(d, action) => Action(d, action, rs, n, ev)
  }

  /** `select_device_via_menu`: closing the menu ends the run; a picked device leads to the action menu. */
  function DeviceMenu(devs: seq<Device>, rs: seq<Reply>, n: nat, ev: seq<Event>): (t: Turn)
    requires n <= |rs|
    ensures t.Again? ==> n < t.used <= |rs|
    ensures ev != [] ==> t.events != [] && t.events[0] == ev[0]
    ensures n < |rs| && rs[n].code == FzfCancelled ==>
              t == Stop(DeviceMenuClosed, ev + [Ran(FzfCall(JoinLines(Displays(devs))))])
    decreases Remaining(AtDeviceMenu(devs)), 0
  {
    LogOne(FzfCall(JoinLines(Displays(devs))));
    var picked := PickDevice(devs, rs[n..]);
    var ev' := ev + Log(picked.calls);
    match picked.result
    case Starved => Stop(OutOfReplies, ev')
    case Raised(e) => Except(e, ev', n + |picked.calls|)
    case Normal(None) => Stop(DeviceMenuClosed, ev')
    case Normal(Some(d)) => Resume(AtActionMenu(d), rs, n + |picked.calls|, ev')
  }

  /** `select_action_via_menu`: closing the menu goes round again; a picked label leads to the action. */
  function ActionMenu(d: Device, rs: seq<Reply>, n: nat, ev: seq<Event>): (t: Turn)
    requires n <= |rs|
    ensures t.Again? ==> n < t.used <= |rs|
    ensures ev != [] ==> t.events != [] && t.events[0] == ev[0]
    ensures t.Stop? ==> t.exit != DeviceMenuClosed
    ensures n < |rs| && rs[n].code == FzfCancelled ==>
              t == Again(ev + [Ran(FzfCall(JoinLines(ActionLabels(d))))], n + 1)
    decreases Remaining(AtActionMenu(d)), 0
  {
    LogOne(FzfCall(JoinLines(ActionLabels(d))));
    var chosen := PickAction(d, rs[n..]);
    var ev' := ev + Log(chosen.calls);
    match chosen.result
    case Starved => Stop(OutOfReplies, ev')
    case Raised(e) => Except(e, ev', n + |chosen.calls|)
    case Normal(None) => Again(ev', n + |chosen.calls|)
    case Normal(Some(action)) => Resume(AtAction(d, action), rs, n + |chosen.calls|, ev')
  }

  /** `perform_action`: success ends the run. */
  function Action(d: Device, action: string, rs: seq<Reply>, n: nat, ev: seq<Event>): (t: Turn)
    requires n <= |rs|
    ensures t.Again? ==> n < t.used <= |rs|
    ensures ev != [] ==> t.events != [] && t.events[0] == ev[0]
    ensures t.Stop? ==> t.exit != DeviceMenuClosed
  {
    var done := PerformAction(d, action, rs[n..]);
    var ev' := ev + Log(done.calls);
    match done.result
    case Starved => Stop(OutOfReplies, ev')
    case Raised(e) => Except(e, ev', n + |done.calls|)
    case Normal(_) => Stop(Finished, ev')
  }

  /** The whole `while True` loop, answered by the script `rs`. */
  function Session(rs: seq<Reply>): (r: Outcome)
    ensures rs == [] <==> r == Outcome(OutOfReplies, [])
    ensures rs != [] ==> r.events != [] && r.events[0] == Ran(ListCall())
    decreases |rs|
  {
    match Round(rs)
    case Stop(x, evs) => Outcome(x, evs)
    case Again(evs, used) =>
      Prefixed(evs, Session(rs[used..]))
  }

  /** A pass that ends the run is the whole run. */
  lemma SessionStops(rs: seq<Reply>, x: Exit, evs: seq<Event>)
    requires Round(rs) == Stop(x, evs)
    ensures Session(rs) == Outcome(x, evs)
  {
  }

  /** A pass that goes round again leaves the rest of the run to the replies it did not use. */
  lemma SessionContinues(replies: seq<Reply>, events: seq<Event>, rest: seq<Reply>, evs: seq<Event>, used: nat)
    requires Round(rest) == Again(evs, used)
    requires Session(replies) == Prefixed(events, Session(rest))
    ensures 0 < used <= |rest|
    ensures Session(replies) == Prefixed(events + evs, Session(rest[used..]))
  {
    PrefixedTwice(events, evs, Session(rest[used..]));
  }

  /** One pass through the `try` block of the loop and its `except` clause. */
  method Attempt(rs: seq<Reply>) returns (t: Turn)
    ensures t == Round(rs)
  {
    var devices, calls := GetDevices(rs);
    ListDevicesCalls(rs);
    if devices.Starved? {
      t := Stop(OutOfReplies, Log(calls));
    } else if devices.Raised? {
      t := Except(devices.error, Log(calls), |calls|);
    } else {
      t := AttemptDeviceMenu(devices.value, rs, |calls|, Log(calls));
    }
  }

  /** The `try` block from `select_device_via_menu` on. */
  method AttemptDeviceMenu(devs: seq<Device>, rs: seq<Reply>, n: nat, ev: seq<Event>) returns (t: Turn)
    requires n <= |rs|
    ensures t == DeviceMenu(devs, rs, n, ev)
  {
    var selected, calls := SelectDevice(devs, rs[n..]);
    if selected.Starved? {
      t := Stop(OutOfReplies, ev + Log(calls));
    } else if selected.Raised? {
      t := Except(selected.error, ev + Log(calls), n + |calls|);
    } else if selected.value == None {
      t := Stop(DeviceMenuClosed, ev + Log(calls));
    } else {
      t := AttemptActionMenu(selected.value.value, rs, n + |calls|, ev + Log(calls));
    }
  }

  /** The `try` block from `select_action_via_menu` on. */
  method AttemptActionMenu(d: Device, rs: seq<Reply>, n: nat, ev: seq<Event>) returns (t: Turn)
    requires n <= |rs|
    ensures t == ActionMenu(d, rs, n, ev)
  {
    var chosen := PickAction(d, rs[n..]);
    var events := ev + Log(chosen.calls);
    if chosen.result.Starved? {
      t := Stop(OutOfReplies, events);
    } else if chosen.result.Raised? {
      t := Except(chosen.result.error, events, n + |chosen.calls|);
    } else if chosen.result.value == None {
      t := Again(events, n + |chosen.calls|);
    } else {
      t := AttemptAction(d, chosen.result.value.value, rs, n + |chosen.calls|, events);
    }
  }

  /** The `try` block's last statement, `perform_action(device, action)`. */
  method AttemptAction(d: Device, action: string, rs: seq<Reply>, n: nat, ev: seq<Event>) returns (t: Turn)
    requires n <= |rs|
    ensures t == Action(d, action, rs, n, ev)
  {
    var done := PerformAction(d, action, rs[n..]);
    if done.result.Starved? {
      t := Stop(OutOfReplies, ev + Log(done.calls));
    } else if done.result.Raised? {
      t := Except(done.result.error, ev + Log(done.calls), n + |done.calls|);
    } else {
      t := Stop(Finished, ev + Log(done.calls));
    }
  }

  /**
   * The launcher: run the body of the loop until it ends the run, going
   * round again after a cancelled action menu or a reported error.
   */
  method Launch(replies: seq<Reply>) returns (exit: Exit, events: seq<Event>)
    ensures Outcome(exit, events) == Session(replies)
  {
    var rest := replies;
    events := [];
    assert [] + Session(replies).events == Session(replies).events;
    while true
      invariant Session(replies) == Prefixed(events, Session(rest))
      decreases |rest|
    {
      var turn := Attempt(rest);
      match turn
      case Stop(x, evs) =>
        SessionStops(rest, x, evs);
        exit := x;
        events := events + evs;
        return;
      case Again(evs, used) =>
        SessionContinues(replies, events, rest, evs, used);
        events := events + evs;
        rest := rest[used..];
    }
  }
}
