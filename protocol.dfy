/**
 * The `__main__` loop of bluetoothctl-launcher.py seen as a state machine
 * over what it does: list the devices (`bluetoothctl devices`, then one
 * `bluetoothctl info` per device), open the device menu, open the action
 * menu, run the action.  A reported `CalledProcessError` starts over from
 * the listing, and so does a closed action menu; a closed device menu and a
 * successful action end the run.  `Walk` replays a run's events on this
 * machine; the lemmas below show that every run of the launcher is accepted
 * and that the phase it ends in matches the way it ended.
 */
module Protocol {
  import opened Wrappers
  import opened PyStr
  import opened Devices
  import opened Process
  import opened Listing
  import opened Menus
  import opened MainLoop

  /** Where the launcher is between two events. */
  datatype Phase =
    | Idle            // at the top of the loop: nothing run yet, or an error just reported
    | Listed          // `get_devices` under way
    | DeviceMenuOpen  // the device menu was shown
    | ActionMenuOpen  // the action menu was shown
    | Executed        // the action's command was run

  /** The verbs of the command table. */
  const Verbs: set<string> := {"disconnect", "connect", "trust", "untrust", "pair", "remove"}

  /** A `bluetoothctl <verb> <id>` call that `perform_action` makes. */
  predicate IsActionCommand(c: Call) {
    |c.argv| == 3 && c.argv[0] == "bluetoothctl" && c.argv[1] in Verbs && c.input.None?
  }

  /** An `fzf` menu, fed its lines on standard input. */
  predicate IsMenuCall(c: Call) {
    c.argv == ["fzf"] && c.input.Some?
  }

  /** One step of the machine; `None` where the event may not happen in phase `p`. */
  function Next(p: Phase, e: Event): Option<Phase> {
    match e
    case Reported(err) =>
      if p != Idle && err.CalledProcessError? then Some(Idle) else None
    case Ran(c) =>
      if c == ListCall() then
        if p == Idle || p == ActionMenuOpen then Some(Listed) else None
      else if IsInfoCall(c) then
        if p == Listed then Some(Listed) else None
      else if IsMenuCall(c) then
        if p == Listed then Some(DeviceMenuOpen)
        else if p == DeviceMenuOpen then Some(ActionMenuOpen)
        else None
      else if IsActionCommand(c) then
        if p == ActionMenuOpen then Some(Executed) else None
      else None
  }

  /** The events `evs` replayed from phase `p`: the phase reached, or `None` if one is not allowed. */
  function Walk(p: Phase, evs: seq<Event>): Option<Phase>
    decreases |evs|
  {
    if evs == [] then Some(p)
    else match Next(p, evs[0])
      case None => None
      case Some(q) => Walk(q, evs[1..])
  }

  function WalkFrom(o: Option<Phase>, evs: seq<Event>): Option<Phase> {
    match o
    case None => None
    case Some(p) => Walk(p, evs)
  }

  lemma {:induction false} WalkAppend(p: Phase, a: seq<Event>, b: seq<Event>)
    ensures Walk(p, a + b) == WalkFrom(Walk(p, a), b)
    decreases |a|
  {
    if a == [] {
      assert a + b == b;
    } else {
      assert (a + b)[0] == a[0];
      assert (a + b)[1..] == a[1..] + b;
      match Next(p, a[0])
      case None =>
      case Some(q) => WalkAppend(q, a[1..], b);
    }
  }

  lemma WalkSnoc(p: Phase, evs: seq<Event>, e: Event)
    ensures Walk(p, evs + [e]) == if Walk(p, evs).None? then None else Next(Walk(p, evs).value, e)
  {
    WalkAppend(p, evs, [e]);
    if Walk(p, evs).Some? {
      var q := Walk(p, evs).value;
      assert [e][1..] == [];
      assert Walk(q, [e]) == WalkFrom(Next(q, e), []);
    }
  }

  /**
   * What the phase says about the last event: the machine is `Executed`
   * right after an action command, `Idle` right after a reported error,
   * and a menu phase right after an `fzf` call.
   */
  lemma {:induction false} WalkLast(p: Phase, evs: seq<Event>)
    requires evs != [] && Walk(p, evs).Some?
    ensures var last := evs[|evs| - 1];
            && (Walk(p, evs).value == Executed <==> last.Ran? && IsActionCommand(last.call))
            && (Walk(p, evs).value == Idle <==> last.Reported?)
            && (Walk(p, evs).value in {DeviceMenuOpen, ActionMenuOpen} <==> last.Ran? && IsMenuCall(last.call))
  {
    var init := evs[..|evs| - 1];
    assert evs == init + [evs[|evs| - 1]];
    WalkSnoc(p, init, evs[|evs| - 1]);
  }

  /** A run of one program, allowed in phase `q`. */
  lemma OneCallWalk(p: Phase, ev: seq<Event>, c: Call, q: Phase, r: Phase)
    requires Walk(p, ev) == Some(q) && Next(q, Ran(c)) == Some(r)
    ensures Walk(p, ev + Log([c])) == Some(r)
  {
    assert Log([c]) == [Ran(c)];
    WalkSnoc(p, ev, Ran(c));
  }

  /** How the phase a run ends in matches the way it ends. */
  predicate Ends(x: Exit, q: Phase) {
    match x
    case Finished => q == Executed
    case DeviceMenuClosed => q == DeviceMenuOpen
    case Crashed(e) => (e == ValueError && q == Listed) || (e.KeyError? && q == ActionMenuOpen)
    case OutOfReplies => true
  }

  /** A pass of the loop from `p` is accepted, goes round again only from the top or the action menu, and ends as `Ends` says. */
  predicate Accepted(p: Phase, t: Turn) {
    var w := Walk(p, t.events);
    && w.Some?
    && (t.Again? ==> w.value == Idle || w.value == ActionMenuOpen)
    && (t.Stop? ==> Ends(t.exit, w.value))
  }

  /** `bluetoothctl info` calls keep the machine in `Listed`. */
  lemma {:induction false} InfoCallsWalk(calls: seq<Call>)
    requires forall k :: 0 <= k < |calls| ==> IsInfoCall(calls[k])
    ensures Walk(Listed, Log(calls)) == Some(Listed)
    decreases |calls|
  {
    if calls != [] {
      assert Log(calls)[1..] == Log(calls[1..]);
      InfoCallsWalk(calls[1..]);
    }
  }

  /** `get_devices` takes the machine from the top of the loop or the action menu to `Listed`. */
  lemma ListingWalk(p: Phase, rs: seq<Reply>)
    requires p == Idle || p == ActionMenuOpen
    ensures rs != [] ==> Walk(p, Log(ListDevices(rs).calls)) == Some(Listed)
    ensures rs == [] ==> ListDevices(rs).calls == []
  {
    ListDevicesCalls(rs);
    var calls := ListDevices(rs).calls;
    if rs != [] {
      assert calls == [calls[0]] + calls[1..];
      InfoCallsWalk(calls[1..]);
      assert Log(calls)[1..] == Log(calls[1..]);
    }
  }

  lemma ExceptWalk(p: Phase, e: PyError, ev: seq<Event>, n: nat, q: Phase)
    requires Walk(p, ev) == Some(q) && q != Idle
    requires e.CalledProcessError? || (e == ValueError && q == Listed) || (e.KeyError? && q == ActionMenuOpen)
    ensures Accepted(p, Except(e, ev, n))
  {
    WalkSnoc(p, ev, Reported(e));
  }

  lemma ActionWalk(p: Phase, d: Device, action: string, rs: seq<Reply>, n: nat, ev: seq<Event>)
    requires n <= |rs| && Walk(p, ev) == Some(ActionMenuOpen)
    ensures Accepted(p, Action(d, action, rs, n, ev))
  {
    var done := PerformAction(d, action, rs[n..]);
    if done.calls == [] {
      assert ev + Log(done.calls) == ev;
      if done.result.Raised? {
        ExceptWalk(p, done.result.error, ev, n, ActionMenuOpen);
      }
    } else {
      var c := done.calls[0];
      assert Log(done.calls) == [Ran(c)];
      WalkSnoc(p, ev, Ran(c));
      assert IsActionCommand(c);
      if done.result.Raised? {
        ExceptWalk(p, done.result.error, ev + Log(done.calls), n + 1, Executed);
      }
    }
  }

  lemma ActionMenuWalk(p: Phase, d: Device, rs: seq<Reply>, n: nat, ev: seq<Event>)
    requires n <= |rs| && Walk(p, ev) == Some(DeviceMenuOpen)
    ensures Accepted(p, ActionMenu(d, rs, n, ev))
  {
    var chosen := PickAction(d, rs[n..]);
    var evs := ev + Log(chosen.calls);
    ActionMenuStops(d, rs, n, ev);
    ActionMenuGoesOn(d, rs, n, ev);
    if chosen.calls == [] {
      assert evs == ev;
    } else {
      var c := chosen.calls[0];
      assert Log(chosen.calls) == [Ran(c)];
      WalkSnoc(p, ev, Ran(c));
      match chosen.result
      case Starved =>
      case Raised(e) => ExceptWalk(p, e, evs, n + 1, ActionMenuOpen);
      case Normal(None) =>
      case Normal(Some(action)) => ActionWalk(p, d, action, rs, n + 1, evs);
    }
  }

  /** The action menu's pass when the menu gives no label. */
  lemma ActionMenuStops(d: Device, rs: seq<Reply>, n: nat, ev: seq<Event>)
    requires n <= |rs|
    ensures var chosen := PickAction(d, rs[n..]);
            var evs := ev + Log(chosen.calls);
            var t := ActionMenu(d, rs, n, ev);
            && (chosen.result.Starved? ==> t == Stop(OutOfReplies, evs))
            && (chosen.result.Raised? ==> t == Except(chosen.result.error, evs, n + |chosen.calls|))
  {
  }

  /** The action menu's pass when the menu completes. */
  lemma ActionMenuGoesOn(d: Device, rs: seq<Reply>, n: nat, ev: seq<Event>)
    requires n <= |rs|
    ensures var chosen := PickAction(d, rs[n..]);
            var evs := ev + Log(chosen.calls);
            var t := ActionMenu(d, rs, n, ev);
            && (chosen.result == Normal(None) ==> t == Again(evs, n + |chosen.calls|))
            && (chosen.result.Normal? && chosen.result.value.Some? ==>
                  t == Action(d, chosen.result.value.value, rs, n + |chosen.calls|, evs))
  {
  }

  lemma DeviceMenuWalk(p: Phase, devs: seq<Device>, rs: seq<Reply>, n: nat, ev: seq<Event>)
    requires n <= |rs| && Walk(p, ev) == Some(Listed)
    ensures Accepted(p, DeviceMenu(devs, rs, n, ev))
  {
    var picked := PickDevice(devs, rs[n..]);
    var evs := ev + Log(picked.calls);
    DeviceMenuOutcome(devs, rs, n, ev);
    if picked.calls == [] {
      assert evs == ev;
    } else {
      OneCallWalk(p, ev, FzfCall(JoinLines(Displays(devs))), Listed, DeviceMenuOpen);
      match picked.result
      case Starved =>
      case Raised(e) =>
        ExceptWalk(p, e, evs, n + |picked.calls|, DeviceMenuOpen);
      case Normal(None) =>
      case Normal(Some(d)) =>
        ActionMenuWalk(p, d, rs, n + |picked.calls|, evs);
    }
  }

  /** The device menu's pass, case by case on what the menu gives. */
  lemma DeviceMenuOutcome(devs: seq<Device>, rs: seq<Reply>, n: nat, ev: seq<Event>)
    requires n <= |rs|
    ensures var picked := PickDevice(devs, rs[n..]);
            var evs := ev + Log(picked.calls);
            var t := DeviceMenu(devs, rs, n, ev);
            && (picked.result.Starved? ==> t == Stop(OutOfReplies, evs))
            && (picked.result.Raised? ==> t == Except(picked.result.error, evs, n + |picked.calls|))
            && (picked.result == Normal(None) ==> t == Stop(DeviceMenuClosed, evs))
            && (picked.result.Normal? && picked.result.value.Some? ==>
                  t == ActionMenu(picked.result.value.value, rs, n + |picked.calls|, evs))
  {
  }

  /** Every pass of the loop, started at the top or after a closed action menu, is accepted. */
  lemma RoundWalk(p: Phase, rs: seq<Reply>)
    requires p == Idle || p == ActionMenuOpen
    ensures Accepted(p, Round(rs))
  {
    ListingWalk(p, rs);
    ListDevicesErrors(rs);
    var listed := ListDevices(rs);
    match listed.result
    case Starved =>
    case Raised(e) => ExceptWalk(p, e, Log(listed.calls), |listed.calls|, Listed);
    case Normal(devs) => DeviceMenuWalk(p, devs, rs, |listed.calls|, Log(listed.calls));
  }

  /**
   * Every run of the launcher follows the machine from the top of the loop,
   * and ends in the phase its exit calls for: a successful action right
   * after the action's command, a closed device menu right after the device
   * menu, a `ValueError` during the listing, a `KeyError` after the action
   * menu.
   */
  lemma SessionFollowsProtocol(rs: seq<Reply>)
    ensures Walk(Idle, Session(rs).events).Some?
    ensures Ends(Session(rs).exit, Walk(Idle, Session(rs).events).value)
  {
    SessionWalk(Idle, rs);
  }

  lemma {:induction false} SessionWalk(p: Phase, rs: seq<Reply>)
    requires p == Idle || p == ActionMenuOpen
    ensures Walk(p, Session(rs).events).Some?
    ensures Ends(Session(rs).exit, Walk(p, Session(rs).events).value)
    decreases |rs|
  {
    RoundWalk(p, rs);
    match Round(rs)
    case Stop(x, evs) =>
      SessionStops(rs, x, evs);
    case Again(evs, used) =>
      SessionContinues(rs, [], rs, evs, used);
      var q := Walk(p, evs).value;
      SessionWalk(q, rs[used..]);
      WalkAppend(p, evs, Session(rs[used..]).events);
  }

  /**
   * What may follow what: after a reported error the launcher lists the
   * devices again, and an action's command is the last thing it runs
   * unless the command fails and its error is reported.
   */
  lemma WalkFollowers(p: Phase, evs: seq<Event>, k: nat)
    requires Walk(p, evs).Some? && k + 1 < |evs|
    ensures evs[k].Reported? ==> evs[k + 1] == Ran(ListCall())
    ensures evs[k].Ran? && IsActionCommand(evs[k].call) ==> evs[k + 1].Reported? && evs[k + 1].error.CalledProcessError?
  {
    var init := evs[..k + 1];
    var rest := evs[k + 1..];
    assert evs == init + rest;
    WalkAppend(p, init, rest);
    WalkLast(p, init);
    assert init[k] == evs[k];
    var q := Walk(p, init).value;
    assert Walk(q, rest).Some?;
    assert Next(q, rest[0]).Some?;
  }

  /**
   * The loop's edges, read off every run: a reported `CalledProcessError`
   * is followed by a new listing, and an action's command is followed by
   * nothing but the report of its failure.
   */
  lemma SessionEdges(rs: seq<Reply>, k: nat)
    requires k + 1 < |Session(rs).events|
    ensures var evs := Session(rs).events;
            && (evs[k].Reported? ==> evs[k + 1] == Ran(ListCall()))
            && (evs[k].Ran? && IsActionCommand(evs[k].call) ==> evs[k + 1].Reported? && evs[k + 1].error.CalledProcessError?)
  {
    SessionFollowsProtocol(rs);
    WalkFollowers(Idle, Session(rs).events, k);
  }

  /**
   * A closed action menu starts the loop over: the next thing the launcher
   * runs, if it gets a reply for it, is `bluetoothctl devices`.
   */
  lemma AgainRelists(rs: seq<Reply>)
    requires Round(rs).Again? && Round(rs).used < |rs|
    ensures Session(rs) == Prefixed(Round(rs).events, Session(rs[Round(rs).used..]))
    ensures |Session(rs).events| > |Round(rs).events|
    ensures Session(rs).events[|Round(rs).events|] == Ran(ListCall())
  {
    var t := Round(rs);
    var rest := rs[t.used..];
    SessionContinues(rs, [], rs, t.events, t.used);
    SessionStarts(rest);
    assert Session(rs).events == t.events + Session(rest).events;
  }

  /** A run starts with its first pass of the loop. */
  lemma SessionStarts(rs: seq<Reply>)
    ensures Round(rs).events <= Session(rs).events
  {
    var t := Round(rs);
    if t.Stop? {
      SessionStops(rs, t.exit, t.events);
    } else {
      SessionContinues(rs, [], rs, t.events, t.used);
    }
  }

  /** The rest of a pass ends with a closed device menu exactly when the device menu gives no device. */
  lemma DeviceMenuClosedEvents(devs: seq<Device>, rs: seq<Reply>, n: nat, ev: seq<Event>)
    requires n <= |rs|
    ensures var t := DeviceMenu(devs, rs, n, ev);
            t.Stop? && t.exit == DeviceMenuClosed <==> PickDevice(devs, rs[n..]).result == Normal(None)
    ensures PickDevice(devs, rs[n..]).result == Normal(None) ==>
              DeviceMenu(devs, rs, n, ev) == Stop(DeviceMenuClosed, ev + Log(PickDevice(devs, rs[n..]).calls))
  {
    var picked := PickDevice(devs, rs[n..]);
    match picked.result
    case Starved =>
    case Raised(e) =>
    case Normal(None) =>
    case Normal(Some(d)) =>
  }

  /** None of the listing and menu calls is an action's command. */
  lemma NoActionCommands(calls: seq<Call>)
    requires forall k :: 0 <= k < |calls| ==> calls[k] == ListCall() || IsInfoCall(calls[k]) || IsMenuCall(calls[k])
    ensures forall k :: 0 <= k < |Log(calls)| ==> !(Log(calls)[k].Ran? && IsActionCommand(Log(calls)[k].call))
  {
    forall k | 0 <= k < |calls|
      ensures !IsActionCommand(calls[k])
    {
      assert "info" !in Verbs;
    }
  }

  /**
   * Closing the device menu ends the run right after the listing and the
   * device menu: no action's command has run in that pass of the loop.
   */
  lemma DeviceMenuCloseRunsNothing(rs: seq<Reply>)
    ensures Round(rs).Stop? && Round(rs).exit == DeviceMenuClosed ==>
              forall k :: 0 <= k < |Round(rs).events| ==>
                !(Round(rs).events[k].Ran? && IsActionCommand(Round(rs).events[k].call))
  {
    var listed := ListDevices(rs);
    var ev := Log(listed.calls);
    match listed.result
    case Starved =>
      assert Round(rs) == Stop(OutOfReplies, ev);
    case Raised(e) =>
      assert Round(rs) == Except(e, ev, |listed.calls|);
    case Normal(devs) =>
      var n := |listed.calls|;
      var picked := PickDevice(devs, rs[n..]);
      assert Round(rs) == DeviceMenu(devs, rs, n, ev);
      DeviceMenuClosedEvents(devs, rs, n, ev);
      if picked.result == Normal(None) {
        ListDevicesCalls(rs);
        var calls := listed.calls + picked.calls;
        forall k | 0 <= k < |calls|
          ensures calls[k] == ListCall() || IsInfoCall(calls[k]) || IsMenuCall(calls[k])
        {
          if k >= n {
            assert calls[k] == picked.calls[k - n];
          } else if k > 0 {
            assert IsInfoCall(listed.calls[k]);
          }
        }
        NoActionCommands(calls);
        LogAppend(listed.calls, picked.calls);
        assert Round(rs) == Stop(DeviceMenuClosed, Log(calls));
      }
  }

  /**
   * A failed `bluetoothctl devices` is reported and the loop starts over on
   * the next reply.
   */
  lemma ListingFailureRestarts(r: Reply, rest: seq<Reply>)
    requires r.code != 0
    ensures Session([r] + rest) ==
              Prefixed([Ran(ListCall()), Reported(CalledProcessError(r.code, Some(r.stdout), Some(r.stderr)))], Session(rest))
  {
    var rs := [r] + rest;
    ListDevicesUnlisted(rs);
    assert Log([ListCall()]) == [Ran(ListCall())];
    assert Round(rs) == Again([Ran(ListCall()), Reported(Failure(r, CaptureBoth))], 1);
    SessionContinues(rs, [], rs, Round(rs).events, 1);
    assert rs[1..] == rest;
  }

  /**
   * With no known device, the device menu is empty; closing it ends the run
   * after one listing and one empty menu.
   */
  lemma NoDeviceThenClose(listing: Reply, menu: Reply, rest: seq<Reply>)
    requires listing.code == 0 && AllSpace(listing.stdout)
    requires menu.code == FzfCancelled
    ensures Session([listing, menu] + rest) == Outcome(DeviceMenuClosed, [Ran(ListCall()), Ran(FzfCall(""))])
  {
    var rs := [listing, menu] + rest;
    NoDeviceRound(listing, menu, rest);
    SessionStops(rs, DeviceMenuClosed, [Ran(ListCall()), Ran(FzfCall(""))]);
  }

  lemma NoDeviceRound(listing: Reply, menu: Reply, rest: seq<Reply>)
    requires listing.code == 0 && AllSpace(listing.stdout)
    requires menu.code == FzfCancelled
    ensures Round([listing, menu] + rest) == Stop(DeviceMenuClosed, [Ran(ListCall()), Ran(FzfCall(""))])
  {
    var tail := [menu] + rest;
    var rs := [listing] + tail;
    assert rs[1..] == tail && rs == [listing, menu] + rest;
    EmptyListing(rs);
    var ev := Log([ListCall()]);
    assert ev == [Ran(ListCall())];
    RoundListed(rs);
    assert Round(rs) == DeviceMenu([], rs, 1, ev);
    EmptyMenuClosed(menu, rest);
    DeviceMenuClosedEvents([], rs, 1, ev);
    assert Log([FzfCall("")]) == [Ran(FzfCall(""))];
  }

  /** Once the devices are listed, the pass goes on with the device menu. */
  lemma RoundListed(rs: seq<Reply>)
    requires ListDevices(rs).result.Normal?
    ensures Round(rs) == DeviceMenu(ListDevices(rs).result.value, rs, |ListDevices(rs).calls|, Log(ListDevices(rs).calls))
  {
  }

  lemma EmptyMenuClosed(menu: Reply, rest: seq<Reply>)
    requires menu.code == FzfCancelled
    ensures PickDevice([], [menu] + rest) == Stage(Normal(None), [FzfCall("")])
  {
    assert Displays([]) == [];
  }

  /**
   * Picking the line of a device in the device menu goes on to the action
   * menu for that device.
   */
  lemma DeviceMenuPicked(devs: seq<Device>, k: nat, rs: seq<Reply>, n: nat, ev: seq<Event>, trailer: string, stderr: string)
    requires Pickable(devs, k)
    requires AllSpace(trailer)
    requires n < |rs| && rs[n] == Reply(0, Display(devs[k]) + trailer, stderr)
    ensures DeviceMenu(devs, rs, n, ev) == ActionMenu(devs[k], rs, n + 1, ev + [Ran(FzfCall(JoinLines(Displays(devs))))])
  {
    var menu := FzfCall(JoinLines(Displays(devs)));
    PickShownDeviceAt(devs, k, rs, n, trailer, stderr);
    DeviceMenuNext(devs, devs[k], rs, n, ev, [menu]);
    assert Log([menu]) == [Ran(menu)];
  }

  lemma PickShownDeviceAt(devs: seq<Device>, k: nat, rs: seq<Reply>, n: nat, trailer: string, stderr: string)
    requires Pickable(devs, k)
    requires AllSpace(trailer)
    requires n < |rs| && rs[n] == Reply(0, Display(devs[k]) + trailer, stderr)
    ensures PickDevice(devs, rs[n..]) == Stage(Normal(Some(devs[k])), [FzfCall(JoinLines(Displays(devs)))])
  {
    ReplyAt(rs, n);
    PickShownDevice(devs, k, trailer, stderr, rs[n + 1..]);
  }

  /** The replies from `n` on: the `n`-th, then the rest. */
  lemma ReplyAt(rs: seq<Reply>, n: nat)
    requires n < |rs|
    ensures rs[n..] == [rs[n]] + rs[n + 1..]
  {
  }

  /** A device picked after the calls `calls` leads to the action menu for it. */
  lemma DeviceMenuNext(devs: seq<Device>, d: Device, rs: seq<Reply>, n: nat, ev: seq<Event>, calls: seq<Call>)
    requires n <= |rs| && PickDevice(devs, rs[n..]) == Stage(Normal(Some(d)), calls)
    ensures DeviceMenu(devs, rs, n, ev) == ActionMenu(d, rs, n + |calls|, ev + Log(calls))
  {
    DeviceMenuOutcome(devs, rs, n, ev);
  }

  /** Picking the `j`-th label of the action menu goes on to run that action. */
  lemma ActionMenuPicked(d: Device, j: nat, rs: seq<Reply>, n: nat, ev: seq<Event>, trailer: string, stderr: string)
    requires j < 3 && AllSpace(trailer)
    requires n < |rs| && rs[n] == Reply(0, ActionLabels(d)[j] + trailer, stderr)
    ensures ActionMenu(d, rs, n, ev) == Action(d, ActionLabels(d)[j], rs, n + 1, ev + [Ran(FzfCall(JoinLines(ActionLabels(d))))])
  {
    var menu := FzfCall(JoinLines(ActionLabels(d)));
    PickOfferedActionAt(d, j, rs, n, trailer, stderr);
    ActionMenuNext(d, ActionLabels(d)[j], rs, n, ev, [menu]);
    assert Log([menu]) == [Ran(menu)];
  }

  lemma PickOfferedActionAt(d: Device, j: nat, rs: seq<Reply>, n: nat, trailer: string, stderr: string)
    requires j < 3 && AllSpace(trailer)
    requires n < |rs| && rs[n] == Reply(0, ActionLabels(d)[j] + trailer, stderr)
    ensures PickAction(d, rs[n..]) == Stage(Normal(Some(ActionLabels(d)[j])), [FzfCall(JoinLines(ActionLabels(d)))])
  {
    ReplyAt(rs, n);
    PickOfferedAction(d, j, trailer, stderr, rs[n + 1..]);
  }

  /** A label picked after the calls `calls` leads to running that action. */
  lemma ActionMenuNext(d: Device, action: string, rs: seq<Reply>, n: nat, ev: seq<Event>, calls: seq<Call>)
    requires n <= |rs| && PickAction(d, rs[n..]) == Stage(Normal(Some(action)), calls)
    ensures ActionMenu(d, rs, n, ev) == Action(d, action, rs, n + |calls|, ev + Log(calls))
  {
  }

  /**
   * An offered action whose command succeeds ends the loop, right after
   * `bluetoothctl <action in lower case> <id>`.
   */
  lemma ActionSucceeds(d: Device, j: nat, rs: seq<Reply>, n: nat, ev: seq<Event>)
    requires j < 3 && n < |rs| && rs[n].code == 0
    ensures Action(d, ActionLabels(d)[j], rs, n, ev) ==
              Stop(Finished, ev + [Ran(Call(["bluetoothctl", Lower(ActionLabels(d)[j]), d.id], None))])
  {
    var a := ActionLabels(d)[j];
    OfferedActionsKnown(d);
    CommandTableShape(d.id);
    assert a in Actions;
    var c := Call(["bluetoothctl", Lower(a), d.id], None);
    assert PerformAction(d, a, rs[n..]) == Stage(Normal(()), [c]);
    assert Log([c]) == [Ran(c)];
  }

  /**
   * The launcher runs what the user picked: once the devices are listed,
   * picking the line of the `k`-th device and then the `j`-th action, whose
   * command succeeds, ends the loop after exactly the two menus and
   * `bluetoothctl <verb> <id of that device>`.
   */
  lemma PickAndRun(rs: seq<Reply>, k: nat, j: nat, t1: string, e1: string, t2: string, e2: string)
    requires ListDevices(rs).result.Normal?
    requires var devs := ListDevices(rs).result.value;
             Pickable(devs, k)
    requires j < 3 && AllSpace(t1) && AllSpace(t2)
    requires var devs := ListDevices(rs).result.value;
             var n := |ListDevices(rs).calls|;
             && n + 2 < |rs|
             && rs[n] == Reply(0, Display(devs[k]) + t1, e1)
             && rs[n + 1] == Reply(0, ActionLabels(devs[k])[j] + t2, e2)
             && rs[n + 2].code == 0
    ensures var listed := ListDevices(rs);
            var devs := listed.result.value;
            var d := devs[k];
            Round(rs) == Stop(Finished, Log(listed.calls)
              + [Ran(FzfCall(JoinLines(Displays(devs))))]
              + [Ran(FzfCall(JoinLines(ActionLabels(d))))]
              + [Ran(Call(["bluetoothctl", Lower(ActionLabels(d)[j]), d.id], None))])
  {
    var listed := ListDevices(rs);
    RoundListed(rs);
    DeviceMenuPickAndRun(listed.result.value, k, j, rs, |listed.calls|, Log(listed.calls), t1, e1, t2, e2);
  }

  lemma DeviceMenuPickAndRun(devs: seq<Device>, k: nat, j: nat, rs: seq<Reply>, n: nat, ev: seq<Event>,
                             t1: string, e1: string, t2: string, e2: string)
    requires Pickable(devs, k)
    requires j < 3 && AllSpace(t1) && AllSpace(t2)
    requires n + 2 < |rs|
    requires rs[n] == Reply(0, Display(devs[k]) + t1, e1)
    requires rs[n + 1] == Reply(0, ActionLabels(devs[k])[j] + t2, e2)
    requires rs[n + 2].code == 0
    ensures DeviceMenu(devs, rs, n, ev) == Stop(Finished, ev
              + [Ran(FzfCall(JoinLines(Displays(devs))))]
              + [Ran(FzfCall(JoinLines(ActionLabels(devs[k]))))]
              + [Ran(Call(["bluetoothctl", Lower(ActionLabels(devs[k])[j]), devs[k].id], None))])
  {
    DeviceMenuPicked(devs, k, rs, n, ev, t1, e1);
    ActionMenuPickAndRun(devs[k], j, rs, n + 1, ev + [Ran(FzfCall(JoinLines(Displays(devs))))], t2, e2);
  }

  /** Picking the `j`-th label, whose command succeeds, ends the loop after the menu and the command. */
  lemma ActionMenuPickAndRun(d: Device, j: nat, rs: seq<Reply>, n: nat, ev: seq<Event>, t2: string, e2: string)
    requires j < 3 && AllSpace(t2)
    requires n + 1 < |rs|
    requires rs[n] == Reply(0, ActionLabels(d)[j] + t2, e2)
    requires rs[n + 1].code == 0
    ensures ActionMenu(d, rs, n, ev) == Stop(Finished, ev
              + [Ran(FzfCall(JoinLines(ActionLabels(d))))]
              + [Ran(Call(["bluetoothctl", Lower(ActionLabels(d)[j]), d.id], None))])
  {
    ActionMenuPicked(d, j, rs, n, ev, t2, e2);
    ActionSucceeds(d, j, rs, n + 1, ev + [Ran(FzfCall(JoinLines(ActionLabels(d))))]);
  }

  // ----------------------------------------------- cancels and failures

  /** Closing the device menu, whatever it showed, ends the run with the events so far. */
  lemma DeviceMenuCloseEndsRun(rs: seq<Reply>)
    requires ListDevices(rs).result.Normal?
    requires |ListDevices(rs).calls| < |rs| && rs[|ListDevices(rs).calls|].code == FzfCancelled
    ensures var listed := ListDevices(rs);
            Session(rs) == Outcome(DeviceMenuClosed,
                                   Log(listed.calls) + [Ran(FzfCall(JoinLines(Displays(listed.result.value))))])
  {
    var listed := ListDevices(rs);
    RoundListed(rs);
    SessionStops(rs, DeviceMenuClosed, Log(listed.calls) + [Ran(FzfCall(JoinLines(Displays(listed.result.value))))]);
  }

  /** An `fzf` failure in the device menu is reported and the loop starts over. */
  lemma DeviceMenuFails(devs: seq<Device>, rs: seq<Reply>, n: nat, ev: seq<Event>)
    requires n < |rs| && rs[n].code != 0 && rs[n].code != FzfCancelled
    ensures DeviceMenu(devs, rs, n, ev) ==
              Again(ev + [Ran(FzfCall(JoinLines(Displays(devs))))]
                       + [Reported(CalledProcessError(rs[n].code, Some(rs[n].stdout), None))], n + 1)
  {
    LogOne(FzfCall(JoinLines(Displays(devs))));
  }

  /** An `fzf` failure in the action menu is reported and the loop starts over. */
  lemma ActionMenuFails(d: Device, rs: seq<Reply>, n: nat, ev: seq<Event>)
    requires n < |rs| && rs[n].code != 0 && rs[n].code != FzfCancelled
    ensures ActionMenu(d, rs, n, ev) ==
              Again(ev + [Ran(FzfCall(JoinLines(ActionLabels(d))))]
                       + [Reported(CalledProcessError(rs[n].code, Some(rs[n].stdout), None))], n + 1)
  {
    LogOne(FzfCall(JoinLines(ActionLabels(d))));
  }

  /** A failing action command is reported, with no captured output, and the loop starts over. */
  lemma ActionFails(d: Device, a: string, rs: seq<Reply>, n: nat, ev: seq<Event>)
    requires a in Actions && n < |rs| && rs[n].code != 0
    ensures Action(d, a, rs, n, ev) ==
              Again(ev + [Ran(Call(Commands(d.id)[a], None))]
                       + [Reported(CalledProcessError(rs[n].code, None, None))], n + 1)
  {
    LogOne(Call(Commands(d.id)[a], None));
  }

  /** A label the table does not know raises `KeyError`, which ends the run without a call. */
  lemma ActionUnknown(d: Device, a: string, rs: seq<Reply>, n: nat, ev: seq<Event>)
    requires a !in Actions && n <= |rs|
    ensures Action(d, a, rs, n, ev) == Stop(Crashed(KeyError(a)), ev)
  {
    assert Log([]) == [];
    assert ev + [] == ev;
  }

  /**
   * A failing `bluetoothctl info` for the first listed device is reported
   * and the loop starts over after the listing and that one call.
   */
  lemma InfoFails(rs: seq<Reply>, id: string, name: string)
    requires |rs| >= 2 && rs[0].code == 0 && rs[1].code != 0
    requires ListingLines(rs[0].stdout) != [] && ParseLine(ListingLines(rs[0].stdout)[0]) == Some((id, name))
    ensures Round(rs) ==
              Again([Ran(ListCall())] + [Ran(InfoCall(id))]
                      + [Reported(CalledProcessError(rs[1].code, Some(rs[1].stdout), Some(rs[1].stderr)))], 2)
  {
    InfoFailsListing(rs, id, name);
    LogAppend([ListCall()], [InfoCall(id)]);
    LogOne(ListCall());
    LogOne(InfoCall(id));
  }

  lemma InfoFailsListing(rs: seq<Reply>, id: string, name: string)
    requires |rs| >= 2 && rs[0].code == 0 && rs[1].code != 0
    requires ListingLines(rs[0].stdout) != [] && ParseLine(ListingLines(rs[0].stdout)[0]) == Some((id, name))
    ensures ListDevices(rs) == Stage(Raised(Failure(rs[1], CaptureBoth)), [ListCall()] + [InfoCall(id)])
  {
    ListDevicesListed(rs);
    InspectStops(ListingLines(rs[0].stdout), rs[1..]);
  }

  /**
   * Picking a device and then closing the action menu starts the loop over
   * after the two menus, with the replies not yet used.
   */
  lemma PickThenCancel(rs: seq<Reply>, k: nat, t1: string, e1: string)
    requires ListDevices(rs).result.Normal?
    requires Pickable(ListDevices(rs).result.value, k) && AllSpace(t1)
    requires var devs := ListDevices(rs).result.value;
             var n := |ListDevices(rs).calls|;
             && n + 1 < |rs|
             && rs[n] == Reply(0, Display(devs[k]) + t1, e1)
             && rs[n + 1].code == FzfCancelled
    ensures var listed := ListDevices(rs);
            var devs := listed.result.value;
            Round(rs) == Again(Log(listed.calls)
                                 + [Ran(FzfCall(JoinLines(Displays(devs))))]
                                 + [Ran(FzfCall(JoinLines(ActionLabels(devs[k]))))], |listed.calls| + 2)
  {
    var listed := ListDevices(rs);
    var devs := listed.result.value;
    RoundListed(rs);
    DeviceMenuPicked(devs, k, rs, |listed.calls|, Log(listed.calls), t1, e1);
  }

  /**
   * After a device is picked and the action menu closed, the run goes on
   * with a fresh pass over the remaining replies, whose first call is
   * `bluetoothctl devices`.
   */
  lemma PickThenCancelRelists(rs: seq<Reply>, k: nat, t1: string, e1: string)
    requires ListDevices(rs).result.Normal?
    requires Pickable(ListDevices(rs).result.value, k) && AllSpace(t1)
    requires var devs := ListDevices(rs).result.value;
             var n := |ListDevices(rs).calls|;
             && n + 2 < |rs|
             && rs[n] == Reply(0, Display(devs[k]) + t1, e1)
             && rs[n + 1].code == FzfCancelled
    ensures var n := |ListDevices(rs).calls|;
            && Session(rs) == Prefixed(Round(rs).events, Session(rs[n + 2..]))
            && n + 2 < |Session(rs).events|
            && Session(rs).events[n + 2] == Ran(ListCall())
  {
    var listed := ListDevices(rs);
    var devs := listed.result.value;
    var n := |listed.calls|;
    PickThenCancel(rs, k, t1, e1);
    AgainRelists(rs);
  }
}
