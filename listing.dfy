/**
 * `get_devices` of bluetoothctl-launcher.py: list the known devices with
 * `bluetoothctl devices`, then ask `bluetoothctl info <id>` about each one
 * and read three status flags out of the answer.
 */
module Listing {
  import opened Wrappers
  import opened PyStr
  import opened Devices
  import opened Process

  /** `bluetoothctl devices`. */
  function ListCall(): Call {
    Call(["bluetoothctl", "devices"], None)
  }

  /** `bluetoothctl info <id>`. */
  function InfoCall(id: string): Call {
    Call(["bluetoothctl", "info", id], None)
  }

  /** A `bluetoothctl info <id>` call. */
  predicate IsInfoCall(c: Call) {
    |c.argv| == 3 && c.argv[0] == "bluetoothctl" && c.argv[1] == "info" && c.input.None?
  }

  const ConnectedMarker := "Connected: yes"
  const PairedMarker := "Paired: yes"
  const TrustedMarker := "Trusted: yes"

  /**
   * `_, id, name = line.split(' ', maxsplit=2)`: the second and third
   * fields, or `None` where the unpacking raises `ValueError`.
   */
  function ParseLine(line: string): Option<(string, string)> {
    var parts := Split(line, ' ', 2);
    if |parts| == 3 then Some((parts[1], parts[2])) else None
  }

  /** A listing line fails to unpack exactly when it holds fewer than two spaces. */
  lemma ParseLineFails(line: string)
    ensures ParseLine(line).None? <==> Count(line, ' ') < 2
  {
    SplitFull(line, ' ', 2);
  }

  predicate NoSpaceChar(s: string) {
    forall k :: 0 <= k < |s| ==> s[k] != ' '
  }

  /**
   * A line `<tag> <id> <name>` gives back the id and the whole name,
   * spaces inside the name included, when tag and id hold no space.
   */
  lemma ParseLineOf(tag: string, id: string, name: string)
    requires NoSpaceChar(tag) && NoSpaceChar(id)
    ensures ParseLine(tag + " " + id + " " + name) == Some((id, name))
  {
    var line := tag + " " + id + " " + name;
    var rest := id + " " + name;
    assert line == tag + " " + rest;
    assert line[|tag|] == ' ';
    FindCharAt(line, ' ', |tag|);
    assert line[..|tag|] == tag && line[|tag| + 1..] == rest;
    assert rest[|id|] == ' ';
    FindCharAt(rest, ' ', |id|);
    assert rest[..|id|] == id && rest[|id| + 1..] == name;
    assert Split(line, ' ', 2) == [tag, id, name];
  }

  /** The device for one listing line, its flags read from its `info` text. */
  function DeviceOf(id: string, name: string, info: string): (d: Device)
    ensures d.id == id && d.name == name
  {
    Device(name, id, Contains(info, ConnectedMarker), Contains(info, PairedMarker), Contains(info, TrustedMarker))
  }

  /**
   * Each flag is set exactly when its own marker occurs somewhere in the
   * `info` text; the three are read independently.
   */
  lemma FlagsFromMarkers(id: string, name: string, info: string)
    ensures DeviceOf(id, name, info).connected <==> exists k :: 0 <= k <= |info| && OccursAt(info, ConnectedMarker, k)
    ensures DeviceOf(id, name, info).paired <==> exists k :: 0 <= k <= |info| && OccursAt(info, PairedMarker, k)
    ensures DeviceOf(id, name, info).trusted <==> exists k :: 0 <= k <= |info| && OccursAt(info, TrustedMarker, k)
  {
    ContainsIff(info, ConnectedMarker);
    ContainsIff(info, PairedMarker);
    ContainsIff(info, TrustedMarker);
  }

  /** `s` run after `devs` were collected by `calls`. */
  function After(devs: seq<Device>, calls: seq<Call>, s: Stage<seq<Device>>): Stage<seq<Device>> {
    Stage(if s.result.Normal? then Normal(devs + s.result.value) else s.result, calls + s.calls)
  }

  /**
   * The `for` loop of `get_devices` over the listing's lines, each line's
   * `info` call answered by the next reply of `rs`; the first failure ends it.
   */
  function Inspect(lines: seq<string>, rs: seq<Reply>): (s: Stage<seq<Device>>)
    ensures |s.calls| <= |rs|
    ensures forall k :: 0 <= k < |s.calls| ==> IsInfoCall(s.calls[k])
    decreases |lines|
  {
    if lines == [] then Stage(Normal([]), [])
    else match ParseLine(lines[0])
      case None => Stage(Raised(ValueError), [])
      case Some((id, name)) =>
        var info := Run(InfoCall(id), rs, CaptureBoth);
        match info.result
        case Starved => Stage(Starved, info.calls)
        case Raised(e) => Stage(Raised(e), info.calls)
        case Normal(r) => After([DeviceOf(id, name, r.stdout)], info.calls, Inspect(lines[1..], rs[1..]))
  }

  /** The lines `get_devices` walks through: the stripped listing, split into lines. */
  function ListingLines(stdout: string): (lines: seq<string>)
    ensures forall k :: 0 <= k < |lines| ==> NoLineBreak(lines[k])
    ensures lines == [] <==> AllSpace(stdout)
  {
    SplitLines(Strip(stdout))
  }

  /** `get_devices()` answered by the script `rs`. */
  function ListDevices(rs: seq<Reply>): (s: Stage<seq<Device>>)
    ensures |s.calls| <= |rs|
    ensures rs != [] ==> |s.calls| >= 1 && s.calls[0] == ListCall()
    ensures s.result.Starved? ==> |s.calls| == |rs|
  {
    var listing := Run(ListCall(), rs, CaptureBoth);
    match listing.result
    case Starved => Stage(Starved, [])
    case Raised(e) => Stage(Raised(e), listing.calls)
    case Normal(r) =>
      var s := Inspect(ListingLines(r.stdout), rs[1..]);
      InspectStarved(ListingLines(r.stdout), rs[1..]);
      Stage(s.result, listing.calls + s.calls)
  }

  /**
   * `get_devices` starts with `bluetoothctl devices` and makes only
   * `bluetoothctl info` calls after it; with no reply at all it makes none.
   */
  lemma ListDevicesCalls(rs: seq<Reply>)
    ensures rs == [] <==> ListDevices(rs) == Stage(Starved, [])
    ensures forall k :: 1 <= k < |ListDevices(rs).calls| ==> IsInfoCall(ListDevices(rs).calls[k])
  {
    ListDevicesUnlisted(rs);
    if rs != [] && rs[0].code == 0 {
      ListedCallsAreInfo(rs);
    }
  }

  lemma ListedCallsAreInfo(rs: seq<Reply>)
    requires rs != [] && rs[0].code == 0
    ensures forall k :: 1 <= k < |ListDevices(rs).calls| ==> IsInfoCall(ListDevices(rs).calls[k])
  {
    ListDevicesListed(rs);
    InfoCallsAfter(ListCall(), Inspect(ListingLines(rs[0].stdout), rs[1..]).calls);
  }

  lemma InfoCallsAfter(first: Call, calls: seq<Call>)
    requires forall k :: 0 <= k < |calls| ==> IsInfoCall(calls[k])
    ensures forall k :: 1 <= k < |[first] + calls| ==> IsInfoCall(([first] + calls)[k])
  {
    forall k | 1 <= k < |[first] + calls| ensures IsInfoCall(([first] + calls)[k]) {
      assert ([first] + calls)[k] == calls[k - 1];
    }
  }

  /**
   * The only exceptions `get_devices` raises: `CalledProcessError` from a
   * `bluetoothctl` call, and `ValueError` from a line that does not unpack.
   */
  lemma ListDevicesErrors(rs: seq<Reply>)
    ensures ListDevices(rs).result.Raised? ==>
              ListDevices(rs).result.error.CalledProcessError? || ListDevices(rs).result.error == ValueError
  {
    if rs != [] && rs[0].code == 0 {
      InspectErrors(ListingLines(rs[0].stdout), rs[1..]);
    }
  }

  lemma {:induction false} InspectErrors(lines: seq<string>, rs: seq<Reply>)
    ensures Inspect(lines, rs).result.Raised? ==>
              Inspect(lines, rs).result.error.CalledProcessError? || Inspect(lines, rs).result.error == ValueError
    decreases |lines|
  {
    if lines != [] && ParseLine(lines[0]).Some? && rs != [] && rs[0].code == 0 {
      InspectErrors(lines[1..], rs[1..]);
    }
  }

  lemma {:induction false} InspectStarved(lines: seq<string>, rs: seq<Reply>)
    ensures Inspect(lines, rs).result.Starved? ==> |Inspect(lines, rs).calls| == |rs|
    decreases |lines|
  {
    if lines != [] && ParseLine(lines[0]).Some? && rs != [] && rs[0].code == 0 {
      InspectStarved(lines[1..], rs[1..]);
    }
  }

  /** One turn of the loop: a line that unpacks and an `info` call that succeeds. */
  lemma InspectStep(lines: seq<string>, rs: seq<Reply>, id: string, name: string)
    requires lines != [] && ParseLine(lines[0]) == Some((id, name))
    requires rs != [] && rs[0].code == 0
    ensures Inspect(lines, rs) == After([DeviceOf(id, name, rs[0].stdout)], [InfoCall(id)], Inspect(lines[1..], rs[1..]))
  {
  }

  /** The loop ends at a line that does not unpack, or at an `info` call that fails or has no reply. */
  lemma InspectStops(lines: seq<string>, rs: seq<Reply>)
    requires lines != []
    ensures ParseLine(lines[0]).None? ==> Inspect(lines, rs) == Stage(Raised(ValueError), [])
    ensures ParseLine(lines[0]).Some? && rs == [] ==> Inspect(lines, rs) == Stage(Starved, [])
    ensures ParseLine(lines[0]).Some? && rs != [] && rs[0].code != 0 ==>
              Inspect(lines, rs) == Stage(Raised(Failure(rs[0], CaptureBoth)), [InfoCall(ParseLine(lines[0]).value.0)])
  {
  }

  /** A listing call that succeeds hands its lines to the loop. */
  lemma ListDevicesListed(rs: seq<Reply>)
    requires rs != [] && rs[0].code == 0
    ensures ListDevices(rs) == After([], [ListCall()], Inspect(ListingLines(rs[0].stdout), rs[1..]))
  {
    var s := Inspect(ListingLines(rs[0].stdout), rs[1..]);
    if s.result.Normal? {
      assert [] + s.result.value == s.result.value;
    }
  }

  /** No listing: no reply at all, or a failed `bluetoothctl devices`. */
  lemma ListDevicesUnlisted(rs: seq<Reply>)
    ensures rs == [] ==> ListDevices(rs) == Stage(Starved, [])
    ensures rs != [] && rs[0].code != 0 ==> ListDevices(rs) == Stage(Raised(Failure(rs[0], CaptureBoth)), [ListCall()])
  {
  }

  lemma AfterNothing(s: Stage<seq<Device>>)
    ensures After([], [], s) == s
  {
    assert [] + s.calls == s.calls;
    if s.result.Normal? {
      assert [] + s.result.value == s.result.value;
    }
  }

  lemma AfterStops(devs: seq<Device>, calls: seq<Call>, s: Stage<seq<Device>>)
    requires !s.result.Normal?
    ensures After(devs, calls, s) == Stage(s.result, calls + s.calls)
  {
  }

  lemma AfterAfter(devs: seq<Device>, calls: seq<Call>, more: seq<Device>, moreCalls: seq<Call>, s: Stage<seq<Device>>)
    ensures After(devs, calls, After(more, moreCalls, s)) == After(devs + more, calls + moreCalls, s)
  {
    assert calls + (moreCalls + s.calls) == calls + moreCalls + s.calls;
    if s.result.Normal? {
      assert devs + (more + s.result.value) == devs + more + s.result.value;
    }
  }

  /**
   * `get_devices()`: one `bluetoothctl devices` call, then the loop over
   * the lines of its stripped output.
   */
  method GetDevices(rs: seq<Reply>) returns (result: Completion<seq<Device>>, calls: seq<Call>)
    ensures Stage(result, calls) == ListDevices(rs)
  {
    var listing := Run(ListCall(), rs, CaptureBoth);
    ListDevicesUnlisted(rs);
    if !listing.result.Normal? {
      result := if listing.result.Starved? then Starved else Raised(listing.result.error);
      calls := listing.calls;
      return;
    }
    ListDevicesListed(rs);
    var found, more := InspectLines(ListingLines(listing.result.value.stdout), rs[1..]);
    result := found;
    calls := [ListCall()] + more;
  }

  /**
   * The `for` loop of `get_devices`: line by line, unpack the line, ask
   * `bluetoothctl info <id>` and append the device; the first failure ends it.
   */
  method InspectLines(lines: seq<string>, rs: seq<Reply>) returns (result: Completion<seq<Device>>, calls: seq<Call>)
    ensures Stage(result, calls) == Inspect(lines, rs)
  {
    var devices: seq<Device> := [];
    calls := [];
    var i := 0;
    assert lines[0..] == lines && rs[0..] == rs;
    AfterNothing(Inspect(lines, rs));
    while i < |lines|
      invariant 0 <= i <= |lines| && i <= |rs| && |calls| == i
      invariant Inspect(lines, rs) == After(devices, calls, Inspect(lines[i..], rs[i..]))
    {
      assert lines[i..][0] == lines[i] && lines[i..][1..] == lines[i + 1..];
      InspectStops(lines[i..], rs[i..]);
      var parsed := ParseLine(lines[i]);
      if parsed.None? {
        result := Raised(ValueError);
        AfterStops(devices, calls, Inspect(lines[i..], rs[i..]));
        assert calls + [] == calls;
        return;
      }
      var (id, name) := parsed.value;
      var status := Run(InfoCall(id), rs[i..], CaptureBoth);
      if !status.result.Normal? {
        AfterStops(devices, calls, Inspect(lines[i..], rs[i..]));
        calls := calls + status.calls;
        result := if status.result.Starved? then Starved else Raised(status.result.error);
        return;
      }
      var d := DeviceOf(id, name, status.result.value.stdout);
      InspectStep(lines[i..], rs[i..], id, name);
      assert rs[i..][1..] == rs[i + 1..];
      AfterAfter(devices, calls, [d], [InfoCall(id)], Inspect(lines[i + 1..], rs[i + 1..]));
      calls := calls + [InfoCall(id)];
      devices := devices + [d];
      i := i + 1;
    }
    assert lines[i..] == [];
    assert Inspect(lines[i..], rs[i..]) == Stage(Normal([]), []);
    assert devices + [] == devices && calls + [] == calls;
    result := Normal(devices);
  }

  ghost predicate Describes(lines: seq<string>, infos: seq<Reply>, devs: seq<Device>) {
    && |devs| == |lines| <= |infos|
    && forall k :: 0 <= k < |lines| ==>
         && ParseLine(lines[k]) == Some((devs[k].id, devs[k].name))
         && devs[k] == DeviceOf(devs[k].id, devs[k].name, infos[k].stdout)
  }

  /** The answers to the first `n` calls all report success. */
  ghost predicate AllSucceed(rs: seq<Reply>, n: nat) {
    n <= |rs| && forall k :: 0 <= k < n ==> rs[k].code == 0
  }

  /** Every line unpacks. */
  ghost predicate AllParse(lines: seq<string>) {
    forall k :: 0 <= k < |lines| ==> ParseLine(lines[k]).Some?
  }

  /** One `info` call per device, with that device's id, in order. */
  ghost predicate AskedEach(calls: seq<Call>, devs: seq<Device>) {
    |calls| == |devs| && forall k :: 0 <= k < |devs| ==> calls[k] == InfoCall(devs[k].id)
  }

  /**
   * The loop over the listing yields devices exactly when every line
   * unpacks and every `info` call succeeds; then it yields one device per
   * line, in order, and made one `info` call per device, with its id.
   */
  lemma InspectNormal(lines: seq<string>, rs: seq<Reply>)
    ensures Inspect(lines, rs).result.Normal? <==> AllParse(lines) && AllSucceed(rs, |lines|)
    ensures Inspect(lines, rs).result.Normal? ==>
              && Describes(lines, rs, Inspect(lines, rs).result.value)
              && AskedEach(Inspect(lines, rs).calls, Inspect(lines, rs).result.value)
  {
    InspectNormalIff(lines, rs);
    if Inspect(lines, rs).result.Normal? {
      InspectDescribes(lines, rs);
    }
  }

  lemma {:induction false} InspectNormalIff(lines: seq<string>, rs: seq<Reply>)
    ensures Inspect(lines, rs).result.Normal? <==> AllParse(lines) && AllSucceed(rs, |lines|)
    decreases |lines|
  {
    if lines != [] {
      InspectStops(lines, rs);
      if ParseLine(lines[0]).Some? && rs != [] && rs[0].code == 0 {
        var (id, name) := ParseLine(lines[0]).value;
        InspectStep(lines, rs, id, name);
        InspectNormalIff(lines[1..], rs[1..]);
        AllParseCons(lines);
        AllSucceedCons(rs, |lines|);
      } else if ParseLine(lines[0]).None? {
        AllParseCons(lines);
      } else if rs != [] {
        AllSucceedCons(rs, |lines|);
      }
    }
  }

  lemma AllParseCons(lines: seq<string>)
    requires lines != []
    ensures AllParse(lines) <==> ParseLine(lines[0]).Some? && AllParse(lines[1..])
  {
    if ParseLine(lines[0]).Some? && AllParse(lines[1..]) {
      forall k | 0 < k < |lines| ensures ParseLine(lines[k]).Some? {
        assert lines[k] == lines[1..][k - 1];
      }
    }
  }

  lemma AllSucceedCons(rs: seq<Reply>, n: nat)
    requires rs != [] && n > 0
    ensures AllSucceed(rs, n) <==> rs[0].code == 0 && AllSucceed(rs[1..], n - 1)
  {
    if rs[0].code == 0 && AllSucceed(rs[1..], n - 1) {
      forall k | 0 < k < n ensures rs[k].code == 0 {
        assert rs[k] == rs[1..][k - 1];
      }
    }
  }

  lemma {:induction false} InspectDescribes(lines: seq<string>, rs: seq<Reply>)
    requires Inspect(lines, rs).result.Normal?
    ensures Describes(lines, rs, Inspect(lines, rs).result.value)
    ensures AskedEach(Inspect(lines, rs).calls, Inspect(lines, rs).result.value)
    decreases |lines|
  {
    if lines != [] {
      InspectStops(lines, rs);
      var (id, name) := ParseLine(lines[0]).value;
      InspectStep(lines, rs, id, name);
      var tail := Inspect(lines[1..], rs[1..]);
      InspectDescribes(lines[1..], rs[1..]);
      DescribesCons(lines, rs, DeviceOf(id, name, rs[0].stdout), tail.result.value);
      AskedEachCons(DeviceOf(id, name, rs[0].stdout), tail.calls, tail.result.value);
    }
  }

  lemma DescribesCons(lines: seq<string>, rs: seq<Reply>, d: Device, devs: seq<Device>)
    requires lines != [] && rs != []
    requires ParseLine(lines[0]) == Some((d.id, d.name)) && d == DeviceOf(d.id, d.name, rs[0].stdout)
    requires Describes(lines[1..], rs[1..], devs)
    ensures Describes(lines, rs, [d] + devs)
  {
    var all := [d] + devs;
    forall k | 0 < k < |lines|
      ensures ParseLine(lines[k]) == Some((all[k].id, all[k].name))
      ensures all[k] == DeviceOf(all[k].id, all[k].name, rs[k].stdout)
    {
      assert lines[k] == lines[1..][k - 1] && rs[k] == rs[1..][k - 1] && all[k] == devs[k - 1];
    }
  }

  lemma AskedEachCons(d: Device, calls: seq<Call>, devs: seq<Device>)
    requires AskedEach(calls, devs)
    ensures AskedEach([InfoCall(d.id)] + calls, [d] + devs)
  {
  }

  /** An empty (or all-whitespace) listing gives an empty device list after one call. */
  lemma EmptyListing(rs: seq<Reply>)
    requires rs != [] && rs[0].code == 0 && AllSpace(rs[0].stdout)
    ensures ListDevices(rs) == Stage(Normal([]), [ListCall()])
  {
  }

  /** The line `bluetoothctl devices` prints for one device. */
  function ListingLine(id: string, name: string): string {
    "Device " + id + " " + name
  }

  /** A listing entry as bluetoothctl prints it: the id holds no space or line break, the name ends in a non-blank. */
  ghost predicate WellFormedEntry(id: string, name: string) {
    && NoSpaceChar(id) && NoLineBreak(id)
    && NoLineBreak(name) && name != [] && !IsSpace(name[|name| - 1])
  }

  /** The lines of a listing of `entries`, in order. */
  function ListingOf(entries: seq<(string, string)>): (lines: seq<string>)
    ensures |lines| == |entries|
    ensures forall k :: 0 <= k < |entries| ==> lines[k] == ListingLine(entries[k].0, entries[k].1)
  {
    seq(|entries|, k requires 0 <= k < |entries| => ListingLine(entries[k].0, entries[k].1))
  }

  lemma JoinLinesFirst(lines: seq<string>)
    requires lines != [] && lines[0] != []
    ensures |JoinLines(lines)| > 0 && JoinLines(lines)[0] == lines[0][0]
  {
  }

  lemma {:induction false} JoinLinesLast(lines: seq<string>)
    requires lines != [] && lines[|lines| - 1] != []
    ensures |JoinLines(lines)| > 0
    ensures JoinLines(lines)[|JoinLines(lines)| - 1] == lines[|lines| - 1][|lines[|lines| - 1]| - 1]
    decreases |lines|
  {
    if |lines| > 1 {
      JoinLinesLast(lines[1..]);
    }
  }

  /** A well-formed listing, stripped and split, gives back its lines. */
  lemma ListingLinesOf(entries: seq<(string, string)>, trailer: string)
    requires forall k :: 0 <= k < |entries| ==> WellFormedEntry(entries[k].0, entries[k].1)
    requires AllSpace(trailer)
    ensures ListingLines(JoinLines(ListingOf(entries)) + trailer) == ListingOf(entries)
  {
    var lines := ListingOf(entries);
    ListingUnbroken(entries);
    if entries == [] {
      assert JoinLines(lines) + trailer == trailer;
    } else {
      ListingTrimmed(entries);
      StripJoined(JoinLines(lines), trailer);
      SplitJoinLines(lines);
    }
  }

  /** No line of a well-formed listing holds a line break, and none is empty. */
  lemma ListingUnbroken(entries: seq<(string, string)>)
    requires forall k :: 0 <= k < |entries| ==> WellFormedEntry(entries[k].0, entries[k].1)
    ensures forall k :: 0 <= k < |entries| ==> NoLineBreak(ListingOf(entries)[k]) && ListingOf(entries)[k] != []
  {
    forall k | 0 <= k < |entries| ensures NoLineBreak(ListingOf(entries)[k]) {
      EntryLineUnbroken(entries[k].0, entries[k].1);
    }
  }

  /** A non-empty well-formed listing starts with `D` and ends with the last name's last, non-blank character. */
  lemma ListingTrimmed(entries: seq<(string, string)>)
    requires forall k :: 0 <= k < |entries| ==> WellFormedEntry(entries[k].0, entries[k].1)
    requires entries != []
    ensures JoinLines(ListingOf(entries)) != [] && Trimmed(JoinLines(ListingOf(entries)))
  {
    var lines := ListingOf(entries);
    JoinLinesFirst(lines);
    JoinLinesLast(lines);
    var last := entries[|entries| - 1];
    assert lines[|lines| - 1][|lines[|lines| - 1]| - 1] == last.1[|last.1| - 1];
  }

  lemma StripJoined(text: string, trailer: string)
    requires text != [] && Trimmed(text) && AllSpace(trailer)
    ensures Strip(text + trailer) == text
  {
    StripUnique([], text, trailer);
    assert [] + text + trailer == text + trailer;
  }

  lemma EntryLineUnbroken(id: string, name: string)
    requires WellFormedEntry(id, name)
    ensures NoLineBreak(ListingLine(id, name))
  {
    var line := ListingLine(id, name);
    forall j | 0 <= j < |line| ensures !IsLineBreak(line[j]) {
      if 7 <= j < 7 + |id| {
        assert line[j] == id[j - 7];
      } else if j >= 8 + |id| {
        assert line[j] == name[j - 8 - |id|];
      }
    }
  }

  /** Every line of a well-formed listing unpacks into its entry's id and name. */
  lemma ListingParses(entries: seq<(string, string)>)
    requires forall k :: 0 <= k < |entries| ==> WellFormedEntry(entries[k].0, entries[k].1)
    ensures forall k :: 0 <= k < |entries| ==> ParseLine(ListingOf(entries)[k]) == Some(entries[k])
  {
    assert NoSpaceChar("Device");
    forall k | 0 <= k < |entries| ensures ParseLine(ListingOf(entries)[k]) == Some(entries[k]) {
      var (id, name) := entries[k];
      assert ListingOf(entries)[k] == "Device" + " " + id + " " + name;
      ParseLineOf("Device", id, name);
    }
  }

  /**
   * For a well-formed listing of N devices (any trailing whitespace) whose N
   * `info` calls succeed, `get_devices` returns exactly N devices in listing
   * order, each with the id and name of its line and the flags of its own
   * `info` answer, after N + 1 calls.
   */
  lemma WellFormedListing(entries: seq<(string, string)>, trailer: string, rs: seq<Reply>)
    requires forall k :: 0 <= k < |entries| ==> WellFormedEntry(entries[k].0, entries[k].1)
    requires AllSpace(trailer)
    requires rs != [] && rs[0].code == 0 && rs[0].stdout == JoinLines(ListingOf(entries)) + trailer
    requires AllSucceed(rs[1..], |entries|)
    ensures ListDevices(rs).result.Normal?
    ensures var devs := ListDevices(rs).result.value;
            && |devs| == |entries|
            && |ListDevices(rs).calls| == |entries| + 1
            && forall k :: 0 <= k < |entries| ==>
                 devs[k] == DeviceOf(entries[k].0, entries[k].1, rs[1 + k].stdout)
  {
    var lines := ListingOf(entries);
    ListingLinesOf(entries, trailer);
    ListingParses(entries);
    ListDevicesListed(rs);
    InspectNormal(lines, rs[1..]);
    var devs := Inspect(lines, rs[1..]).result.value;
    assert AllParse(lines);
    assert ListDevices(rs).result.value == [] + devs;
    forall k | 0 <= k < |entries|
      ensures devs[k] == DeviceOf(entries[k].0, entries[k].1, rs[1 + k].stdout)
    {
      assert rs[1..][k] == rs[1 + k];
    }
  }
}
