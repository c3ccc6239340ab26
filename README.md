# bluetoothctl-launcher in Dafny

A model of `bluetoothctl-launcher.py`, a small interactive front end to
`bluetoothctl`:

- it lists the known Bluetooth devices (`bluetoothctl devices`, then
  `bluetoothctl info <id>` per device);
- it shows them in an `fzf` menu, then shows a second `fzf` menu with the
  three actions that make sense for the picked device;
- it runs `bluetoothctl <verb> <id>`.

A failed external program is reported and the whole loop starts over.
Closing the device menu ends the program with status 0. Closing the action
menu starts over.

Every external program run is a `Call` (argument vector and standard
input). What it gives back is a `Reply` (exit code, stdout, stderr). A run
of the launcher is fed a script of replies: the k-th reply answers the k-th
call. Each piece of the launcher is a function from the script to a `Stage`:
how the piece ended (`Normal`, `Raised` with a Python exception, or
`Starved` when the script ran out) and the calls it made, in order.

The modules follow the program:

- `Wrappers`: `Option`.
- `PyStr`: the `str` built-ins the program relies on: `strip()`,
  `splitlines()` (with Python's own whitespace and line-boundary sets),
  `"\n".join`, `split(' ', maxsplit)`, `find`. It also has ASCII `lower()`,
  used to state the command table's shape.
- `Devices`: the `Device` record and `Device.__str__`. `ParseDisplay` is
  not part of the program. It is the inverse the display format is checked
  against.
- `Process`: `subprocess.run(..., check=True)` over a reply, and
  `spawn_fzf` with its exit-code classification.
- `Listing`: `get_devices`. The functions `Inspect` and `ListDevices` give
  its meaning. The methods `GetDevices` and `InspectLines` are its `for`
  loop with `append`, proved equal to those functions.
- `Menus`: the device menu and its first-match re-resolution (a loop with an
  early return, in `FindDevice`), the action menu's labels, and the
  `perform_action` command table.
- `MainLoop`: the `__main__` loop:
  - `Round` is one pass of its body;
  - `DeviceMenu`, `ActionMenu` and `Action` are the rest of the pass after
    each step;
  - `Session` is the whole run;
  - the method `Launch` is the `while True` loop itself, proved equal to
    `Session`.
- `Protocol`: the loop seen as a state machine over what the launcher does.
  The states are Idle, Listed, DeviceMenuOpen, ActionMenuOpen and Executed.
  The module proves that every run follows the machine and that the state it
  ends in matches the way it ended.

Behaviours of the code that the lemmas make explicit:

- A line of the `bluetoothctl devices` output with fewer than two spaces
  raises `ValueError`. The loop does not catch it, so the program ends
  (`Listing.ParseLineFails`, `Listing.ListDevicesErrors`).
- A device whose name is empty or starts with whitespace can never be
  picked (`Menus.BlankNamedDeviceUnpickable`). An empty name comes from a
  listing line `Device <id> ` that is not the last one. The display
  string of such a device starts with whitespace, and `spawn_fzf` strips the
  picked line, so the line never equals it. The stripped line then resolves
  to whichever device, if any, is shown exactly that way. Usually no device
  is, and the program exits with status 0. With a repeated id it can be
  another device: one named `P` with the same id as the blank-named one.
- Two devices with different ids never show the same line, provided no id
  holds a `[`, which is true of Bluetooth addresses
  (`Devices.DisplayInjective`). So, with distinct ids that contain no `[`,
  a device's own line
  resolves to that device (`Menus.ShownLineResolves`). Picking a device
  whose name starts with a non-blank character gets that device back
  (`Menus.PickShownDevice`).

Details of the code the model keeps exactly as written:

- A `CalledProcessError` carries only the streams its `subprocess.run`
  captured (`Process.Failure`). The two `bluetoothctl` listing calls capture
  stdout and stderr. `fzf` captures stdout only, so its errors have no
  stderr. The action command captures neither, so its errors have neither.
- A flag is set when its marker occurs anywhere in the `info` text
  (`str.find`), whether or not it forms a whole line.
- An unknown action label raises `KeyError`, and a malformed listing line
  raises `ValueError`. The loop catches neither, so both end the run
  (`Crashed`, exit status 1).

## Model

| member | source | states |
|---|---|---|
| Devices.Display | bluetoothctl-launcher.py:16 | `str(d)` begins with the name, and its length is the name, the id, the status word and six characters of punctuation; `DisplayRoundTrip` and `DisplayInjective` carry the rest |
| Devices.DisplayRoundTrip | bluetoothctl-launcher.py:16 | reading a display string back gives the name, id and connection flag it was made from (id without `[`) |
| Devices.DisplayInjective | bluetoothctl-launcher.py:16 | two devices (ids without `[`) show the same line only if they agree on name, id and connection flag |
| Devices.DisplayHidesPairing | bluetoothctl-launcher.py:16 | the display string does not depend on the paired and trusted flags |
| PyStr.Strip | bluetoothctl-launcher.py:21 | `strip()` leaves no whitespace at either end, never lengthens, and is empty exactly for all-whitespace input |
| PyStr.StripUnique | bluetoothctl-launcher.py:21 | `strip()` of whitespace + trimmed middle + whitespace is the middle |
| PyStr.SplitLines | bluetoothctl-launcher.py:31 | `splitlines()` yields lines free of line boundaries, and none exactly for the empty string |
| PyStr.JoinLines | bluetoothctl-launcher.py:41-56 | `"\n".join`, which builds both `fzf` inputs; `SplitJoinLines` carries its contract |
| PyStr.SplitJoinLines | bluetoothctl-launcher.py:31 | `splitlines()` undoes `"\n".join` when no line holds a boundary and the last line is not empty |
| PyStr.FindCharFirst | bluetoothctl-launcher.py:32 | the separator search finds the first occurrence, and reports none only when there is none |
| PyStr.Split | bluetoothctl-launcher.py:32 | `split(sep, maxsplit)` gives between 1 and `maxsplit + 1` parts |
| PyStr.SplitLeftToRight | bluetoothctl-launcher.py:32 | `split` cuts from the left: every part but the last holds no separator |
| PyStr.JoinSplit | bluetoothctl-launcher.py:32 | joining the parts of `split(sep, maxsplit)` with `sep` gives the string back |
| PyStr.SplitFull | bluetoothctl-launcher.py:32 | `split(sep, maxsplit)` gives `maxsplit + 1` parts exactly when `sep` occurs at least `maxsplit` times |
| PyStr.Find | bluetoothctl-launcher.py:34-36 | `find` returns the lowest index where the pattern occurs, or -1 exactly when it occurs nowhere |
| PyStr.ContainsIff | bluetoothctl-launcher.py:34-36 | `find(pat) != -1` holds exactly when `pat` occurs somewhere in the text |
| Process.Failure | bluetoothctl-launcher.py:20-33 | the `CalledProcessError` of `check=True` keeps the exit code, carries stdout unless nothing was captured, and carries stderr only when both streams were captured |
| Process.Run | bluetoothctl-launcher.py:29 | `subprocess.run(check=True)` makes one call; it returns the reply on exit 0, raises `CalledProcessError` with that code otherwise, and gets nowhere without a reply |
| Process.ClassifyPick | bluetoothctl-launcher.py:21-26 | exit 130 gives `None`, exit 0 gives the stripped output, any other exit re-raises `CalledProcessError` with its code and stdout |
| Process.SpawnFzf | bluetoothctl-launcher.py:18-26 | `spawn_fzf` makes one `fzf` call fed the menu text and classifies its reply |
| Process.PickReturnsLine | bluetoothctl-launcher.py:21 | a trimmed line printed by `fzf` with trailing whitespace comes back as that line |
| Listing.ParseLine | bluetoothctl-launcher.py:32 | `line.split(' ', maxsplit=2)` unpacked into id and name; `ParseLineFails` and `ParseLineOf` carry its contract |
| Listing.ParseLineFails | bluetoothctl-launcher.py:32 | a listing line fails to unpack into three fields exactly when it holds fewer than two spaces |
| Listing.ParseLineOf | bluetoothctl-launcher.py:32 | `<tag> <id> <name>` unpacks to the id and the whole name, spaces in the name included |
| Listing.DeviceOf | bluetoothctl-launcher.py:34-37 | the device built for a line has that line's id and name |
| Listing.FlagsFromMarkers | bluetoothctl-launcher.py:34-36 | each flag is set exactly when its own marker occurs in the `info` text |
| Listing.Inspect | bluetoothctl-launcher.py:31-37 | the loop over the lines makes at most one call per reply, every one a `bluetoothctl info` call |
| Listing.InspectNormal | bluetoothctl-launcher.py:31-37 | the loop yields devices exactly when every line unpacks and every `info` call succeeds; then one device per line in order, each from its line and its own `info` reply, after one `info <id>` call per device |
| Listing.InspectLines | bluetoothctl-launcher.py:30-38 | the `for` loop with `append` computes exactly the loop's result and calls |
| Listing.ListDevices | bluetoothctl-launcher.py:28-38 | `get_devices` starts with `bluetoothctl devices`, makes no more calls than replies, and runs out only at the end of the script |
| Listing.ListDevicesCalls | bluetoothctl-launcher.py:28-33 | with no reply there is no call; otherwise the first call is the listing and every later one is an `info` call |
| Listing.ListDevicesErrors | bluetoothctl-launcher.py:29-33 | `get_devices` raises only `CalledProcessError` or `ValueError` |
| Listing.EmptyListing | bluetoothctl-launcher.py:28-38 | an empty or all-whitespace listing gives an empty device list after one call |
| Listing.ListingLines | bluetoothctl-launcher.py:29-31 | the lines of the stripped listing hold no line boundary, and there are none exactly when the listing is all whitespace |
| Listing.ListingLinesOf | bluetoothctl-launcher.py:31 | a well-formed listing with any trailing whitespace, stripped and split, gives back its lines |
| Listing.ListingParses | bluetoothctl-launcher.py:32 | every line of a well-formed listing unpacks into its entry's id and name |
| Listing.WellFormedListing | bluetoothctl-launcher.py:28-38 | N well-formed entries with successful `info` calls give exactly N devices in listing order, each with its entry's id and name and its own `info` flags, after N + 1 calls |
| Listing.GetDevices | bluetoothctl-launcher.py:28-38 | the method computes exactly `ListDevices` |
| Menus.Displays | bluetoothctl-launcher.py:41 | the device menu has one line per device, in order, each its display string |
| Menus.FirstMatch | bluetoothctl-launcher.py:45-48 | the lookup finds a device shown as the line with none shown that way before it, or reports that none is |
| Menus.Resolve | bluetoothctl-launcher.py:45-48 | a resolved device is one of the devices and is shown as the line; there is none exactly when no device is shown that way (`FirstMatch` makes it the first) |
| Menus.FindDevice | bluetoothctl-launcher.py:45-48 | the scan with early return gives the first device shown as the picked line, or `None` |
| Menus.PickDevice | bluetoothctl-launcher.py:40-48 | the device menu makes one `fzf` call fed the newline-joined display strings; exit 130 gives no device, exit 0 gives the first device shown as the stripped output (or none), any other exit raises `CalledProcessError` with its code and stdout; it runs out only without a reply |
| Menus.SelectDevice | bluetoothctl-launcher.py:40-48 | the method computes exactly `PickDevice` |
| Menus.ShownLineResolves | bluetoothctl-launcher.py:45-47 | with distinct ids that contain no `[`, a device's own line resolves to that device |
| Menus.PickShownDevice | bluetoothctl-launcher.py:40-48 | with distinct ids that contain no `[` and a name that starts with a non-blank, `fzf` printing a device's line (plus trailing whitespace) gets exactly that device back after one `fzf` call |
| Menus.BlankNamedDeviceUnpickable | bluetoothctl-launcher.py:42-46 | a device whose name is empty or starts with whitespace is never the result of the device menu |
| Menus.ActionLabels | bluetoothctl-launcher.py:51-55 | the three labels; `ActionLabelsDetermineFlags` and `OfferedActionsKnown` carry its contract |
| Menus.ActionLabelsDetermineFlags | bluetoothctl-launcher.py:51-55 | the action menu has three labels; the first depends exactly on the connection flag, the second on the pairing flag, the third on the trust flag; so two devices get the same labels exactly when they agree on all three flags |
| Menus.PickAction | bluetoothctl-launcher.py:50-58 | the action menu makes one `fzf` call fed the newline-joined labels, and its result is that reply classified as `spawn_fzf` does (`ClassifyPick`) |
| Menus.PickOfferedAction | bluetoothctl-launcher.py:50-58 | picking one of the three labels gets that label back |
| Menus.Commands | bluetoothctl-launcher.py:61-68 | the command table; `CommandTableShape` carries its contract |
| Menus.CommandTableShape | bluetoothctl-launcher.py:61-68 | the table has exactly six keys, each mapped to `bluetoothctl`, the key in lower case, and the device id |
| Menus.OfferedActionsKnown | bluetoothctl-launcher.py:51-69 | every label the action menu offers is a key of the command table |
| Menus.PerformAction | bluetoothctl-launcher.py:60-70 | an unknown label raises `KeyError` with no call; a known one makes its table command, succeeding exactly on exit 0 and otherwise raising `CalledProcessError` |
| MainLoop.Except | bluetoothctl-launcher.py:84-86 | a `CalledProcessError` is reported and the loop goes round again; any other exception ends the run |
| MainLoop.Round | bluetoothctl-launcher.py:74-83 | a pass starts with the listing call and goes round again only after using at least one reply |
| MainLoop.Resume | bluetoothctl-launcher.py:76-83 | the rest of a pass keeps the first event so far first, uses at least one more reply before going round, and ends with a closed device menu only from the device menu |
| MainLoop.DeviceMenu | bluetoothctl-launcher.py:76-78 | after the device menu the pass keeps its first event first and uses at least one more reply before going round; a closed device menu, whatever it showed, ends the run right after that menu |
| MainLoop.ActionMenu | bluetoothctl-launcher.py:79-81 | a closed action menu goes round again right after that menu, using one reply; the pass never ends with a closed device menu from here |
| MainLoop.Action | bluetoothctl-launcher.py:82-83 | after `perform_action` the pass never ends with a closed device menu |
| MainLoop.Session | bluetoothctl-launcher.py:72-86 | a run without replies does nothing, and every other run starts with `bluetoothctl devices` |
| MainLoop.SessionContinues | bluetoothctl-launcher.py:80-86 | a pass that goes round again leaves the rest of the run to the replies it did not use |
| MainLoop.Attempt | bluetoothctl-launcher.py:74-86 | the `try` block and its `except` compute exactly `Round` |
| MainLoop.AttemptDeviceMenu | bluetoothctl-launcher.py:76-78 | the block from the device menu on computes exactly `DeviceMenu` |
| MainLoop.AttemptActionMenu | bluetoothctl-launcher.py:79-81 | the block from the action menu on computes exactly `ActionMenu` |
| MainLoop.AttemptAction | bluetoothctl-launcher.py:82-83 | `perform_action` and `break` compute exactly `Action` |
| MainLoop.Launch | bluetoothctl-launcher.py:72-86 | the `while True` loop computes exactly `Session` |
| Protocol.WalkLast | bluetoothctl-launcher.py:72-86 | the machine is Executed right after an action's command, Idle right after a report, and in a menu state right after an `fzf` call |
| Protocol.ListingWalk | bluetoothctl-launcher.py:75 | `get_devices` takes the machine from Idle or ActionMenuOpen to Listed |
| Protocol.RoundWalk | bluetoothctl-launcher.py:74-86 | every pass is accepted by the machine, goes round again only from Idle or ActionMenuOpen, and ends in the state its exit calls for |
| Protocol.SessionFollowsProtocol | bluetoothctl-launcher.py:72-86 | every run is accepted from Idle and ends in the state its exit calls for: Executed after success, DeviceMenuOpen after a closed device menu, Listed after a `ValueError`, ActionMenuOpen after a `KeyError` |
| Protocol.SessionEdges | bluetoothctl-launcher.py:84-86 | in every run a report is followed by a new listing, and an action's command by nothing but the report of its failure |
| Protocol.AgainRelists | bluetoothctl-launcher.py:80-86 | whenever a pass goes round again (a closed action menu, or a reported error) and a reply is left, the next event is `bluetoothctl devices` |
| Protocol.DeviceMenuClosedEvents | bluetoothctl-launcher.py:76-78 | the pass ends with a closed device menu exactly when the device menu gives no device |
| Protocol.DeviceMenuCloseRunsNothing | bluetoothctl-launcher.py:76-78 | a pass that ends with a closed device menu has run no action command |
| Protocol.ListingFailureRestarts | bluetoothctl-launcher.py:84-86 | a failed `bluetoothctl devices` is reported with its code and output, and the run goes on with the next reply |
| Protocol.NoDeviceThenClose | bluetoothctl-launcher.py:75-78 | with no known device the menu is empty, and closing it ends the run after one listing and one menu |
| Protocol.DeviceMenuPicked | bluetoothctl-launcher.py:76-79 | picking a device's line (distinct ids that contain no `[`, name starting with a non-blank) records the device menu and goes on to the action menu for that device with the next reply |
| Protocol.ActionMenuPicked | bluetoothctl-launcher.py:79-82 | picking a label records the action menu and goes on to perform that action with the next reply |
| Protocol.ActionSucceeds | bluetoothctl-launcher.py:82-83 | an offered action whose command succeeds ends the run right after `bluetoothctl <label in lower case> <id>` |
| Protocol.SessionStarts | bluetoothctl-launcher.py:73-86 | a run begins with the events of its first pass |
| Protocol.EmptyMenuClosed | bluetoothctl-launcher.py:40-48 | with no device the menu is fed the empty text, and a cancelled menu gives no device |
| Protocol.NoDeviceRound | bluetoothctl-launcher.py:75-78 | an empty listing followed by a cancelled menu ends the pass with status 0 after those two calls |
| Protocol.PickAndRun | bluetoothctl-launcher.py:75-83 | picking the k-th device and the j-th label, with a successful command, ends the pass after the two menus and exactly that device's command |
| Protocol.DeviceMenuCloseEndsRun | bluetoothctl-launcher.py:75-78 | once the devices are listed, closing the device menu ends the whole run with status 0 after the listing's calls and that menu |
| Protocol.DeviceMenuFails | bluetoothctl-launcher.py:76-86 | an `fzf` failure in the device menu is reported with its code and stdout, and the loop goes round again after that reply |
| Protocol.ActionMenuFails | bluetoothctl-launcher.py:79-86 | an `fzf` failure in the action menu is reported with its code and stdout, and the loop goes round again after that reply |
| Protocol.ActionFails | bluetoothctl-launcher.py:82-86 | a known action whose command fails is reported with its code and no output, and the loop goes round again after that reply |
| Protocol.ActionUnknown | bluetoothctl-launcher.py:69 | a label the table does not know raises `KeyError` without a call, which ends the run |
| Protocol.InfoFails | bluetoothctl-launcher.py:74-86 | a failing `bluetoothctl info` for the first device is reported with its code and output, and the loop goes round again after the listing and that call |
| Protocol.PickThenCancel | bluetoothctl-launcher.py:75-81 | picking a device and closing the action menu goes round again after the two menus, having used two more replies |
| Protocol.PickThenCancelRelists | bluetoothctl-launcher.py:80-81 | after a device is picked and the action menu closed, the run continues as a fresh run on the remaining replies, whose next event is `bluetoothctl devices` |

## Left out

- Running `bluetoothctl` and `fzf`: their results are the reply script, and the calls are recorded, not executed.
- The reply script is finite. When it runs out, the run ends as `OutOfReplies`, where the real program would be waiting on that call.
- Fuzzy matching and the interaction inside `fzf`: the model only sees its exit code and output.
- The diagnostic printed to stderr and the `input()` acknowledgement: both are the single event `Reported(error)`. `input()` failing at end of input (`EOFError`) is not modelled.
- `exit(0)` and the interpreter's exit on an uncaught exception: they are the run's `Exit` value, with `ExitStatus` giving the status.
- Decoding of process output as UTF-8: strings are sequences of characters, so decoding errors are not modelled.
- `KeyboardInterrupt` and other exceptions from outside the code: not modelled.
- PyStr.Split: only a one-character separator, which is all the program uses.
- PyStr.Lower: ASCII letters only. It serves only to state the command table's shape, whose keys are ASCII.
