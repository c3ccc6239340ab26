/**
 * The `Device` record of bluetoothctl-launcher.py and its display string
 * (`Device.__str__`), the line shown in the device menu and matched back
 * against the picker's output.
 */
module Devices {
  import opened Wrappers

  /** A known Bluetooth device; never changed after construction. */
  datatype Device = Device(name: string, id: string, connected: bool, paired: bool, trusted: bool)

  /** The status word shown in parentheses. */
  function StatusWord(connected: bool): string {
    if connected then "Connected" else "Disconnected"
  }

  /** `str(d)`: `name [id] (Connected)` or `name [id] (Disconnected)`. */
  function Display(d: Device): (s: string)
    ensures |s| == |d.name| + |d.id| + |StatusWord(d.connected)| + 6
    ensures s[..|d.name|] == d.name
  {
    d.name + " [" + d.id + "] (" + StatusWord(d.connected) + ")"
  }

  predicate NoBracket(s: string) {
    forall k :: 0 <= k < |s| ==> s[k] != '['
  }

  /** Index of the last `c` in `s`, if any. */
  function LastIndex(s: string, c: char): (r: Option<nat>)
    ensures r.Some? ==> r.value < |s| && s[r.value] == c
    ensures r.Some? ==> forall k :: r.value < k < |s| ==> s[k] != c
    ensures r.None? ==> forall k :: 0 <= k < |s| ==> s[k] != c
  {
    if s == [] then None
    else if s[|s| - 1] == c then Some(|s| - 1)
    else LastIndex(s[..|s| - 1], c)
  }

  predicate EndsWith(s: string, suffix: string) {
    |suffix| <= |s| && s[|s| - |suffix|..] == suffix
  }

  /** The tail every display string ends with, after the id. */
  function Tail(connected: bool): string {
    "] (" + StatusWord(connected) + ")"
  }

  /**
   * Reads a display string back into `(name, id, connected)`: the status
   * suffix decides `connected`, the last `[` separates the name from the id.
   * Not part of the launcher; it is the inverse that `Display` is checked
   * against.
   */
  function ParseDisplay(s: string): (r: Option<(string, string, bool)>)
  {
    var connected := EndsWith(s, Tail(true));
    if !connected && !EndsWith(s, Tail(false)) then None
    else
      match SplitNameId(s[..|s| - |Tail(connected)|])
      case None => None
      case Some((name, id)) => Some((name, id, connected))
  }

  /** Splits `name [id` at its last `[`. */
  function SplitNameId(head: string): Option<(string, string)> {
    match LastIndex(head, '[')
    case None => None
    case Some(j) =>
      if j == 0 || head[j - 1] != ' ' then None
      else Some((head[..j - 1], head[j + 1..]))
  }

  lemma SplitNameIdOf(name: string, id: string)
    requires NoBracket(id)
    ensures SplitNameId(name + " [" + id) == Some((name, id))
  {
    var head := name + " [" + id;
    var j := |name| + 1;
    assert head[j] == '[';
    assert forall k :: j < k < |head| ==> head[k] == id[k - j - 1];
    assert LastIndex(head, '[') == Some(j);
    assert head[..j - 1] == name;
    assert head[j + 1..] == id;
  }

  lemma TailsDiffer(s: string, connected: bool)
    requires EndsWith(s, Tail(connected))
    ensures EndsWith(s, Tail(true)) == connected
  {
    if !connected {
      var t := s[|s| - |Tail(false)|..];
      assert t == Tail(false);
      assert s[|s| - 10] == t[6] == 'c';
      assert Tail(true)[3] == 'C';
    }
  }

  /**
   * The display string keeps the name, the id and the connection state: when
   * the id holds no `[` (a Bluetooth address never does), they can be read
   * back from it.
   */
  lemma DisplayRoundTrip(d: Device)
    requires NoBracket(d.id)
    ensures ParseDisplay(Display(d)) == Some((d.name, d.id, d.connected))
  {
    DisplayEnds(d);
    TailsDiffer(Display(d), d.connected);
    SplitNameIdOf(d.name, d.id);
    ParseDisplayOf(Display(d), d.connected, d.name, d.id);
  }

  /** `s` is read back as `(name, id, connected)` when its tail and its head say so. */
  lemma ParseDisplayOf(s: string, connected: bool, name: string, id: string)
    requires EndsWith(s, Tail(connected)) && EndsWith(s, Tail(true)) == connected
    requires SplitNameId(s[..|s| - |Tail(connected)|]) == Some((name, id))
    ensures ParseDisplay(s) == Some((name, id, connected))
  {
  }

  /** A display string is `name [id`, then the tail for its connection state. */
  lemma DisplayEnds(d: Device)
    ensures EndsWith(Display(d), Tail(d.connected))
    ensures Display(d)[..|Display(d)| - |Tail(d.connected)|] == d.name + " [" + d.id
  {
    var head := d.name + " [" + d.id;
    assert Display(d) == head + Tail(d.connected);
  }

  /**
   * Two devices whose ids hold no `[` show the same line only if they agree
   * on name, id and connection state; in particular devices with different
   * ids are never confused by the first-match lookup of the device menu.
   */
  lemma DisplayInjective(d1: Device, d2: Device)
    requires NoBracket(d1.id) && NoBracket(d2.id)
    requires Display(d1) == Display(d2)
    ensures d1.name == d2.name && d1.id == d2.id && d1.connected == d2.connected
  {
    DisplayRoundTrip(d1);
    DisplayRoundTrip(d2);
  }

  /**
   * The display string does not show `paired` or `trusted`: two devices that
   * differ only there show the same line.
   */
  lemma DisplayHidesPairing(d: Device, paired: bool, trusted: bool)
    ensures Display(d.(paired := paired, trusted := trusted)) == Display(d)
  {
  }
}
