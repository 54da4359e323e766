/**
 * Finding the wireless interfaces (hackwifi.py:115-131) and the privileged
 * commands issued to put an interface into monitor mode or back into managed
 * mode (hackwifi.py:100-113, 164-185). The commands are values; running them
 * is outside the model.
 */
module Interfaces {
  import opened Wrappers
  import opened Text

  const WirelessMarker := "IEEE 802.11"

  /** A line of `iwconfig` output that starts an interface's wireless stanza. */
  predicate ListsWireless(line: string) {
    Contains(line, WirelessMarker) && !StartsWith(line, " ")
  }

  lemma MarkerLineHasWord(line: string)
    requires Contains(line, WirelessMarker)
    ensures !AllSpace(line)
  {
    var i :| 0 <= i <= |line| && OccursAt(line, WirelessMarker, i);
    assert line[i..i + |WirelessMarker|][0] == 'I';
    NotAllSpace(line, i);
  }

  /** `[line.split()[0] for line in lines if <ListsWireless(line)>]` */
  function NamesFrom(lines: seq<string>): (r: seq<string>)
    ensures |r| <= |lines|
    ensures forall k :: 0 <= k < |r| ==> r[k] != [] && NoSpace(r[k])
  {
    if lines == [] then []
    else
      var rest := NamesFrom(lines[1..]);
      if ListsWireless(lines[0]) then
        MarkerLineHasWord(lines[0]);
        [FirstWord(lines[0])] + rest
      else rest
  }

  /** The interface names found in the text `iwconfig` prints. */
  function InterfaceNames(iwconfigOutput: string): seq<string> {
    NamesFrom(Split(iwconfigOutput, '\n'))
  }

  /** Names per line are concatenated in line order. */
  lemma {:induction false} NamesFromAppend(xs: seq<string>, ys: seq<string>)
    ensures NamesFrom(xs + ys) == NamesFrom(xs) + NamesFrom(ys)
    decreases |xs|
  {
    if xs == [] {
      assert xs + ys == ys;
    } else {
      assert (xs + ys)[0] == xs[0];
      assert (xs + ys)[1..] == xs[1..] + ys;
      NamesFromAppend(xs[1..], ys);
    }
  }

  /** No name is reported exactly when no line passes the filter. */
  lemma {:induction false} NamesFromEmptyIff(lines: seq<string>)
    ensures NamesFrom(lines) == [] <==> forall i :: 0 <= i < |lines| ==> !ListsWireless(lines[i])
    decreases |lines|
  {
    if lines != [] {
      NamesFromEmptyIff(lines[1..]);
      assert forall i :: 1 <= i < |lines| ==> lines[i] == lines[1..][i - 1];
    }
  }

  /** Each qualifying line contributes its first word: a line of its own gives that one name. */
  lemma NamesFromLine(line: string)
    ensures ListsWireless(line) ==> !AllSpace(line) && NamesFrom([line]) == [FirstWord(line)]
    ensures !ListsWireless(line) ==> NamesFrom([line]) == []
  {
    assert [line][1..] == [];
    if ListsWireless(line) { MarkerLineHasWord(line); }
  }

  /** `[iface for iface in names if iface.startswith('w')]` (the /sys/class/net fallback) */
  function WirelessEntries(names: seq<string>): (r: seq<string>)
    ensures |r| <= |names|
    ensures forall k :: 0 <= k < |r| ==> StartsWith(r[k], "w") && r[k] in names
    ensures forall n :: n in names && StartsWith(n, "w") ==> n in r
  {
    if names == [] then []
    else
      var rest := WirelessEntries(names[1..]);
      assert forall n :: n in names && n != names[0] ==> n in names[1..];
      if StartsWith(names[0], "w") then [names[0]] + rest else rest
  }

  /** One entry is kept exactly when it starts with 'w'. */
  lemma WirelessEntriesSingle(name: string)
    ensures WirelessEntries([name]) == if StartsWith(name, "w") then [name] else []
  {
    assert [name][1..] == [];
  }

  /** The fallback keeps the listing order: it distributes over concatenation. */
  lemma {:induction false} WirelessEntriesAppend(xs: seq<string>, ys: seq<string>)
    ensures WirelessEntries(xs + ys) == WirelessEntries(xs) + WirelessEntries(ys)
    decreases |xs|
  {
    if xs == [] {
      assert xs + ys == ys;
    } else {
      assert (xs + ys)[0] == xs[0];
      assert (xs + ys)[1..] == xs[1..] + ys;
      WirelessEntriesAppend(xs[1..], ys);
    }
  }

  /**
   * What the environment answers when the interfaces are probed: the text
   * `iwconfig` printed (`None` when it could not be run) and the entries of
   * /sys/class/net (`None` when they could not be listed).
   */
  datatype Probe = Probe(iwconfig: Option<string>, sysClassNet: Option<seq<string>>)

  /** `get_available_interfaces`: the iwconfig names, else the fallback, else none. */
  function AvailableInterfaces(p: Probe): (r: seq<string>)
    ensures forall k :: 0 <= k < |r| ==> r[k] != []
    ensures p.iwconfig.None? ==> r == []
  {
    match p.iwconfig
    case None => []
    case Some(out) =>
      var found := InterfaceNames(out);
      if found != [] then found
      else
        match p.sysClassNet
        case None => []
        case Some(names) => WirelessEntries(names)
  }

  /** When iwconfig reports a wireless line, its names are used and the fallback is not consulted. */
  lemma AvailablePrefersIwconfig(p: Probe, i: int)
    requires p.iwconfig.Some?
    requires 0 <= i < |Split(p.iwconfig.value, '\n')| && ListsWireless(Split(p.iwconfig.value, '\n')[i])
    ensures AvailableInterfaces(p) == InterfaceNames(p.iwconfig.value) != []
  {
    NamesFromEmptyIff(Split(p.iwconfig.value, '\n'));
  }

  /** When iwconfig runs but reports nothing wireless, the /sys/class/net names starting with 'w' are used. */
  lemma AvailableFallback(p: Probe)
    requires p.iwconfig.Some? && p.sysClassNet.Some?
    requires forall i :: 0 <= i < |Split(p.iwconfig.value, '\n')| ==> !ListsWireless(Split(p.iwconfig.value, '\n')[i])
    ensures AvailableInterfaces(p) == WirelessEntries(p.sysClassNet.value)
  {
    NamesFromEmptyIff(Split(p.iwconfig.value, '\n'));
  }

  /**
   * When iwconfig runs but reports nothing wireless and /sys/class/net cannot
   * be listed, the exception handler leaves the result empty.
   */
  lemma AvailableNoFallback(p: Probe)
    requires p.iwconfig.Some? && p.sysClassNet.None?
    requires forall i :: 0 <= i < |Split(p.iwconfig.value, '\n')| ==> !ListsWireless(Split(p.iwconfig.value, '\n')[i])
    ensures AvailableInterfaces(p) == []
  {
    NamesFromEmptyIff(Split(p.iwconfig.value, '\n'));
  }

  datatype Mode = Managed | Monitor

  /** The privileged commands the tool issues (each prefixed with `sudo`). */
  datatype Command =
    | KillConflicting                   // airmon-ng check kill
    | Down(iface: string)               // ifconfig <iface> down
    | SetMode(iface: string, mode: Mode) // iwconfig <iface> mode <mode>
    | Up(iface: string)                 // ifconfig <iface> up

  /** The three steps of `configure_interface`, in order. */
  function MonitorSteps(iface: string): seq<Command> {
    [Down(iface), SetMode(iface, Monitor), Up(iface)]
  }

  /**
   * `reset_interface`: back to managed mode, only when an interface is set
   * (and non-empty, as `if self.interface:` demands). Every command addresses
   * that interface, and the interface is left up in managed mode.
   */
  function ResetCommands(iface: Option<string>): (r: seq<Command>)
    ensures r == [] <==> iface.None? || iface.value == ""
    ensures forall k :: 0 <= k < |r| ==> iface.Some? && !r[k].KillConflicting? && r[k].iface == iface.value
    ensures r != [] ==> SetMode(iface.value, Managed) in r && r[|r| - 1] == Up(iface.value)
  {
    if iface.Some? && iface.value != "" then [Down(iface.value), SetMode(iface.value, Managed), Up(iface.value)]
    else []
  }

  /** The reset retraces the monitor-mode steps with the mode set back to managed. */
  lemma ResetRetracesSetup(iface: string)
    requires iface != ""
    ensures |ResetCommands(Some(iface))| == |MonitorSteps(iface)|
    ensures forall k :: 0 <= k < |MonitorSteps(iface)| ==>
      ResetCommands(Some(iface))[k] ==
        if MonitorSteps(iface)[k].SetMode? then SetMode(iface, Managed) else MonitorSteps(iface)[k]
  {
  }
}
