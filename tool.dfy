/**
 * The `WiFiTool` object (hackwifi.py:15-43): the selected interface, the
 * registry of access points found by the current scan, the two run flags and
 * the loaded wordlists, with the operations that update them in place.
 * Input lines, captured frames, probe results and directory listings are
 * parameters; `parseInt` stands for Python's `int()` on a string.
 */
module Tool {
  import opened Wrappers
  import opened Text
  import opened Registry
  import opened Selection
  import opened Interfaces
  import opened Wordlists
  import opened Session

  /** One pass of the `select_interface` loop: what probing found, then the line typed. */
  datatype InterfaceRound = InterfaceRound(probe: Probe, line: string)

  /** One reply to `select_wordlist`, with what the directory holds if the reply is a refresh. */
  datatype WordlistReply = WordlistReply(line: string, listing: Option<seq<DirEntry>>)

  /** How `configure_interface` ends: in monitor mode, or at a failed step (then reset and exit status 1). */
  datatype Setup = Ready | Failed(step: nat)

  /** The quit reply of `select_interface` is "q" or "Q" exactly: `lower()` is applied, `strip()` is not. */
  lemma QuitChoice(line: string)
    ensures AsciiLower(line) == "q" <==> line == "q" || line == "Q"
  {
    LowerIsLetter(line, 'q');
  }

  /** A round of `select_interface` after which the loop asks again. */
  predicate InterfaceRoundRejected(round: InterfaceRound, parseInt: string -> Option<int>) {
    var found := AvailableInterfaces(round.probe);
    if found == [] then AsciiLower(round.line) != "q" else !Accepts(|found|, parseInt(round.line))
  }

  /** What `select_wordlist` makes of a reply line (`input().strip().lower()`). */
  function WordlistChoice(line: string): string {
    AsciiLower(Strip(line))
  }

  /** The reply that asks `select_wordlist` to reload the directory. */
  const RefreshReply := "r"

  /** A reply is a refresh exactly when, with its whitespace ends cut off, it is "r" or "R". */
  lemma RefreshChoice(line: string)
    ensures WordlistChoice(line) == RefreshReply <==> Strip(line) == "r" || Strip(line) == "R"
  {
    LowerIsLetter(Strip(line), 'r');
  }

  /*
   * The dialog of `select_wordlist` below is stated for any `normalise`, the
   * way a reply line is reduced before it is read; `WiFiTool.SelectWordlist`
   * instantiates it with `WordlistChoice`.
   */

  /** The wordlists on offer after one reply: a refresh reloads them, any other reply keeps them. */
  function AfterWordlistReply(dir: string, current: seq<string>, reply: WordlistReply,
                              normalise: string -> string): seq<string> {
    if normalise(reply.line) == RefreshReply then LoadWordlists(dir, reply.listing) else current
  }

  /** The wordlists on offer after the first `n` replies. */
  function WordlistsAfter(dir: string, initial: seq<string>, replies: seq<WordlistReply>, n: nat,
                          normalise: string -> string): seq<string>
    requires n <= |replies|
  {
    if n == 0 then initial
    else AfterWordlistReply(dir, WordlistsAfter(dir, initial, replies, n - 1, normalise), replies[n - 1], normalise)
  }

  /** A reply after which `select_wordlist` asks again, given the wordlists on offer. */
  predicate WordlistReplyRejected(dir: string, current: seq<string>, reply: WordlistReply,
                                  parseInt: string -> Option<int>, normalise: string -> string) {
    var choice := normalise(reply.line);
    if choice == RefreshReply then LoadWordlists(dir, reply.listing) != []
    else !Accepts(|current|, parseInt(choice))
  }

  /** Each of the first `n` replies was rejected with the wordlists then on offer. */
  predicate AllRejected(dir: string, initial: seq<string>, replies: seq<WordlistReply>, n: nat,
                        parseInt: string -> Option<int>, normalise: string -> string)
    requires n <= |replies|
  {
    forall j :: 0 <= j < n ==>
      WordlistReplyRejected(dir, WordlistsAfter(dir, initial, replies, j, normalise), replies[j], parseInt, normalise)
  }

  lemma AllRejectedStep(dir: string, initial: seq<string>, replies: seq<WordlistReply>, i: nat,
                        parseInt: string -> Option<int>, normalise: string -> string)
    requires i < |replies| && AllRejected(dir, initial, replies, i, parseInt, normalise)
    requires WordlistReplyRejected(dir, WordlistsAfter(dir, initial, replies, i, normalise), replies[i],
                                   parseInt, normalise)
    ensures AllRejected(dir, initial, replies, i + 1, parseInt, normalise)
  {
  }

  /**
   * The `while True` loop of `select_wordlist` run on the replies from
   * `replies[i]` on with `current` on offer: the outcome, and the wordlists on
   * offer when it ends.
   */
  function WordlistDialog(dir: string, current: seq<string>, replies: seq<WordlistReply>, i: nat,
                          parseInt: string -> Option<int>, normalise: string -> string): (r: (Answer<string>, seq<string>))
    requires i <= |replies|
    ensures !r.0.NoChoices?
    ensures r.0.Chosen? ==> i <= r.0.at < |replies| && r.0.value in r.1
    ensures r.0.Abandoned? ==> i <= r.0.at < |replies| && r.1 == []
    decreases |replies| - i
  {
    if i == |replies| then (EndOfInput, current)
    else
      var choice := normalise(replies[i].line);
      if choice == RefreshReply then
        var loaded := LoadWordlists(dir, replies[i].listing);
        if loaded == [] then (Abandoned(i), loaded)
        else WordlistDialog(dir, loaded, replies, i + 1, parseInt, normalise)
      else
        match Pick(current, parseInt(choice))
        case Some(w) => (Chosen(w, i), current)
        case None => WordlistDialog(dir, current, replies, i + 1, parseInt, normalise)
  }

  /**
   * What an outcome of `select_wordlist` means: a wordlist is returned for the
   * first reply whose number names one of the wordlists then on offer; `None`
   * (`Abandoned`) for the first refresh that finds none; every earlier reply
   * made the loop ask again; an empty menu is never reported.
   */
  predicate WordlistOutcome(dir: string, initial: seq<string>, replies: seq<WordlistReply>,
                            parseInt: string -> Option<int>, normalise: string -> string,
                            answer: Answer<string>, offered: seq<string>)
  {
    match answer
    case Chosen(w, at) =>
      at < |replies| && AllRejected(dir, initial, replies, at, parseInt, normalise) &&
      normalise(replies[at].line) != RefreshReply &&
      offered == WordlistsAfter(dir, initial, replies, at, normalise) &&
      Pick(offered, parseInt(normalise(replies[at].line))) == Some(w)
    case Abandoned(at) =>
      at < |replies| && AllRejected(dir, initial, replies, at, parseInt, normalise) &&
      normalise(replies[at].line) == RefreshReply &&
      offered == WordlistsAfter(dir, initial, replies, at + 1, normalise) == []
    case EndOfInput =>
      AllRejected(dir, initial, replies, |replies|, parseInt, normalise) &&
      offered == WordlistsAfter(dir, initial, replies, |replies|, normalise)
    case NoChoices => false
  }

  lemma {:induction false} WordlistDialogFrom(dir: string, initial: seq<string>, replies: seq<WordlistReply>,
                                              i: nat, parseInt: string -> Option<int>, normalise: string -> string)
    requires i <= |replies| && AllRejected(dir, initial, replies, i, parseInt, normalise)
    ensures var (answer, offered) :=
      WordlistDialog(dir, WordlistsAfter(dir, initial, replies, i, normalise), replies, i, parseInt, normalise);
      WordlistOutcome(dir, initial, replies, parseInt, normalise, answer, offered)
    decreases |replies| - i
  {
    if i < |replies| {
      var current := WordlistsAfter(dir, initial, replies, i, normalise);
      if WordlistReplyRejected(dir, current, replies[i], parseInt, normalise) {
        AllRejectedStep(dir, initial, replies, i, parseInt, normalise);
        WordlistDialogFrom(dir, initial, replies, i + 1, parseInt, normalise);
      }
    }
  }

  /** Every outcome of the `select_wordlist` dialog has the meaning stated by `WordlistOutcome`. */
  lemma WordlistDialogMeaning(dir: string, initial: seq<string>, replies: seq<WordlistReply>,
                              parseInt: string -> Option<int>, normalise: string -> string)
    ensures var (answer, offered) := WordlistDialog(dir, initial, replies, 0, parseInt, normalise);
      WordlistOutcome(dir, initial, replies, parseInt, normalise, answer, offered)
  {
    WordlistDialogFrom(dir, initial, replies, 0, parseInt, normalise);
  }

  /** The loop of `select_wordlist`, computing the dialog's outcome step by step. */
  method RunWordlistDialog(dir: string, initial: seq<string>, replies: seq<WordlistReply>,
                           parseInt: string -> Option<int>, normalise: string -> string)
    returns (answer: Answer<string>, offered: seq<string>)
    ensures (answer, offered) == WordlistDialog(dir, initial, replies, 0, parseInt, normalise)
  {
    offered := initial;
    var i := 0;
    while i < |replies|
      invariant 0 <= i <= |replies|
      invariant WordlistDialog(dir, offered, replies, i, parseInt, normalise) ==
                WordlistDialog(dir, initial, replies, 0, parseInt, normalise)
    {
      var choice := normalise(replies[i].line);
      if choice == RefreshReply {
        offered := LoadWordlists(dir, replies[i].listing);
        if offered == [] {
          return Abandoned(i), offered;
        }
      } else {
        var pick := Pick(offered, parseInt(choice));
        if pick.Some? {
          return Chosen(pick.value, i), offered;
        }
      }
      i := i + 1;
    }
    return EndOfInput, offered;
  }

  class WiFiTool {
    var iface: Option<string>
    var accessPoints: seq<AccessPoint>
    var running: bool
    var deauthRunning: bool
    const wordlistsPath: string
    var wordlists: seq<string>

    /** The registry never holds two entries with the same BSSID. */
    ghost predicate Valid()
      reads this
    {
      UniqueBssids(accessPoints)
    }

    function RunFlags(): Flags
      reads this
    {
      Flags(running, deauthRunning)
    }

    /** `__init__`: nothing found yet, the scan flag raised, the wordlists loaded from `wordlistsPath`. */
    constructor (wordlistsPath: string, listing: Option<seq<DirEntry>>)
      ensures Valid()
      ensures iface == None && accessPoints == [] && running && !deauthRunning
      ensures this.wordlistsPath == wordlistsPath && wordlists == LoadWordlists(wordlistsPath, listing)
    {
      iface := None;
      accessPoints := [];
      running := true;
      deauthRunning := false;
      this.wordlistsPath := wordlistsPath;
      wordlists := LoadWordlists(wordlistsPath, listing);
    }

    /**
     * `_signal_handler`: the first raised flag in the order scan, attack is
     * lowered; with neither raised the interface is reset and the tool exits.
     */
    method Interrupt() returns (reaction: Reaction, reset: seq<Command>)
      modifies this`running, this`deauthRunning
      ensures old(running) ==> reaction == StopScan && !running && deauthRunning == old(deauthRunning)
      ensures !old(running) && old(deauthRunning) ==> reaction == StopAttack && !running && !deauthRunning
      ensures !old(running) && !old(deauthRunning) ==> reaction == Exit && !running && !deauthRunning
      ensures RunFlags() == AfterInterrupt(old(RunFlags())) && reaction == ReactionTo(old(RunFlags()))
      ensures reset == if reaction == Exit then ResetCommands(iface) else []
    {
      if running {
        running := false;
        reaction, reset := StopScan, [];
      } else if deauthRunning {
        deauthRunning := false;
        reaction, reset := StopAttack, [];
      } else {
        reaction, reset := Exit, ResetCommands(iface);
      }
    }

    /** The membership scan of hackwifi.py:201. */
    method IsKnown(bssid: string) returns (found: bool)
      ensures found <==> Known(accessPoints, bssid)
    {
      found := false;
      var i := 0;
      while i < |accessPoints| && !found
        invariant 0 <= i <= |accessPoints|
        invariant found ==> Known(accessPoints, bssid)
        invariant !found ==> forall j :: 0 <= j < i ==> accessPoints[j].bssid != bssid
      {
        found := accessPoints[i].bssid == bssid;
        i := i + 1;
      }
    }

    /**
     * `packet_handler`: a beacon with a new BSSID is appended as one entry,
     * anything else leaves the registry as it was.
     */
    method HandlePacket(frame: Frame)
      requires Valid()
      modifies this`accessPoints
      ensures Valid()
      ensures accessPoints == Observe(old(accessPoints), frame)
      ensures frame.NonBeacon? ==> accessPoints == old(accessPoints)
      ensures frame.Beacon? && Known(old(accessPoints), frame.bssid) ==> accessPoints == old(accessPoints)
      ensures frame.Beacon? && !Known(old(accessPoints), frame.bssid) ==>
        accessPoints == old(accessPoints) + [AccessPoint(frame.ssid, frame.bssid, frame.channel)]
    {
      if frame.Beacon? {
        var known := IsKnown(frame.bssid);
        if !known {
          accessPoints := accessPoints + [EntryOf(frame)];
        }
      }
    }

    /** The registry side of `scan_wifi`: cleared, then fed the frames captured before the scan is stopped. */
    method Scan(frames: seq<Frame>)
      modifies this`accessPoints
      ensures Valid()
      ensures accessPoints == ScanResult(frames)
    {
      accessPoints := [];
      for i := 0 to |frames|
        invariant Valid()
        invariant accessPoints == Ingest([], frames[..i])
      {
        assert frames[..i + 1][..i] == frames[..i];
        HandlePacket(frames[i]);
      }
      assert frames[..|frames|] == frames;
    }

    /**
     * `select_targets`: with no access point it gives up at once; otherwise it
     * reads lines until one names at least one access point in range.
     */
    method SelectTargets(lines: seq<string>, parseInt: string -> Option<int>)
      returns (answer: Answer<seq<AccessPoint>>)
      ensures answer.NoChoices? <==> accessPoints == []
      ensures !answer.Abandoned?
      ensures answer.Chosen? ==>
        answer.at < |lines| && TargetsFrom(accessPoints, lines[answer.at], parseInt) == Some(answer.value)
      ensures answer.Chosen? ==>
        forall j :: 0 <= j < answer.at ==> TargetsFrom(accessPoints, lines[j], parseInt).None?
      ensures answer.EndOfInput? ==>
        forall j :: 0 <= j < |lines| ==> TargetsFrom(accessPoints, lines[j], parseInt).None?
    {
      if accessPoints == [] {
        return NoChoices;
      }
      var i := 0;
      while i < |lines|
        invariant 0 <= i <= |lines|
        invariant forall j :: 0 <= j < i ==> TargetsFrom(accessPoints, lines[j], parseInt).None?
      {
        var selected := TargetsFrom(accessPoints, lines[i], parseInt);
        if selected.Some? {
          return Chosen(selected.value, i);
        }
        i := i + 1;
      }
      return EndOfInput;
    }

    /** `select_single_ap`: reads lines until one is a number in 1..len(access_points). */
    method SelectSingleAp(lines: seq<string>, parseInt: string -> Option<int>)
      returns (answer: Answer<AccessPoint>)
      ensures answer.Chosen? || answer.EndOfInput?
      ensures answer.Chosen? ==>
        answer.at < |lines| && Accepts(|accessPoints|, parseInt(lines[answer.at])) &&
        answer.value == accessPoints[parseInt(lines[answer.at]).value - 1]
      ensures answer.Chosen? ==>
        forall j :: 0 <= j < answer.at ==> !Accepts(|accessPoints|, parseInt(lines[j]))
      ensures answer.EndOfInput? ==>
        forall j :: 0 <= j < |lines| ==> !Accepts(|accessPoints|, parseInt(lines[j]))
    {
      var i := 0;
      while i < |lines|
        invariant 0 <= i <= |lines|
        invariant forall j :: 0 <= j < i ==> !Accepts(|accessPoints|, parseInt(lines[j]))
      {
        var choice := parseInt(lines[i]);
        if Accepts(|accessPoints|, choice) {
          return Chosen(accessPoints[choice.value - 1], i);
        }
        i := i + 1;
      }
      return EndOfInput;
    }

    /**
     * The selection loop of `select_interface`: every pass probes again; with
     * nothing found, "q" quits (exit status 1) and anything else retries;
     * otherwise a number in range selects that interface.
     */
    method SelectInterface(rounds: seq<InterfaceRound>, parseInt: string -> Option<int>)
      returns (answer: Answer<string>)
      modifies this`iface
      ensures !answer.NoChoices?
      ensures answer.Chosen? ==>
        answer.at < |rounds| && iface == Some(answer.value) &&
        var found := AvailableInterfaces(rounds[answer.at].probe);
        found != [] && Accepts(|found|, parseInt(rounds[answer.at].line)) &&
        answer.value == found[parseInt(rounds[answer.at].line).value - 1]
      ensures answer.Abandoned? ==>
        answer.at < |rounds| && AvailableInterfaces(rounds[answer.at].probe) == [] &&
        AsciiLower(rounds[answer.at].line) == "q"
      ensures !answer.Chosen? ==> iface == old(iface)
      ensures answer.Chosen? || answer.Abandoned? ==>
        forall j :: 0 <= j < answer.at ==> InterfaceRoundRejected(rounds[j], parseInt)
      ensures answer.EndOfInput? ==>
        forall j :: 0 <= j < |rounds| ==> InterfaceRoundRejected(rounds[j], parseInt)
    {
      var i := 0;
      while i < |rounds|
        invariant 0 <= i <= |rounds|
        invariant forall j :: 0 <= j < i ==> InterfaceRoundRejected(rounds[j], parseInt)
        invariant iface == old(iface)
      {
        var found := AvailableInterfaces(rounds[i].probe);
        if found == [] {
          if AsciiLower(rounds[i].line) == "q" {
            return Abandoned(i);
          }
        } else {
          var choice := parseInt(rounds[i].line);
          if Accepts(|found|, choice) {
            iface := Some(found[choice.value - 1]);
            return Chosen(found[choice.value - 1], i);
          }
        }
        i := i + 1;
      }
      return EndOfInput;
    }

    /**
     * `configure_interface`: the conflicting processes are killed, then the
     * three steps run in order; the first failing step stops the sequence,
     * the interface is reset to managed mode and the tool exits with status 1.
     * `stepOk[i]` says whether step i would succeed.
     */
    method ConfigureInterface(stepOk: seq<bool>) returns (issued: seq<Command>, setup: Setup)
      requires iface.Some?
      requires |stepOk| == |MonitorSteps(iface.value)|
      ensures setup.Ready? <==> forall i :: 0 <= i < |stepOk| ==> stepOk[i]
      ensures setup.Ready? ==> issued == [KillConflicting] + MonitorSteps(iface.value)
      ensures setup.Failed? ==>
        setup.step < |stepOk| && !stepOk[setup.step] &&
        (forall i :: 0 <= i < setup.step ==> stepOk[i]) &&
        issued == [KillConflicting] + MonitorSteps(iface.value)[..setup.step + 1] + ResetCommands(iface)
    {
      var steps := MonitorSteps(iface.value);
      issued := [KillConflicting];
      for i := 0 to |steps|
        invariant issued == [KillConflicting] + steps[..i]
        invariant forall j :: 0 <= j < i ==> stepOk[j]
      {
        issued := issued + [steps[i]];
        assert steps[..i + 1] == steps[..i] + [steps[i]];
        if !stepOk[i] {
          issued := issued + ResetCommands(iface);
          return issued, Failed(i);
        }
      }
      assert steps[..|steps|] == steps;
      setup := Ready;
    }

    /**
     * `select_wordlist`: each reply is stripped and lowered; "r" reloads the
     * wordlists (giving up when none is left), otherwise a number in
     * 1..len(wordlists) selects that wordlist.
     */
    method SelectWordlist(replies: seq<WordlistReply>, parseInt: string -> Option<int>)
      returns (answer: Answer<string>)
      modifies this`wordlists
      ensures (answer, wordlists) == WordlistDialog(wordlistsPath, old(wordlists), replies, 0, parseInt, WordlistChoice)
      ensures WordlistOutcome(wordlistsPath, old(wordlists), replies, parseInt, WordlistChoice, answer, wordlists)
    {
      WordlistDialogMeaning(wordlistsPath, wordlists, replies, parseInt, WordlistChoice);
      answer, wordlists := RunWordlistDialog(wordlistsPath, wordlists, replies, parseInt, WordlistChoice);
    }

    /**
     * The counting part of `deauth_attack`: the attack flag is raised, and each
     * display tick shows the counter and then adds one batch per target. The
     * operator's interrupt lands during the sleep of tick number `ticks` (before
     * the first display when `ticks` is 0).
     */
    method DeauthAttack(targets: seq<AccessPoint>, ticks: nat) returns (shown: seq<nat>, sent: nat)
      requires !running
      modifies this`running, this`deauthRunning
      ensures shown == CounterTrace(|targets|, ticks)
      ensures sent == BatchSize * |targets| * ticks
      ensures !running && !deauthRunning
    {
      deauthRunning := true;
      sent := 0;
      shown := [];
      if ticks == 0 {
        var reaction, reset := Interrupt();
      }
      var tick := 0;
      while deauthRunning
        invariant !running
        invariant 0 <= tick <= ticks
        invariant deauthRunning <==> tick < ticks
        invariant shown == CounterTrace(|targets|, tick)
        invariant sent == BatchSize * |targets| * tick
        decreases ticks - tick
      {
        shown := shown + [sent];
        tick := tick + 1;
        if tick == ticks {
          var reaction, reset := Interrupt();
        }
        sent := sent + BatchSize * |targets|;
        assert sent == BatchSize * |targets| * tick;
      }
    }
  }
}
