/**
 * The two run flags and what an interrupt does to them (hackwifi.py:32-43),
 * and the packet counter shown during an attack (hackwifi.py:279-307).
 */
module Session {

  /** `running` (the scan loop) and `deauth_running` (the attack loop). */
  datatype Flags = Flags(running: bool, deauthRunning: bool)

  /** What the interrupt handler does: stop the scan, stop the attack, or reset and exit. */
  datatype Reaction = StopScan | StopAttack | Exit

  /** How many loops an interrupt still has to stop before one makes the tool exit. */
  function Pending(f: Flags): nat {
    (if f.running then 1 else 0) + (if f.deauthRunning then 1 else 0)
  }

  /** The reaction to one interrupt: the checks are made in priority order. */
  function ReactionTo(f: Flags): (r: Reaction)
    ensures r == Exit <==> Pending(f) == 0
  {
    if f.running then StopScan else if f.deauthRunning then StopAttack else Exit
  }

  /** The flags after one interrupt. */
  function AfterInterrupt(f: Flags): (r: Flags)
    ensures r.running ==> f.running
    ensures r.deauthRunning ==> f.deauthRunning
    ensures Pending(r) == if Pending(f) == 0 then 0 else Pending(f) - 1
  {
    if f.running then f.(running := false)
    else if f.deauthRunning then f.(deauthRunning := false)
    else f
  }

  /** The reactions to `n` interrupts in a row. */
  function Reactions(f: Flags, n: nat): (r: seq<Reaction>)
    ensures |r| == n
    decreases n
  {
    if n == 0 then [] else [ReactionTo(f)] + Reactions(AfterInterrupt(f), n - 1)
  }

  /**
   * Interrupts stop the running loops one by one; the tool exits on exactly
   * the interrupt that finds no loop running.
   */
  lemma {:induction false} ExitAfterPending(f: Flags, n: nat)
    ensures forall i :: 0 <= i < n ==> (Reactions(f, n)[i] == Exit <==> i >= Pending(f))
    decreases n
  {
    if n > 0 {
      var g := AfterInterrupt(f);
      ExitAfterPending(g, n - 1);
      forall i | 0 <= i < n ensures Reactions(f, n)[i] == Exit <==> i >= Pending(f) {
        if i > 0 {
          assert Reactions(f, n)[i] == Reactions(g, n - 1)[i - 1];
          if Pending(f) == 0 { assert Pending(g) == 0; }
        }
      }
    }
  }

  /**
   * The priority order of the handler: with both flags raised, the scan is
   * stopped before the attack. The program itself never raises both:
   * `running` is already cleared when the scan loop ends (hackwifi.py:217),
   * and `deauth_running` is raised only afterwards (hackwifi.py:279). The
   * lemma describes the handler's order, not a reachable state.
   */
  lemma ScanStopsFirst(f: Flags)
    requires f.running && f.deauthRunning
    ensures Reactions(f, 2) == [StopScan, StopAttack]
    ensures AfterInterrupt(AfterInterrupt(f)) == Flags(false, false)
  {
    assert Reactions(AfterInterrupt(f), 1) == [StopAttack];
  }

  /** Each sender thread is counted as one batch of this many frames per display tick. */
  const BatchSize := 100

  /** The values of "Packets sent" shown on the first `ticks` display ticks of an attack on `targets` APs. */
  function CounterTrace(targets: nat, ticks: nat): (r: seq<nat>)
    ensures |r| == ticks
  {
    if ticks == 0 then [] else CounterTrace(targets, ticks - 1) + [BatchSize * targets * (ticks - 1)]
  }

  /** The k-th shown value is k batches for every target. */
  lemma {:induction false} CounterTraceAt(targets: nat, ticks: nat, k: nat)
    requires k < ticks
    ensures CounterTrace(targets, ticks)[k] == BatchSize * targets * k
    decreases ticks
  {
    if k < ticks - 1 {
      CounterTraceAt(targets, ticks - 1, k);
    }
  }

  /** The counter starts at zero and grows by exactly one batch per target per tick. */
  lemma CounterSteps(targets: nat, ticks: nat)
    ensures ticks > 0 ==> CounterTrace(targets, ticks)[0] == 0
    ensures forall k :: 0 <= k < ticks - 1 ==>
      CounterTrace(targets, ticks)[k + 1] == CounterTrace(targets, ticks)[k] + BatchSize * targets
  {
    if ticks > 0 { CounterTraceAt(targets, ticks, 0); }
    forall k | 0 <= k < ticks - 1
      ensures CounterTrace(targets, ticks)[k + 1] == CounterTrace(targets, ticks)[k] + BatchSize * targets
    {
      CounterTraceAt(targets, ticks, k);
      CounterTraceAt(targets, ticks, k + 1);
    }
  }

  /** The shown counter never decreases. */
  lemma CounterMonotone(targets: nat, ticks: nat, i: nat, j: nat)
    requires i <= j < ticks
    ensures CounterTrace(targets, ticks)[i] <= CounterTrace(targets, ticks)[j]
  {
    CounterTraceAt(targets, ticks, i);
    CounterTraceAt(targets, ticks, j);
    assert BatchSize * targets * i <= BatchSize * targets * j by {
      MulMonotone(BatchSize * targets, i, j);
    }
  }

  lemma MulMonotone(a: nat, i: nat, j: nat)
    requires i <= j
    ensures a * i <= a * j
  {
    assert a * j == a * i + a * (j - i);
  }
}
