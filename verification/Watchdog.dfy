/**
 When the watchdog's warning that nothing was received can be trusted, as a property of the
 order of steps alone. Two runs have the same schedule when they take the same steps in the same
 order and differ at most in how much each forwarder step adds.
 */
module Watchdog {
  import opened Counters

  ghost predicate SameKind(a: Step, b: Step) {
    if a.Add? then b.Add? && b.counter == a.counter else a == b
  }

  ghost predicate SameSchedule(a: seq<Step>, b: seq<Step>) {
    |a| == |b| && forall i :: 0 <= i < |a| ==> SameKind(a[i], b[i])
  }

  /** A forwarder step that counts received packets. */
  ghost predicate Receives(step: Step) {
    step.Add? && step.counter == RECEIVED
  }

  /** The accessory thread swaps the count of received packets out at this step. */
  ghost predicate SwapsAt(steps: seq<Step>, at: nat)
    requires at < |steps|
  {
    steps[at].Reset? && Run(steps[..at]).stage == Swapping(RECEIVED)
  }

  /** After this step the count of received packets is swapped out, and later added. */
  ghost predicate MovedAfter(steps: seq<Step>, at: nat) {
    exists swap: nat, add: nat :: at < swap < add < |steps| && SwapsAt(steps, swap) && steps[add].Reset?
  }

  /** Every step after the last tick that counts received packets is followed by a complete move. */
  ghost predicate AllMovedAfter(steps: seq<Step>, tick: nat) {
    forall at: nat :: tick < at < |steps| && Receives(steps[at]) ==> MovedAfter(steps, at)
  }

  /** If the next tick would warn, then nothing was received since the last one. */
  ghost predicate WarningRight(steps: seq<Step>, tick: nat)
    requires tick <= |steps|
  {
    WouldRestart(Run(steps)) ==> Added(steps, RECEIVED) == Added(steps[..tick], RECEIVED)
  }

  // ----- the stage of the accessory thread depends on the schedule only -----

  ghost predicate SameStage(a: Stage, b: Stage) {
    a.Swapping? == b.Swapping? && a.counter == b.counter
  }

  lemma StageStep(m: Metrics, other: Metrics, a: Step, b: Step)
    requires m.Complete() && other.Complete() && SameKind(a, b) && SameStage(m.stage, other.stage)
    ensures SameStage(Apply(m, a).stage, Apply(other, b).stage)
  {
  }

  lemma {:induction false} StageFollowsSchedule(a: seq<Step>, b: seq<Step>, n: nat)
    requires SameSchedule(a, b) && n <= |a|
    ensures SameStage(Run(a[..n]).stage, Run(b[..n]).stage)
    decreases n
  {
    if n == 0 {
      assert a[..n] == [] && b[..n] == [];
    } else {
      StageFollowsSchedule(a, b, n - 1);
      RunPrefix(a, n - 1);
      RunPrefix(b, n - 1);
      StageStep(Run(a[..n - 1]), Run(b[..n - 1]), a[n - 1], b[n - 1]);
    }
  }

  lemma MovedFollowsSchedule(a: seq<Step>, b: seq<Step>, at: nat)
    requires SameSchedule(a, b) && MovedAfter(a, at)
    ensures MovedAfter(b, at)
  {
    var swap: nat, add: nat :| at < swap < add < |a| && SwapsAt(a, swap) && a[add].Reset?;
    StageFollowsSchedule(a, b, swap);
    assert SameKind(a[swap], b[swap]) && SameKind(a[add], b[add]);
    assert SwapsAt(b, swap);
  }

  // ----- when all is moved, the warning is right -----

  /** Up to where a step counts received packets: the last such step after `low`, or `low` itself. */
  lemma {:induction false} LastReceived(steps: seq<Step>, low: nat, high: nat) returns (last: nat)
    requires low < high <= |steps|
    ensures low <= last < high && (last == low || Receives(steps[last]))
    ensures forall i :: last < i < high ==> !Receives(steps[i])
    decreases high
  {
    if high - 1 == low || Receives(steps[high - 1]) {
      last := high - 1;
    } else {
      last := LastReceived(steps, low, high - 1);
    }
  }

  lemma {:induction false} NothingAdded(steps: seq<Step>, low: nat, high: nat)
    requires low <= high <= |steps| && forall i :: low <= i < high ==> !Receives(steps[i])
    ensures Added(steps[..high], RECEIVED) == Added(steps[..low], RECEIVED)
    decreases high
  {
    if low < high {
      NothingAdded(steps, low, high - 1);
      assert steps[..high][..high - 1] == steps[..high - 1];
    }
  }

  lemma NothingAddedSince(steps: seq<Step>, low: nat)
    requires low <= |steps| && forall i :: low <= i < |steps| ==> !Receives(steps[i])
    ensures Added(steps, RECEIVED) == Added(steps[..low], RECEIVED)
  {
    NothingAdded(steps, low, |steps|);
    assert steps[..|steps|] == steps;
  }

  lemma AllMovedMeansRight(steps: seq<Step>, tick: nat)
    requires tick < |steps| && steps[tick].Tick? && NoTick(steps[tick + 1..])
    requires Added(steps, RECEIVED) < U64_RANGE && AllMovedAfter(steps, tick)
    ensures WarningRight(steps, tick)
  {
    if WouldRestart(Run(steps)) {
      var last := LastReceived(steps, tick, |steps|);
      if last == tick {
        NothingAddedSince(steps, tick);
      } else {
        assert MovedAfter(steps, last);
        var swap: nat, later: nat :| last < swap < later < |steps| && SwapsAt(steps, swap) && steps[later].Reset?;
        var add := FirstReset(steps, swap + 1, later);
        SilentUntilSwap(steps, tick, swap, add);
        NothingAddedSince(steps, swap);
      }
    }
  }

  // ----- otherwise one packet is enough to make it wrong -----

  /** The same schedule with a single packet, counted at one step. */
  ghost function OnePacket(steps: seq<Step>, at: nat): seq<Step> {
    seq(|steps|, i requires 0 <= i < |steps| =>
      if steps[i].Add? then Add(steps[i].counter, if i == at then 1 else 0) else steps[i])
  }

  lemma {:induction false} OnePacketAdded(steps: seq<Step>, at: nat, n: nat)
    requires at < |steps| && Receives(steps[at]) && n <= |steps|
    ensures Added(OnePacket(steps, at)[..n], RECEIVED) == if n <= at then 0 else 1
    decreases n
  {
    if n > 0 {
      var other := OnePacket(steps, at);
      OnePacketAdded(steps, at, n - 1);
      assert other[..n][..n - 1] == other[..n - 1];
    }
  }

  /** The packet has not been moved; if it is in flight, it was swapped out after its step. */
  ghost predicate StillUnmoved(steps: seq<Step>, at: nat, n: nat)
    requires n <= |steps|
  {
    var m := Run(steps[..n]);
    && Moved(steps[..n], RECEIVED) == 0
    && (n <= at ==> m.current[RECEIVED] == 0 && InFlight(m, RECEIVED) == 0)
    && (InFlight(m, RECEIVED) > 0 ==> exists swap: nat :: at < swap < n && SwapsAt(steps, swap))
  }

  lemma StillUnmovedStep(steps: seq<Step>, at: nat, n: nat)
    requires n < |steps| && at < |steps| && Receives(steps[at]) && !MovedAfter(steps, at)
    requires n < at && Receives(steps[n]) ==> steps[n].amount == 0
    requires StillUnmoved(steps, at, n)
    ensures StillUnmoved(steps, at, n + 1)
  {
    var m := Run(steps[..n]);
    RunPrefix(steps, n);
    MovedPrefix(steps, n, RECEIVED);
    if steps[n].Reset? && m.stage == Swapping(RECEIVED) {
      assert SwapsAt(steps, n);
    }
  }

  lemma {:induction false} PacketStaysUnmoved(steps: seq<Step>, at: nat, n: nat)
    requires at < |steps| && Receives(steps[at]) && n <= |steps|
    requires !MovedAfter(OnePacket(steps, at), at)
    ensures StillUnmoved(OnePacket(steps, at), at, n)
    decreases n
  {
    var other := OnePacket(steps, at);
    if n == 0 {
      assert other[..n] == [];
    } else {
      PacketStaysUnmoved(steps, at, n - 1);
      StillUnmovedStep(other, at, n - 1);
    }
  }

  lemma OnePacketSchedule(steps: seq<Step>, at: nat)
    ensures SameSchedule(steps, OnePacket(steps, at)) && SameSchedule(OnePacket(steps, at), steps)
  {
  }

  /** A step that no complete move follows: with one packet counted there, the warning is wrong. */
  lemma UnmovedMakesWrong(steps: seq<Step>, tick: nat, at: nat)
    requires tick < at < |steps| && steps[tick].Tick? && NoTick(steps[tick + 1..])
    requires Receives(steps[at]) && !MovedAfter(steps, at)
    ensures var other := OnePacket(steps, at);
            SameSchedule(steps, other) && Added(other, RECEIVED) < U64_RANGE && !WarningRight(other, tick)
  {
    var other := OnePacket(steps, at);
    OnePacketSchedule(steps, at);
    if MovedAfter(other, at) {
      MovedFollowsSchedule(other, steps, at);
    }
    PacketStaysUnmoved(steps, at, |steps|);
    OnePacketAdded(steps, at, |steps|);
    OnePacketAdded(steps, at, tick);
    assert other[..|steps|] == other;
    assert other[tick].Tick? && NoTick(other[tick + 1..]);
    UnmovedRestarts(other, tick);
  }

  lemma UnmovedRestarts(steps: seq<Step>, tick: nat)
    requires tick < |steps| && steps[tick].Tick? && NoTick(steps[tick + 1..])
    requires Added(steps, RECEIVED) < U64_RANGE && Moved(steps, RECEIVED) == 0
    ensures WouldRestart(Run(steps))
  {
    assert steps == steps[..tick] + [Tick] + steps[tick + 1..];
    PrefixGrows(steps, tick, RECEIVED);
    RestartsIffNothingMoved(steps[..tick], steps[tick + 1..]);
  }

  /**
   The warning is right whatever amounts are received if and only if every step since the last
   tick that counts received packets is followed by a swap of that count and the add that
   completes it: a condition on the order of steps, not on any counter.
   */
  lemma WarningRightIffAllMoved(steps: seq<Step>, tick: nat)
    requires tick < |steps| && steps[tick].Tick? && NoTick(steps[tick + 1..])
    ensures AllMovedAfter(steps, tick)
       <==> forall other :: SameSchedule(steps, other) && Added(other, RECEIVED) < U64_RANGE ==>
              WarningRight(other, tick)
  {
    if AllMovedAfter(steps, tick) {
      forall other | SameSchedule(steps, other) && Added(other, RECEIVED) < U64_RANGE
        ensures WarningRight(other, tick)
      {
        AllMovedFollows(steps, other, tick);
        AllMovedMeansRight(other, tick);
      }
    } else {
      var at: nat :| tick < at < |steps| && Receives(steps[at]) && !MovedAfter(steps, at);
      UnmovedMakesWrong(steps, tick, at);
    }
  }

  lemma AllMovedFollows(steps: seq<Step>, other: seq<Step>, tick: nat)
    requires SameSchedule(steps, other) && AllMovedAfter(steps, tick)
    requires tick < |steps| && steps[tick].Tick? && NoTick(steps[tick + 1..])
    ensures AllMovedAfter(other, tick) && other[tick].Tick? && NoTick(other[tick + 1..])
  {
    assert SameKind(steps[tick], other[tick]);
    forall at: nat | tick < at < |other|
      ensures !other[at].Tick? && (Receives(other[at]) ==> MovedAfter(other, at))
    {
      assert SameKind(steps[at], other[at]);
      assert steps[tick + 1..][at - tick - 1] == steps[at];
      if Receives(other[at]) {
        MovedFollowsSchedule(steps, other, at);
      }
    }
  }

  /**
   No counter the heartbeat thread could read decides whether the warning is right: these two
   runs agree on all of them, and only the second received a packet since the tick.
   */
  lemma CountersDoNotTell()
    ensures var silent, busy := Run([Tick]), Run([Tick, Add(RECEIVED, 1), Reset]);
            && silent.current == busy.current && silent.cumulative == busy.cumulative
            && silent.lastSeen == busy.lastSeen && WouldRestart(silent) && WouldRestart(busy)
    ensures Added([Tick], RECEIVED) == 0 && Added([Tick, Add(RECEIVED, 1), Reset], RECEIVED) == 1
  {
    var steps := [Tick, Add(RECEIVED, 1), Reset];
    assert steps[..2] == [Tick, Add(RECEIVED, 1)] && steps[..2][..1] == [Tick] && [Tick][..0] == [];
    assert Run([Tick]) == Apply(Initial(), Tick);
    assert Run(steps[..2]) == Apply(Run([Tick]), Add(RECEIVED, 1));
    assert Run(steps) == Apply(Run(steps[..2]), Reset);
  }
}
