/**
 The metrics counters as a state machine over atomic steps: forwarder threads add to
 the current counters, the accessory thread moves them into the cumulative ones in two
 steps each, and the heartbeat thread reads the cumulative count of received packets.
 Any sequence of steps is an interleaving of the threads.
 */
module Counters {
  const U64_RANGE: nat := 0x1_0000_0000_0000_0000

  type U64 = n: nat | n < U64_RANGE

  /** The counters that `reset` moves, in its order: received, forwarded, failed to forward, duplicate. */
  type Counter = i: nat | i < 4
  const RECEIVED: Counter := 0

  /** Where the accessory thread stands: about to swap a counter out, or holding what it swapped out. */
  datatype Stage = Swapping(counter: Counter) | Holding(counter: Counter, amount: U64)

  datatype Metrics = Metrics(
    current: seq<U64>,
    cumulative: seq<U64>,
    stage: Stage,
    lastSeen: U64)
  {
    predicate Complete() {
      |current| == |cumulative| == 4
    }
  }

  /** One atomic step of some thread. */
  datatype Step =
    | Add(counter: Counter, amount: U64)
    | Reset
    | Tick

  function Initial(): (m: Metrics)
    ensures m.Complete()
  {
    Metrics([0, 0, 0, 0], [0, 0, 0, 0], Swapping(RECEIVED), 0)
  }

  function Next(c: Counter): Counter { (c + 1) % 4 }

  /** Addition as an atomic 64-bit counter does it. */
  function Wrap(n: nat): U64 { n % U64_RANGE }

  /** The watchdog would restart the client at a tick in this state. */
  predicate WouldRestart(m: Metrics)
    requires m.Complete()
  {
    m.cumulative[RECEIVED] == m.lastSeen
  }

  function Apply(m: Metrics, step: Step): (r: Metrics)
    requires m.Complete()
    ensures r.Complete()
  {
    match step
    case Add(c, amount) => m.(current := m.current[c := Wrap(m.current[c] + amount)])
    case Reset =>
      (match m.stage
       case Swapping(c) => m.(current := m.current[c := 0], stage := Holding(c, m.current[c]))
       case Holding(c, amount) =>
         m.(cumulative := m.cumulative[c := Wrap(m.cumulative[c] + amount)], stage := Swapping(Next(c))))
    case Tick => if WouldRestart(m) then m else m.(lastSeen := m.cumulative[RECEIVED])
  }

  function Run(steps: seq<Step>): (m: Metrics)
    ensures m.Complete()
  {
    if steps == [] then Initial()
    else Apply(Run(steps[..|steps| - 1]), steps[|steps| - 1])
  }

  // ----- conservation -----

  /** All that was ever added to a counter, without wrap-around. */
  function Added(steps: seq<Step>, c: Counter): nat {
    if steps == [] then 0
    else
      var rest, last := steps[..|steps| - 1], steps[|steps| - 1];
      Added(rest, c) + if last.Add? && last.counter == c then last.amount else 0
  }

  /** All that was ever moved into a cumulative counter. */
  function Moved(steps: seq<Step>, c: Counter): nat {
    if steps == [] then 0
    else
      var rest, last := steps[..|steps| - 1], steps[|steps| - 1];
      Moved(rest, c) + MovedBy(Run(rest), last, c)
  }

  function MovedBy(m: Metrics, step: Step, c: Counter): nat {
    if step.Reset? && m.stage.Holding? && m.stage.counter == c then m.stage.amount else 0
  }

  /** What the accessory thread has taken out of a counter and not yet added to its cumulative one. */
  function InFlight(m: Metrics, c: Counter): nat {
    if m.stage.Holding? && m.stage.counter == c then m.stage.amount else 0
  }

  lemma CumulativeStep(m: Metrics, step: Step, c: Counter, moved: nat)
    requires m.Complete() && m.cumulative[c] == Wrap(moved)
    ensures Apply(m, step).cumulative[c] == Wrap(moved + MovedBy(m, step, c))
  {
    WrapSum(moved, MovedBy(m, step, c));
  }

  lemma {:induction false} CumulativeIsMoved(steps: seq<Step>, c: Counter)
    ensures Run(steps).cumulative[c] == Wrap(Moved(steps, c))
  {
    if steps != [] {
      var rest := steps[..|steps| - 1];
      CumulativeIsMoved(rest, c);
      CumulativeStep(Run(rest), steps[|steps| - 1], c, Moved(rest, c));
    }
  }

  lemma WrapSmall(n: nat)
    requires n < U64_RANGE
    ensures Wrap(n) == n
  {
  }

  /** The cumulative count, without wrap-around. */
  lemma CumulativeExact(steps: seq<Step>, c: Counter)
    requires Added(steps, c) < U64_RANGE
    ensures Run(steps).cumulative[c] == Moved(steps, c)
  {
    CumulativeIsMoved(steps, c);
    AccountedAtMostAdded(steps, c);
    WrapSmall(Moved(steps, c));
  }

  lemma WrapSum(a: nat, b: nat)
    ensures Wrap(Wrap(a) + b) == Wrap(a + b)
  {
    assert a == U64_RANGE * (a / U64_RANGE) + Wrap(a);
    assert a + b == U64_RANGE * (a / U64_RANGE) + (Wrap(a) + b);
    WrapMultiple(a / U64_RANGE, Wrap(a) + b);
  }

  lemma {:induction false} WrapMultiple(q: nat, n: nat)
    ensures (U64_RANGE * q + n) % U64_RANGE == n % U64_RANGE
  {
    if q > 0 {
      WrapMultiple(q - 1, n);
      assert U64_RANGE * q + n == U64_RANGE * (q - 1) + n + U64_RANGE;
    }
  }

  /** The parts into which all that was added to a counter is divided. */
  function Accounted(steps: seq<Step>, c: Counter): nat {
    var m := Run(steps);
    Moved(steps, c) + m.current[c] + InFlight(m, c)
  }

  lemma OtherStepsAccounted(steps: seq<Step>, c: Counter)
    requires steps != []
    requires var last := steps[|steps| - 1]; !(last.Add? && last.counter == c)
    ensures Accounted(steps, c) == Accounted(steps[..|steps| - 1], c)
  {
  }

  lemma AddAccounted(before: nat, current: U64, amount: U64)
    ensures Wrap(before + Wrap(current + amount)) == Wrap(Wrap(before + current) + amount)
  {
    WrapSum(current + amount, before);
    WrapSum(before + current, amount);
  }

  lemma AddConserves(steps: seq<Step>, c: Counter)
    requires steps != []
    requires var last := steps[|steps| - 1]; last.Add? && last.counter == c
    requires var rest := steps[..|steps| - 1]; Wrap(Accounted(rest, c)) == Wrap(Added(rest, c))
    ensures Wrap(Accounted(steps, c)) == Wrap(Added(steps, c))
  {
    var rest, last := steps[..|steps| - 1], steps[|steps| - 1];
    var m := Run(rest);
    AddAccounted(Moved(rest, c) + InFlight(m, c), m.current[c], last.amount);
    WrapSum(Added(rest, c), last.amount);
  }

  lemma {:induction false} AccountedIsAdded(steps: seq<Step>, c: Counter)
    ensures Wrap(Accounted(steps, c)) == Wrap(Added(steps, c))
  {
    if steps != [] {
      var last := steps[|steps| - 1];
      AccountedIsAdded(steps[..|steps| - 1], c);
      if last.Add? && last.counter == c {
        AddConserves(steps, c);
      } else {
        OtherStepsAccounted(steps, c);
      }
    }
  }

  /**
   Nothing is lost or counted twice in any interleaving: the cumulative count, the current one
   and what is in flight make up all that was ever added, up to the width of the counters.
   */
  lemma HandOffConserves(steps: seq<Step>, c: Counter)
    ensures var m := Run(steps);
            (m.cumulative[c] + m.current[c] + InFlight(m, c)) % 0x1_0000_0000_0000_0000
              == Added(steps, c) % 0x1_0000_0000_0000_0000
  {
    var m := Run(steps);
    AccountedIsAdded(steps, c);
    CumulativeIsMoved(steps, c);
    WrapSum(Moved(steps, c), m.current[c] + InFlight(m, c));
  }

  lemma {:induction false} AccountedAtMostAdded(steps: seq<Step>, c: Counter)
    ensures Accounted(steps, c) <= Added(steps, c)
  {
    if steps != [] {
      var rest, last := steps[..|steps| - 1], steps[|steps| - 1];
      AccountedAtMostAdded(rest, c);
      if last.Add? && last.counter == c {
        assert Run(steps).current[c] <= Run(rest).current[c] + last.amount;
      } else {
        OtherStepsAccounted(steps, c);
      }
    }
  }

  /** As long as a counter's total fits its width, nothing wraps and the books balance exactly. */
  lemma HandOffExact(steps: seq<Step>, c: Counter)
    requires Added(steps, c) < 0x1_0000_0000_0000_0000
    ensures var m := Run(steps);
            m.cumulative[c] + m.current[c] + InFlight(m, c) == Added(steps, c)
  {
    AccountedIsAdded(steps, c);
    AccountedAtMostAdded(steps, c);
    CumulativeExact(steps, c);
    WrapSmall(Accounted(steps, c));
    WrapSmall(Added(steps, c));
  }

  lemma {:induction false} MovedGrows(steps: seq<Step>, more: seq<Step>, c: Counter)
    ensures Moved(steps, c) <= Moved(steps + more, c) && Added(steps, c) <= Added(steps + more, c)
    decreases |more|
  {
    if more == [] {
      assert steps + more == steps;
    } else {
      var longer := steps + more;
      assert longer[..|longer| - 1] == steps + more[..|more| - 1];
      MovedGrows(steps, more[..|more| - 1], c);
    }
  }

  /** Cumulative counters never decrease while the total fits their width. */
  lemma CumulativeNeverDecreases(steps: seq<Step>, more: seq<Step>, c: Counter)
    requires Added(steps + more, c) < U64_RANGE
    ensures Run(steps).cumulative[c] <= Run(steps + more).cumulative[c]
  {
    MovedGrows(steps, more, c);
    CumulativeExact(steps, c);
    CumulativeExact(steps + more, c);
  }

  // ----- the watchdog -----

  ghost predicate NoTick(steps: seq<Step>) {
    forall i :: 0 <= i < |steps| ==> !steps[i].Tick?
  }

  /** After a tick, whether or not it restarted, the watchdog remembers the count it read. */
  lemma {:induction false} RemembersLastTick(before: seq<Step>, between: seq<Step>)
    requires NoTick(between)
    ensures Run(before + [Tick] + between).lastSeen == Run(before).cumulative[RECEIVED]
    decreases |between|
  {
    var steps := before + [Tick] + between;
    if between == [] {
      assert steps[..|steps| - 1] == before;
    } else {
      var rest := between[..|between| - 1];
      assert steps[..|steps| - 1] == before + [Tick] + rest;
      assert steps[|steps| - 1] == between[|between| - 1];
      RemembersLastTick(before, rest);
    }
  }

  /** In full generality: a tick restarts exactly when what was moved since the last one is lost to the width. */
  lemma RestartsIffMovedWraps(before: seq<Step>, between: seq<Step>)
    requires NoTick(between)
    ensures WouldRestart(Run(before + [Tick] + between))
       <==> Moved(before + [Tick] + between, RECEIVED) % 0x1_0000_0000_0000_0000
              == Moved(before, RECEIVED) % 0x1_0000_0000_0000_0000
  {
    RemembersLastTick(before, between);
    CumulativeIsMoved(before, RECEIVED);
    CumulativeIsMoved(before + [Tick] + between, RECEIVED);
  }

  /**
   A tick restarts the client exactly when nothing was moved into the cumulative count of
   received packets since the previous tick.
   */
  lemma RestartsIffNothingMoved(before: seq<Step>, between: seq<Step>)
    requires NoTick(between) && Added(before + [Tick] + between, RECEIVED) < U64_RANGE
    ensures WouldRestart(Run(before + [Tick] + between))
       <==> Moved(before + [Tick] + between, RECEIVED) == Moved(before, RECEIVED)
  {
    var steps := before + [Tick] + between;
    RemembersLastTick(before, between);
    assert steps == before + ([Tick] + between);
    MovedGrows(before, [Tick] + between, RECEIVED);
    CumulativeExact(before, RECEIVED);
    CumulativeExact(steps, RECEIVED);
  }

  lemma {:induction false} NeverTicked(steps: seq<Step>)
    requires NoTick(steps)
    ensures Run(steps).lastSeen == 0
  {
    if steps != [] {
      NeverTicked(steps[..|steps| - 1]);
    }
  }

  /** The first tick restarts the client exactly when nothing has been moved at all. */
  lemma FirstTickRestarts(steps: seq<Step>)
    requires NoTick(steps) && Added(steps, RECEIVED) < U64_RANGE
    ensures WouldRestart(Run(steps)) <==> Moved(steps, RECEIVED) == 0
  {
    NeverTicked(steps);
    CumulativeExact(steps, RECEIVED);
  }

  /** The warning that no shreds were received can be wrong: packets that are not moved yet do not count. */
  lemma RestartDespiteTraffic()
    ensures var steps := [Tick, Add(RECEIVED, 1)];
            Added(steps, RECEIVED) > Added([Tick], RECEIVED) && WouldRestart(Run(steps))
  {
    var steps := [Tick, Add(RECEIVED, 1)];
    assert steps[..1] == [Tick] && [Tick][..0] == [];
    assert Run([]) == Initial();
    assert Run([Tick]) == Apply(Initial(), Tick);
    assert Run(steps) == Apply(Run([Tick]), Add(RECEIVED, 1));
  }

  /** Packets received but not yet part of the cumulative count. */
  function Unmoved(m: Metrics): nat
    requires m.Complete()
  {
    m.current[RECEIVED] + InFlight(m, RECEIVED)
  }

  /**
   When the warning is right: at a tick that restarts, nothing was received since the previous
   tick exactly when the count of unmoved packets is what it was then.
   */
  lemma RestartJustified(before: seq<Step>, between: seq<Step>)
    requires NoTick(between) && Added(before + [Tick] + between, RECEIVED) < U64_RANGE
    requires WouldRestart(Run(before + [Tick] + between))
    ensures Added(before + [Tick] + between, RECEIVED) == Added(before, RECEIVED)
       <==> Unmoved(Run(before + [Tick] + between)) == Unmoved(Run(before))
  {
    var steps := before + [Tick] + between;
    RestartsIffNothingMoved(before, between);
    assert steps == before + ([Tick] + between);
    MovedGrows(before, [Tick] + between, RECEIVED);
    HandOffExact(before, RECEIVED);
    HandOffExact(steps, RECEIVED);
    CumulativeExact(before, RECEIVED);
    CumulativeExact(steps, RECEIVED);
  }

  ghost predicate NoReset(steps: seq<Step>, low: nat, high: nat)
    requires high <= |steps|
  {
    forall i :: low <= i < high ==> !steps[i].Reset?
  }

  lemma RunPrefix(steps: seq<Step>, n: nat)
    requires n < |steps|
    ensures Run(steps[..n + 1]) == Apply(Run(steps[..n]), steps[n])
  {
    assert steps[..n + 1][..n] == steps[..n];
  }

  /** A swapped-out amount stays in flight until the accessory thread's next step. */
  lemma {:induction false} StaysHolding(steps: seq<Step>, low: nat, high: nat)
    requires low <= high <= |steps| && Run(steps[..low]).stage.Holding? && NoReset(steps, low, high)
    ensures Run(steps[..high]).stage == Run(steps[..low]).stage
    decreases high
  {
    if low < high {
      StaysHolding(steps, low, high - 1);
      RunPrefix(steps, high - 1);
    }
  }

  lemma MovedPrefix(steps: seq<Step>, n: nat, c: Counter)
    requires n < |steps|
    ensures Moved(steps[..n + 1], c) == Moved(steps[..n], c) + MovedBy(Run(steps[..n]), steps[n], c)
  {
    assert steps[..n + 1][..n] == steps[..n];
  }

  lemma PrefixGrows(steps: seq<Step>, n: nat, c: Counter)
    requires n <= |steps|
    ensures Moved(steps[..n], c) <= Moved(steps, c) && Added(steps[..n], c) <= Added(steps, c)
  {
    assert steps == steps[..n] + steps[n..];
    MovedGrows(steps[..n], steps[n..], c);
  }

  lemma PrefixesGrow(steps: seq<Step>, m: nat, n: nat, c: Counter)
    requires m <= n <= |steps|
    ensures Moved(steps[..m], c) <= Moved(steps[..n], c) && Added(steps[..m], c) <= Added(steps[..n], c)
  {
    assert steps[..n][..m] == steps[..m];
    PrefixGrows(steps[..n], m, c);
  }

  /** One swap of a counter and the add that follows it move what the counter held at the swap. */
  lemma MoveCompletes(steps: seq<Step>, swap: nat, add: nat, c: Counter)
    requires swap < add < |steps| && steps[swap].Reset? && steps[add].Reset? && NoReset(steps, swap + 1, add)
    requires Run(steps[..swap]).stage == Swapping(c)
    ensures Moved(steps[..swap], c) + Run(steps[..swap]).current[c] <= Moved(steps[..add + 1], c)
  {
    RunPrefix(steps, swap);
    StaysHolding(steps, swap + 1, add);
    MovedPrefix(steps, add, c);
    PrefixesGrow(steps, swap, add, c);
  }

  lemma MovedByEnd(steps: seq<Step>, swap: nat, add: nat, c: Counter)
    requires swap < add < |steps| && steps[swap].Reset? && steps[add].Reset? && NoReset(steps, swap + 1, add)
    requires Run(steps[..swap]).stage == Swapping(c)
    ensures Moved(steps[..swap], c) + Run(steps[..swap]).current[c] <= Moved(steps, c)
    ensures Added(steps[..swap], c) <= Added(steps, c)
  {
    MoveCompletes(steps, swap, add, c);
    PrefixGrows(steps, swap, c);
    PrefixGrows(steps, add + 1, c);
  }

  // ----- every counter is moved -----

  /** How many steps of the accessory thread there are. */
  function Resets(steps: seq<Step>): nat {
    if steps == [] then 0
    else Resets(steps[..|steps| - 1]) + if steps[|steps| - 1].Reset? then 1 else 0
  }

  /** The accessory thread goes through the four counters in turn, a swap and an add for each. */
  lemma {:induction false} StageByResets(steps: seq<Step>)
    ensures var stage := Run(steps).stage;
            stage.counter == Resets(steps) / 2 % 4 && (stage.Holding? <==> Resets(steps) % 2 == 1)
  {
    if steps != [] {
      StageByResets(steps[..|steps| - 1]);
    }
  }

  lemma {:induction false} FirstReset(steps: seq<Step>, low: nat, high: nat) returns (first: nat)
    requires low <= high < |steps| && steps[high].Reset?
    ensures low <= first <= high && steps[first].Reset? && NoReset(steps, low, first)
    decreases high - low
  {
    if steps[low].Reset? {
      first := low;
    } else {
      first := FirstReset(steps, low + 1, high);
    }
  }

  /** The accessory thread's step number `count`, counted from 0. */
  lemma {:induction false} ResetNumber(steps: seq<Step>, count: nat) returns (at: nat)
    requires count < Resets(steps)
    ensures at < |steps| && steps[at].Reset? && Resets(steps[..at]) == count
  {
    var rest := steps[..|steps| - 1];
    if count < Resets(rest) {
      at := ResetNumber(rest, count);
      assert rest[..at] == steps[..at];
    } else {
      at := |steps| - 1;
    }
  }

  lemma {:induction false} ResetsGrow(steps: seq<Step>, n: nat)
    requires n <= |steps|
    ensures Resets(steps[..n]) <= Resets(steps)
  {
    if n < |steps| {
      ResetsGrow(steps[..|steps| - 1], n);
      assert steps[..|steps| - 1][..n] == steps[..n];
    } else {
      assert steps[..n] == steps;
    }
  }

  /** Steps are in the order of their numbers. */
  lemma ResetOrder(steps: seq<Step>, m: nat, n: nat)
    requires m <= |steps| && n <= |steps| && Resets(steps[..m]) < Resets(steps[..n])
    ensures m < n
  {
    if n <= m {
      assert steps[..m][..n] == steps[..n];
      ResetsGrow(steps[..m], n);
    }
  }

  /** The number of the first swap of a counter among the steps from number `done` on. */
  function NextSwap(done: nat, c: Counter): (number: nat)
    ensures done <= number <= done + 7 && number / 2 % 4 == c && number % 2 == 0
  {
    done + (2 * c + 8 - done % 8) % 8
  }

  /** After a swap and its add, the cumulative count has all that was added before the swap. */
  lemma SwappedIsCounted(all: seq<Step>, n: nat, swap: nat, add: nat, c: Counter)
    requires Added(all, c) < U64_RANGE && n <= swap < add < |all|
    requires all[swap].Reset? && all[add].Reset? && NoReset(all, swap + 1, add)
    requires Run(all[..swap]).stage == Swapping(c)
    ensures Run(all).cumulative[c] >= Added(all[..n], c)
  {
    MovedByEnd(all, swap, add, c);
    HandOffExact(all[..swap], c);
    CumulativeExact(all[..swap], c);
    CumulativeExact(all, c);
    PrefixesGrow(all, n, swap, c);
  }

  /**
   Whatever was added to a counter is part of its cumulative count once the accessory thread has
   taken nine more steps, wherever in its round it stood and however the other threads interleave.
   */
  lemma EveryCounterMoved(all: seq<Step>, n: nat, c: Counter)
    requires n <= |all| && Resets(all) >= Resets(all[..n]) + 9 && Added(all, c) < 0x1_0000_0000_0000_0000
    ensures Run(all).cumulative[c] >= Added(all[..n], c)
  {
    var number := NextSwap(Resets(all[..n]), c);
    var swap := ResetNumber(all, number);
    var later := ResetNumber(all, number + 1);
    ResetOrder(all, swap, later);
    StageByResets(all[..swap]);
    assert n <= swap by {
      if swap < n {
        SwapBefore(all, swap, n);
      }
    }
    var add := FirstReset(all, swap + 1, later);
    SwappedIsCounted(all, n, swap, add, c);
  }

  lemma SwapBefore(steps: seq<Step>, at: nat, n: nat)
    requires at < n <= |steps| && steps[at].Reset?
    ensures Resets(steps[..at]) < Resets(steps[..n])
  {
    assert steps[..at + 1][..at] == steps[..at];
    ResetsGrow(steps[..n], at + 1);
    assert steps[..n][..at + 1] == steps[..at + 1];
  }

  // ----- how far back a warning reaches -----

  /** The numbers behind `SilentUntilSwap`. */
  lemma AllSeen(before: seq<Step>, first: seq<Step>, moved: nat)
    requires Run(first).stage == Swapping(RECEIVED) && Added(first, RECEIVED) < U64_RANGE
    requires Added(before, RECEIVED) <= Added(first, RECEIVED) && Moved(before, RECEIVED) <= Moved(first, RECEIVED)
    requires Moved(first, RECEIVED) + Run(first).current[RECEIVED] <= moved <= Moved(before, RECEIVED)
    ensures Added(first, RECEIVED) == Added(before, RECEIVED) == Run(before).cumulative[RECEIVED]
  {
    HandOffExact(first, RECEIVED);
    CumulativeExact(first, RECEIVED);
    CumulativeExact(before, RECEIVED);
    AccountedAtMostAdded(before, RECEIVED);
  }

  lemma NothingMovedSince(steps: seq<Step>, tick: nat)
    requires tick < |steps| && steps[tick].Tick? && NoTick(steps[tick + 1..])
    requires Added(steps, RECEIVED) < U64_RANGE && WouldRestart(Run(steps))
    ensures Moved(steps, RECEIVED) == Moved(steps[..tick], RECEIVED)
  {
    assert steps == steps[..tick] + [Tick] + steps[tick + 1..];
    RestartsIffNothingMoved(steps[..tick], steps[tick + 1..]);
  }

  /**
   How late the warning can be: if after the last tick the count of received packets is swapped
   out and added, and the next tick would restart, then nothing was received from that tick up
   to the swap; indeed the tick already saw all that was received before the swap.
   */
  lemma SilentUntilSwap(steps: seq<Step>, tick: nat, swap: nat, add: nat)
    requires tick < swap < add < |steps| && steps[tick].Tick? && NoTick(steps[tick + 1..])
    requires Run(steps[..swap]).stage == Swapping(RECEIVED)
    requires steps[swap].Reset? && steps[add].Reset? && NoReset(steps, swap + 1, add)
    requires Added(steps, RECEIVED) < U64_RANGE && WouldRestart(Run(steps))
    ensures Added(steps[..swap], RECEIVED) == Added(steps[..tick], RECEIVED)
    ensures Added(steps[..tick], RECEIVED) == Run(steps[..tick]).cumulative[RECEIVED]
  {
    NothingMovedSince(steps, tick);
    MovedByEnd(steps, swap, add, RECEIVED);
    PrefixesGrow(steps, tick, swap, RECEIVED);
    AllSeen(steps[..tick], steps[..swap], Moved(steps, RECEIVED));
  }
}
