/**
 An induction principle for what one slot keeps over whole runs: a property of the slot's state
 that holds of a fresh slot and survives a received shred, a recovery attempt and an emission
 holds at every moment of every run. It covers slots that are stale, pruned and created again.
 */
module SlotInvariants {
  import opened Shreds
  import opened Trackers
  import opened Reassembly
  import opened Emissions
  import opened Bookkeeping

  /** Some arrival of the slot belongs to the FEC set. */
  ghost predicate SetArrived(arrivals: set<Shred>, number: nat, fecSet: Index) {
    exists shred :: shred in arrivals && shred.slot == number && shred.fecSet == fecSet
  }

  /** The slot once the segment found from `index` is emitted. */
  ghost function Emitted(codec: Codec, number: nat, slot: SlotState, index: Index): SlotState
    requires Emittable(codec, number, slot.tracker, index).Some?
  {
    var em := Emittable(codec, number, slot.tracker, index).value;
    slot.(tracker := Mark(slot.tracker, em.start, em.end))
  }

  ghost predicate SurvivesShreds(number: nat, arrivals: set<Shred>, inv: SlotState -> bool) {
    forall slot, shred :: inv(slot) && shred in arrivals && shred.slot == number && Accept(slot, shred).Some? ==>
      inv(Accept(slot, shred).value)
  }

  ghost predicate SurvivesRecovery(codec: Codec, inv: SlotState -> bool) {
    forall slot, fecSet, iteration :: inv(slot) && Enumerates(iteration, HeldOf(slot, fecSet)) ==>
      inv(RecoverSet(codec, iteration, slot, fecSet).slot)
  }

  ghost predicate SurvivesEmission(codec: Codec, number: nat, arrivals: set<Shred>, inv: SlotState -> bool) {
    forall slot, index ::
      inv(slot) && SetArrived(arrivals, number, index) && Emittable(codec, number, slot.tracker, index).Some? ==>
        inv(Emitted(codec, number, slot, index))
  }

  /** The property holds of a fresh slot and survives whatever a call does to the slot. */
  ghost predicate Kept(codec: Codec, number: nat, arrivals: set<Shred>, inv: SlotState -> bool) {
    && inv(FreshSlot()) && SurvivesShreds(number, arrivals, inv)
    && SurvivesRecovery(codec, inv) && SurvivesEmission(codec, number, arrivals, inv)
  }

  lemma {:induction false} IngestKeeps(st: State, batch: seq<Packet>, number: nat, arrivals: set<Shred>,
      inv: SlotState -> bool)
    requires SurvivesShreds(number, arrivals, inv) && ShredsOf(batch) <= arrivals && inv(SlotAt(st, number))
    ensures inv(SlotAt(Ingest(st, batch).st, number))
  {
    if batch != [] {
      var rest, packet := batch[..|batch| - 1], batch[|batch| - 1];
      ShredsOfStep(batch);
      IngestKeeps(st, rest, number, arrivals, inv);
      if packet.Parsed? {
        assert packet.shred in ShredsOf(batch);
      }
    }
  }

  lemma {:induction false} RecoverAllKeeps(codec: Codec, order: Order, st: State, work: seq<WorkItem>, number: nat,
      inv: SlotState -> bool)
    requires SurvivesRecovery(codec, inv) && EnumeratesSets(order) && inv(SlotAt(st, number))
    ensures inv(SlotAt(RecoverAll(codec, order, st, work).st, number))
  {
    if work != [] {
      var rest, item := work[..|work| - 1], work[|work| - 1];
      RecoverAllKeeps(codec, order, st, rest, number, inv);
      var slot := SlotAt(RecoverAll(codec, order, st, rest).st, item.slot);
      assert Enumerates(order(item.slot, item.fecSet, HeldOf(slot, item.fecSet)), HeldOf(slot, item.fecSet));
    }
  }

  ghost predicate WorkArrived(arrivals: set<Shred>, work: seq<WorkItem>) {
    forall item :: item in work ==> SetArrived(arrivals, item.slot, item.fecSet)
  }

  lemma {:induction false} EmitAllKeeps(codec: Codec, st: State, work: seq<WorkItem>, number: nat,
      arrivals: set<Shred>, inv: SlotState -> bool)
    requires SurvivesEmission(codec, number, arrivals, inv) && WorkArrived(arrivals, work) && inv(SlotAt(st, number))
    ensures inv(SlotAt(EmitAll(codec, st, work).st, number))
  {
    if work != [] {
      var rest, item := work[..|work| - 1], work[|work| - 1];
      assert item in work;
      EmitAllKeeps(codec, st, rest, number, arrivals, inv);
      var slot := SlotAt(EmitAll(codec, st, rest).st, item.slot);
      if item.slot == number && Emittable(codec, number, slot.tracker, item.fecSet).Some? {
        assert inv(Emitted(codec, number, slot, item.fecSet));
      }
    }
  }

  /** A work item names the FEC set of a shred that arrived. */
  lemma {:induction false} IngestWorkArrived(st: State, batch: seq<Packet>, arrivals: set<Shred>)
    requires ShredsOf(batch) <= arrivals
    ensures WorkArrived(arrivals, Ingest(st, batch).work)
  {
    if batch != [] {
      ShredsOfStep(batch);
      IngestWorkArrived(st, batch[..|batch| - 1], arrivals);
    }
  }

  lemma CallWorkArrived(st: State, batch: seq<Packet>, arrivals: set<Shred>)
    requires ShredsOf(batch) <= arrivals
    ensures WorkArrived(arrivals, Work(st, batch))
  {
    IngestWorkArrived(st, batch, arrivals);
    SortDedupKeeps(Ingest(st, batch).work);
  }

  // ----- at every moment of a run -----

  lemma {:induction false} RunKeeps(codec: Codec, events: seq<Event>, number: nat, arrivals: set<Shred>,
      inv: SlotState -> bool)
    requires Kept(codec, number, arrivals, inv) && OrdersEnumerate(events) && Received(events) <= arrivals
    ensures inv(SlotAt(Run(codec, events).st, number))
  {
    if events != [] {
      var rest, event := events[..|events| - 1], events[|events| - 1];
      RunKeeps(codec, rest, number, arrivals, inv);
      var st, work := Run(codec, rest).st, Work(Run(codec, rest).st, event.batch);
      DuringEmissionKeeps(codec, event.order, st, event.batch, |work|, number, arrivals, inv);
      assert work[..|work|] == work;
    }
  }

  lemma DuringRecoveryKeeps(codec: Codec, order: Order, st: State, batch: seq<Packet>, done: nat, number: nat,
      arrivals: set<Shred>, inv: SlotState -> bool)
    requires Kept(codec, number, arrivals, inv) && EnumeratesSets(order) && ShredsOf(batch) <= arrivals
    requires done <= |Work(st, batch)| && inv(SlotAt(st, number))
    ensures inv(SlotAt(RecoverAll(codec, order, Ingest(st, batch).st, Work(st, batch)[..done]).st, number))
  {
    IngestKeeps(st, batch, number, arrivals, inv);
    RecoverAllKeeps(codec, order, Ingest(st, batch).st, Work(st, batch)[..done], number, inv);
  }

  lemma DuringEmissionKeeps(codec: Codec, order: Order, st: State, batch: seq<Packet>, done: nat, number: nat,
      arrivals: set<Shred>, inv: SlotState -> bool)
    requires Kept(codec, number, arrivals, inv) && EnumeratesSets(order) && ShredsOf(batch) <= arrivals
    requires done <= |Work(st, batch)| && inv(SlotAt(st, number))
    ensures inv(SlotAt(DuringEmission(codec, order, st, batch, done), number))
  {
    var work := Work(st, batch);
    DuringRecoveryKeeps(codec, order, st, batch, |work|, number, arrivals, inv);
    assert work[..|work|] == work;
    CallWorkArrived(st, batch, arrivals);
    EmitAllKeeps(codec, AfterRecovery(codec, order, st, batch).st, work[..done], number, arrivals, inv);
  }

  /** What arrived before a call, and in it, is among what arrived in the whole run. */
  lemma {:induction false} ReceivedPrefix(events: seq<Event>, call: nat)
    requires call < |events|
    ensures Received(events[..call]) <= Received(events) && ShredsOf(events[call].batch) <= Received(events)
  {
    var last := |events| - 1;
    if call < last {
      ReceivedPrefix(events[..last], call);
      assert events[..last][..call] == events[..call];
    }
  }
}
