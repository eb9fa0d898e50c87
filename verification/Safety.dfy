/**
 What every run keeps, whatever arrives and whatever the libraries return: the
 redundant vectors agree, and the slot map stays bounded.
 */
module Safety {
  import opened Options
  import opened Shreds
  import opened Trackers
  import opened FecSets
  import opened Reassembly

  // ----- every phase keeps the tracker vectors in agreement -----

  ghost predicate SlotOk(slot: SlotState) {
    Agree(slot.tracker) && ClosedRight(slot.tracker)
  }

  ghost predicate StateOk(st: State) {
    forall number :: number in st.slots ==> SlotOk(st.slots[number])
  }

  lemma FreshSlotOk()
    ensures SlotOk(FreshSlot())
  {
  }

  lemma SlotAtOk(st: State, number: nat)
    requires StateOk(st)
    ensures SlotOk(SlotAt(st, number))
  {
    FreshSlotOk();
  }

  lemma AcceptOk(slot: SlotState, shred: Shred)
    requires SlotOk(slot) && Accept(slot, shred).Some?
    ensures SlotOk(Accept(slot, shred).value)
  {
    UpdateKeeps(slot.tracker, shred);
  }

  lemma FinishedSetOk(t: Tracker, fecSet: Index)
    requires Agree(t) && ClosedRight(t)
    ensures var u := t.(recovered := t.recovered[fecSet := true]); Agree(u) && ClosedRight(u)
  {
    var u := t.(recovered := t.recovered[fecSet := true]);
    assert forall i: Index :: u.deshredded[i] == t.deshredded[i] && u.status[i] == t.status[i];
  }

  lemma RecoverSetOk(codec: Codec, iteration: seq<Shred>, slot: SlotState, fecSet: Index)
    requires SlotOk(slot)
    ensures SlotOk(RecoverSet(codec, iteration, slot, fecSet).slot)
  {
    var recovered := codec.recover(SortForRecovery(iteration));
    if recovered.Some? {
      AbsorbKeeps(slot.tracker, recovered.value);
      FinishedSetOk(Absorb(slot.tracker, recovered.value).tracker, fecSet);
    }
  }

  lemma {:induction false} IngestOk(st: State, batch: seq<Packet>)
    requires StateOk(st)
    ensures StateOk(Ingest(st, batch).st)
  {
    if batch != [] {
      var g, packet := Ingest(st, batch[..|batch| - 1]), batch[|batch| - 1];
      IngestOk(st, batch[..|batch| - 1]);
      if packet.Parsed? {
        SlotAtOk(g.st, packet.shred.slot);
        if AcceptAt(g.st, packet.shred).Some? {
          AcceptOk(SlotAt(g.st, packet.shred.slot), packet.shred);
        }
      }
    }
  }

  lemma {:induction false} RecoverAllOk(codec: Codec, order: Order, st: State, work: seq<WorkItem>)
    requires StateOk(st)
    ensures StateOk(RecoverAll(codec, order, st, work).st)
  {
    if work != [] {
      var r, item := RecoverAll(codec, order, st, work[..|work| - 1]), work[|work| - 1];
      RecoverAllOk(codec, order, st, work[..|work| - 1]);
      var slot := SlotAt(r.st, item.slot);
      SlotAtOk(r.st, item.slot);
      RecoverSetOk(codec, order(item.slot, item.fecSet, HeldOf(slot, item.fecSet)), slot, item.fecSet);
    }
  }

  lemma EmitOneOk(codec: Codec, e: Emitting, item: WorkItem)
    requires StateOk(e.st)
    ensures StateOk(EmitOne(codec, e, item).st)
  {
    var slot := SlotAt(e.st, item.slot);
    SlotAtOk(e.st, item.slot);
    var emission := Emittable(codec, item.slot, slot.tracker, item.fecSet);
    if emission.Some? {
      MarkKeeps(slot.tracker, emission.value.start, emission.value.end);
    }
  }

  lemma {:induction false} EmitAllOk(codec: Codec, st: State, work: seq<WorkItem>)
    requires StateOk(st)
    ensures StateOk(EmitAll(codec, st, work).st)
  {
    if work != [] {
      EmitAllOk(codec, st, work[..|work| - 1]);
      EmitOneOk(codec, EmitAll(codec, st, work[..|work| - 1]), work[|work| - 1]);
    }
  }

  lemma PhasesOk(codec: Codec, order: Order, st: State, batch: seq<Packet>)
    requires StateOk(st)
    ensures StateOk(AfterRecovery(codec, order, st, batch).st)
    ensures StateOk(AfterEmission(codec, order, st, batch).st)
  {
    IngestOk(st, batch);
    RecoverAllOk(codec, order, Ingest(st, batch).st, Work(st, batch));
    EmitAllOk(codec, AfterRecovery(codec, order, st, batch).st, Work(st, batch));
  }

  lemma StepOk(codec: Codec, order: Order, st: State, batch: seq<Packet>)
    requires StateOk(st)
    ensures StateOk(Step(codec, order, st, batch).st)
  {
    PhasesOk(codec, order, st, batch);
  }

  /** The vectors of every slot agree after every run. */
  lemma {:induction false} RunOk(codec: Codec, events: seq<Event>)
    ensures StateOk(Run(codec, events).st)
  {
    if events != [] {
      RunOk(codec, events[..|events| - 1]);
      var event := events[|events| - 1];
      StepOk(codec, event.order, Run(codec, events[..|events| - 1]).st, event.batch);
    }
  }

  /** In every reachable state the status of a position follows from the flags of the shred stored there. */
  lemma StatusFollowsFlags(codec: Codec, events: seq<Event>, number: nat, i: Index)
    ensures var t := SlotAt(Run(codec, events).st, number).tracker;
            && (t.status[i] == Unknown <==> t.shreds[i].None?)
            && (t.shreds[i].Some? ==> t.shreds[i].value.Data? && t.shreds[i].value.index == i)
            && (t.status[i] == DataComplete <==>
                  t.shreds[i].Some? && (t.shreds[i].value.dataComplete || t.shreds[i].value.lastInSlot))
  {
    RunOk(codec, events);
    SlotAtOk(Run(codec, events).st, number);
  }

  // ----- only emission marks positions as emitted -----

  lemma {:induction false} AbsorbLeavesMarks(t: Tracker, offered: seq<Option<Shred>>)
    ensures Absorb(t, offered).tracker.deshredded == t.deshredded
  {
    if offered != [] {
      AbsorbLeavesMarks(t, offered[..|offered| - 1]);
    }
  }

  lemma {:induction false} IngestLeavesMarks(st: State, batch: seq<Packet>, number: nat)
    ensures SlotAt(Ingest(st, batch).st, number).tracker.deshredded == SlotAt(st, number).tracker.deshredded
  {
    if batch != [] {
      IngestLeavesMarks(st, batch[..|batch| - 1], number);
    }
  }

  lemma {:induction false} RecoverAllLeavesMarks(codec: Codec, order: Order, st: State, work: seq<WorkItem>,
      number: nat)
    ensures SlotAt(RecoverAll(codec, order, st, work).st, number).tracker.deshredded
         == SlotAt(st, number).tracker.deshredded
  {
    if work != [] {
      var rest, item := work[..|work| - 1], work[|work| - 1];
      RecoverAllLeavesMarks(codec, order, st, rest, number);
      var slot := SlotAt(RecoverAll(codec, order, st, rest).st, item.slot);
      var iteration := order(item.slot, item.fecSet, HeldOf(slot, item.fecSet));
      var recovered := codec.recover(SortForRecovery(iteration));
      if recovered.Some? {
        AbsorbLeavesMarks(slot.tracker, recovered.value);
      }
    }
  }

  // ----- the slot window -----

  ghost predicate KeysSeen(st: State) {
    forall number :: number in st.slots ==> number <= st.highest
  }

  /** A slot without history takes any shred, so its number always raises the highest slot seen. */
  lemma FreshSlotAccepts(shred: Shred)
    ensures Accept(FreshSlot(), shred).Some?
  {
  }

  /** The window reaches 50 slots back: a slot without history takes a shred exactly up to there. */
  lemma LookbackExact(st: State, shred: Shred)
    ensures shred.slot + 50 < st.highest ==> AcceptAt(st, shred).None?
    ensures shred.slot !in st.slots && shred.slot + 50 >= st.highest ==> AcceptAt(st, shred).Some?
  {
    FreshSlotAccepts(shred);
  }

  /** The highest slot never decreases, every key stays at or below it, and work is only for live slots. */
  lemma {:induction false} IngestWindow(st: State, batch: seq<Packet>)
    requires KeysSeen(st)
    ensures var g := Ingest(st, batch);
            && KeysSeen(g.st) && g.st.highest >= st.highest
            && (forall item :: item in g.work ==> !Stale(st.highest, item.slot))
  {
    if batch != [] {
      var g, packet := Ingest(st, batch[..|batch| - 1]), batch[|batch| - 1];
      IngestWindow(st, batch[..|batch| - 1]);
      if packet.Parsed? && AcceptAt(g.st, packet.shred).None? && packet.shred.slot !in g.st.slots {
        FreshSlotAccepts(packet.shred);
      }
    }
  }

  lemma {:induction false} RecoverAllWindow(codec: Codec, order: Order, st: State, work: seq<WorkItem>)
    requires KeysSeen(st) && forall item :: item in work ==> item.slot in st.slots
    ensures var r := RecoverAll(codec, order, st, work).st;
            r.highest == st.highest && r.slots.Keys == st.slots.Keys
  {
    if work != [] {
      RecoverAllWindow(codec, order, st, work[..|work| - 1]);
      assert work[|work| - 1] in work;
    }
  }

  lemma {:induction false} EmitAllWindow(codec: Codec, st: State, work: seq<WorkItem>)
    requires KeysSeen(st) && forall item :: item in work ==> item.slot in st.slots
    ensures var e := EmitAll(codec, st, work).st;
            e.highest == st.highest && e.slots.Keys == st.slots.Keys
  {
    if work != [] {
      EmitAllWindow(codec, st, work[..|work| - 1]);
      assert work[|work| - 1] in work;
    }
  }

  lemma {:induction false} WorkHasEntries(st: State, batch: seq<Packet>)
    ensures forall item :: item in Ingest(st, batch).work ==> item.slot in Ingest(st, batch).st.slots
  {
    if batch != [] {
      WorkHasEntries(st, batch[..|batch| - 1]);
    }
  }

  lemma StepWindow(codec: Codec, order: Order, st: State, batch: seq<Packet>)
    requires KeysSeen(st)
    ensures var e := AfterEmission(codec, order, st, batch).st;
            KeysSeen(e) && e.highest == Ingest(st, batch).st.highest >= st.highest
    ensures forall item :: item in Work(st, batch) ==> !Stale(st.highest, item.slot)
  {
    IngestWindow(st, batch);
    WorkHasEntries(st, batch);
    SortDedupKeeps(Ingest(st, batch).work);
    RecoverAllWindow(codec, order, Ingest(st, batch).st, Work(st, batch));
    EmitAllWindow(codec, AfterRecovery(codec, order, st, batch).st, Work(st, batch));
  }

  lemma {:induction false} RunKeysSeen(codec: Codec, events: seq<Event>)
    ensures KeysSeen(Run(codec, events).st)
  {
    if events != [] {
      RunKeysSeen(codec, events[..|events| - 1]);
      var event := events[|events| - 1];
      StepWindow(codec, event.order, Run(codec, events[..|events| - 1]).st, event.batch);
    }
  }

  /** A set of numbers from a range is no larger than the range. */
  lemma {:induction false} Pigeonhole(numbers: set<nat>, low: nat, high: nat)
    requires low <= high + 1
    requires forall number :: number in numbers ==> low <= number <= high
    ensures |numbers| <= high + 1 - low
    decreases high + 1 - low
  {
    if low == high + 1 {
      assert numbers == {};
    } else {
      Pigeonhole(numbers - {low}, low + 1, high);
    }
  }

  lemma PruneBounded(st: State)
    requires KeysSeen(st)
    ensures |Prune(st).slots| <= Max(MAX_PROCESSING_AGE, SLOT_LOOKBACK + 1)
  {
    if |st.slots| > MAX_PROCESSING_AGE {
      var kept := Prune(st).slots;
      Pigeonhole(kept.Keys, Threshold(st.highest), st.highest);
      assert |kept| == |kept.Keys|;
    }
  }

  /** After every run the slot map is bounded, however many slots were seen or forged. */
  lemma SlotMapBounded(codec: Codec, events: seq<Event>)
    ensures |Run(codec, events).st.slots| <= 150
  {
    if events != [] {
      var before, event := Run(codec, events[..|events| - 1]).st, events[|events| - 1];
      RunKeysSeen(codec, events[..|events| - 1]);
      StepWindow(codec, event.order, before, event.batch);
      PruneBounded(AfterEmission(codec, event.order, before, event.batch).st);
    }
  }
}
