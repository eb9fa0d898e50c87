/**
 Global properties of what is handed out, for every run and every behaviour of the
 libraries: no position is emitted twice, calls emit in order, and the positions
 read on emission are always filled.
 */
module Emissions {
  import opened Options
  import opened Shreds
  import opened Trackers
  import opened FecSets
  import opened Reassembly
  import opened Safety

  /** Two emissions that do not overlap. */
  ghost predicate Apart(a: Emission, b: Emission) {
    a.slot != b.slot || a.end < b.start || b.end < a.start
  }

  ghost predicate PairwiseApart(out: seq<Emission>) {
    forall j, k :: 0 <= j < k < |out| ==> Apart(out[j], out[k])
  }

  /** The emitted range is marked in the state. */
  ghost predicate MarkedIn(st: State, em: Emission) {
    && em.start <= em.end < MAX_DATA_SHREDS_PER_SLOT
    && forall i: Index :: em.start <= i <= em.end ==> SlotAt(st, em.slot).tracker.deshredded[i]
  }

  /** Every emission is still marked, unless its slot can receive nothing any more. */
  ghost predicate Covered(highest: nat, st: State, out: seq<Emission>) {
    forall em :: em in out ==> Stale(highest, em.slot) || MarkedIn(st, em)
  }

  lemma EmitOneMarks(codec: Codec, e: Emitting, item: WorkItem, em: Emission)
    requires StateOk(e.st) && MarkedIn(e.st, em)
    ensures MarkedIn(EmitOne(codec, e, item).st, em)
  {
    var t := SlotAt(e.st, item.slot).tracker;
    SlotAtOk(e.st, item.slot);
    var emission := Emittable(codec, item.slot, t, item.fecSet);
    var after := EmitOne(codec, e, item).st;
    forall i: Index | em.start <= i <= em.end
      ensures SlotAt(after, em.slot).tracker.deshredded[i]
    {
      assert SlotAt(e.st, em.slot).tracker.deshredded[i];
      if emission.Some? {
        MarkExactly(t, emission.value.start, emission.value.end);
        assert t.deshredded[i] ==> Mark(t, emission.value.start, emission.value.end).deshredded[i];
      }
    }
  }

  lemma EmitOneNew(codec: Codec, e: Emitting, item: WorkItem)
    requires StateOk(e.st) && |EmitOne(codec, e, item).out| > |e.out|
    ensures var f := EmitOne(codec, e, item);
            f.out == e.out + [f.out[|e.out|]] && f.out[|e.out|].slot == item.slot
            && f.out[|e.out|].start <= item.fecSet <= f.out[|e.out|].end
            && MarkedIn(f.st, f.out[|e.out|])
            && OpenRun(SlotAt(e.st, item.slot).tracker, f.out[|e.out|].start, f.out[|e.out|].end)
  {
    var t := SlotAt(e.st, item.slot).tracker;
    SlotAtOk(e.st, item.slot);
    var emission := Emittable(codec, item.slot, t, item.fecSet);
    MarkExactly(t, emission.value.start, emission.value.end);
  }

  /** A range without emitted positions overlaps no emission that is marked. */
  lemma OpenRunApart(st: State, a: Emission, b: Emission)
    requires MarkedIn(st, a)
    requires OpenRun(SlotAt(st, b.slot).tracker, b.start, b.end)
    ensures Apart(a, b)
  {
    if a.slot == b.slot {
      var t := SlotAt(st, a.slot).tracker;
      assert a.start < MAX_DATA_SHREDS_PER_SLOT && b.start < MAX_DATA_SHREDS_PER_SLOT;
      var p: Index, q: Index := a.start, b.start;
      assert t.deshredded[p] && !t.deshredded[q];
      assert !(b.start <= p <= b.end) && !(a.start <= q <= a.end);
    }
  }

  lemma EmitOneCovered(codec: Codec, highest: nat, e: Emitting, item: WorkItem, past: seq<Emission>)
    requires StateOk(e.st) && Covered(highest, e.st, past + e.out)
    ensures var f := EmitOne(codec, e, item); Covered(highest, f.st, past + f.out)
  {
    var f := EmitOne(codec, e, item);
    forall em | em in past + f.out
      ensures Stale(highest, em.slot) || MarkedIn(f.st, em)
    {
      if em in past + e.out {
        if !Stale(highest, em.slot) {
          EmitOneMarks(codec, e, item, em);
        }
      } else {
        EmitOneNew(codec, e, item);
      }
    }
  }

  lemma EmitOneApart(codec: Codec, highest: nat, e: Emitting, item: WorkItem, past: seq<Emission>)
    requires StateOk(e.st) && Covered(highest, e.st, past + e.out) && PairwiseApart(past + e.out)
    requires !Stale(highest, item.slot)
    ensures PairwiseApart(past + EmitOne(codec, e, item).out)
  {
    var f := EmitOne(codec, e, item);
    if |f.out| > |e.out| {
      EmitOneNew(codec, e, item);
      var all, new' := past + e.out, f.out[|e.out|];
      assert past + f.out == all + [new'];
      forall j | 0 <= j < |all|
        ensures Apart(all[j], new')
      {
        assert all[j] in all;
        if all[j].slot == new'.slot {
          OpenRunApart(e.st, all[j], new');
        }
      }
    }
  }

  lemma {:induction false} EmitAllApart(codec: Codec, highest: nat, st: State, work: seq<WorkItem>, past: seq<Emission>)
    requires StateOk(st) && Covered(highest, st, past) && PairwiseApart(past)
    requires forall item :: item in work ==> !Stale(highest, item.slot)
    ensures var e := EmitAll(codec, st, work);
            PairwiseApart(past + e.out) && Covered(highest, e.st, past + e.out)
  {
    if work == [] {
      assert past + EmitAll(codec, st, work).out == past;
    } else {
      var rest, item := work[..|work| - 1], work[|work| - 1];
      EmitAllApart(codec, highest, st, rest, past);
      EmitAllOk(codec, st, rest);
      assert item in work;
      EmitOneCovered(codec, highest, EmitAll(codec, st, rest), item, past);
      EmitOneApart(codec, highest, EmitAll(codec, st, rest), item, past);
    }
  }

  lemma IngestAndRecoveryCovered(codec: Codec, order: Order, st: State, batch: seq<Packet>, past: seq<Emission>)
    requires Covered(st.highest, st, past)
    ensures Covered(st.highest, AfterRecovery(codec, order, st, batch).st, past)
  {
    forall em | em in past && !Stale(st.highest, em.slot)
      ensures MarkedIn(AfterRecovery(codec, order, st, batch).st, em)
    {
      IngestLeavesMarks(st, batch, em.slot);
      RecoverAllLeavesMarks(codec, order, Ingest(st, batch).st, Work(st, batch), em.slot);
    }
  }

  /** Pruning only forgets slots that can receive nothing any more. */
  lemma PruneKeepsLive(st: State, number: nat)
    requires !Stale(st.highest, number)
    ensures SlotAt(Prune(st), number) == SlotAt(st, number)
  {
  }

  // ----- entries are write-once -----

  lemma {:induction false} AbsorbKeepsStored(t: Tracker, offered: seq<Option<Shred>>, i: Index)
    requires t.shreds[i].Some?
    ensures Absorb(t, offered).tracker.shreds[i] == t.shreds[i]
  {
    if offered != [] {
      AbsorbKeepsStored(t, offered[..|offered| - 1], i);
    }
  }

  lemma {:induction false} IngestKeepsStored(st: State, batch: seq<Packet>, number: nat, i: Index)
    requires SlotAt(st, number).tracker.shreds[i].Some?
    ensures SlotAt(Ingest(st, batch).st, number).tracker.shreds[i] == SlotAt(st, number).tracker.shreds[i]
  {
    if batch != [] {
      IngestKeepsStored(st, batch[..|batch| - 1], number, i);
    }
  }

  lemma {:induction false} RecoverAllKeepsStored(codec: Codec, order: Order, st: State, work: seq<WorkItem>,
      number: nat, i: Index)
    requires SlotAt(st, number).tracker.shreds[i].Some?
    ensures SlotAt(RecoverAll(codec, order, st, work).st, number).tracker.shreds[i]
         == SlotAt(st, number).tracker.shreds[i]
  {
    if work != [] {
      var rest, item := work[..|work| - 1], work[|work| - 1];
      RecoverAllKeepsStored(codec, order, st, rest, number, i);
      var slot := SlotAt(RecoverAll(codec, order, st, rest).st, item.slot);
      var iteration := order(item.slot, item.fecSet, HeldOf(slot, item.fecSet));
      var recovered := codec.recover(SortForRecovery(iteration));
      if item.slot == number && recovered.Some? {
        AbsorbKeepsStored(slot.tracker, recovered.value, i);
      }
    }
  }

  lemma {:induction false} EmitAllKeepsStored(codec: Codec, st: State, work: seq<WorkItem>, number: nat)
    ensures SlotAt(EmitAll(codec, st, work).st, number).tracker.shreds == SlotAt(st, number).tracker.shreds
  {
    if work != [] {
      EmitAllKeepsStored(codec, st, work[..|work| - 1], number);
    }
  }

  lemma StepKeepsStored(codec: Codec, order: Order, st: State, batch: seq<Packet>, number: nat, i: Index)
    requires !Stale(Step(codec, order, st, batch).st.highest, number)
    requires SlotAt(st, number).tracker.shreds[i].Some?
    ensures SlotAt(Step(codec, order, st, batch).st, number).tracker.shreds[i] == SlotAt(st, number).tracker.shreds[i]
  {
    IngestKeepsStored(st, batch, number, i);
    RecoverAllKeepsStored(codec, order, Ingest(st, batch).st, Work(st, batch), number, i);
    EmitAllKeepsStored(codec, AfterRecovery(codec, order, st, batch).st, Work(st, batch), number);
    PruneKeepsLive(AfterEmission(codec, order, st, batch).st, number);
  }

  /** Once stored, a shred stays at its position as long as its slot stays in the window. */
  lemma {:induction false} WriteOnce(codec: Codec, events: seq<Event>, more: seq<Event>, number: nat, i: Index)
    requires !Stale(Run(codec, events + more).st.highest, number)
    requires SlotAt(Run(codec, events).st, number).tracker.shreds[i].Some?
    ensures SlotAt(Run(codec, events + more).st, number).tracker.shreds[i]
         == SlotAt(Run(codec, events).st, number).tracker.shreds[i]
    decreases |more|
  {
    if more == [] {
      assert events + more == events;
    } else {
      var rest, event := more[..|more| - 1], more[|more| - 1];
      assert (events + more)[..|events + more| - 1] == events + rest;
      var before := Run(codec, events + rest).st;
      RunKeysSeen(codec, events + rest);
      StepWindow(codec, event.order, before, event.batch);
      WriteOnce(codec, events, rest, number, i);
      StepKeepsStored(codec, event.order, before, event.batch, number, i);
    }
  }

  // ----- every run -----

  lemma PruneCovered(before: nat, st: State, out: seq<Emission>)
    requires Covered(before, st, out) && before <= st.highest
    ensures Covered(st.highest, Prune(st), out)
  {
    forall em | em in out && !Stale(st.highest, em.slot)
      ensures MarkedIn(Prune(st), em)
    {
      PruneKeepsLive(st, em.slot);
    }
  }

  lemma {:induction false} RunCovered(codec: Codec, events: seq<Event>)
    ensures var h := Run(codec, events);
            Covered(h.st.highest, h.st, h.out) && PairwiseApart(h.out)
  {
    if events != [] {
      var past, event := Run(codec, events[..|events| - 1]), events[|events| - 1];
      RunCovered(codec, events[..|events| - 1]);
      RunOk(codec, events[..|events| - 1]);
      RunKeysSeen(codec, events[..|events| - 1]);
      PhasesOk(codec, event.order, past.st, event.batch);
      StepWindow(codec, event.order, past.st, event.batch);
      IngestAndRecoveryCovered(codec, event.order, past.st, event.batch, past.out);
      EmitAllApart(codec, past.st.highest, AfterRecovery(codec, event.order, past.st, event.batch).st,
                   Work(past.st, event.batch), past.out);
      var e := AfterEmission(codec, event.order, past.st, event.batch);
      PruneCovered(past.st.highest, e.st, past.out + e.out);
    }
  }

  /**
   No data position is handed out twice over a whole run, even when a slot's entry is
   evicted and created again, and whatever the erasure and decoding libraries return.
   */
  lemma AtMostOnce(codec: Codec, events: seq<Event>, j: nat, k: nat, position: nat)
    requires j < k < |Run(codec, events).out|
    requires Run(codec, events).out[j].slot == Run(codec, events).out[k].slot
    requires Run(codec, events).out[j].start <= position <= Run(codec, events).out[j].end
    ensures !(Run(codec, events).out[k].start <= position <= Run(codec, events).out[k].end)
  {
    RunCovered(codec, events);
    assert Apart(Run(codec, events).out[j], Run(codec, events).out[k]);
  }

  // ----- order within a call -----

  ghost predicate EmissionBefore(a: Emission, b: Emission) {
    a.slot < b.slot || (a.slot == b.slot && a.start < b.start)
  }

  ghost predicate InOrder(out: seq<Emission>) {
    forall j, k :: 0 <= j < k < |out| ==> EmissionBefore(out[j], out[k])
  }

  /** Nothing emitted so far starts beyond the work item. */
  ghost predicate UpTo(out: seq<Emission>, item: WorkItem) {
    forall em :: em in out ==> em.slot < item.slot || (em.slot == item.slot && em.start <= item.fecSet)
  }

  ghost predicate AllMarked(st: State, out: seq<Emission>) {
    forall em :: em in out ==> MarkedIn(st, em)
  }

  lemma EmitOneInOrder(codec: Codec, e: Emitting, last: WorkItem, item: WorkItem)
    requires StateOk(e.st) && AllMarked(e.st, e.out) && InOrder(e.out)
    requires UpTo(e.out, last) && ItemBefore(last, item)
    ensures var f := EmitOne(codec, e, item); InOrder(f.out) && UpTo(f.out, item)
  {
    var f := EmitOne(codec, e, item);
    if |f.out| > |e.out| {
      EmitOneNew(codec, e, item);
      var new' := f.out[|e.out|];
      forall em | em in e.out
        ensures EmissionBefore(em, new')
      {
        OpenRunApart(e.st, em, new');
      }
    }
  }

  lemma EmitFirst(codec: Codec, st: State, item: WorkItem)
    requires StateOk(st)
    ensures var f := EmitAll(codec, st, [item]); InOrder(f.out) && UpTo(f.out, item) && AllMarked(f.st, f.out)
  {
    var e := EmitAll(codec, st, []);
    assert EmitAll(codec, st, [item]) == EmitOne(codec, e, item);
    if |EmitOne(codec, e, item).out| > 0 {
      EmitOneNew(codec, e, item);
    }
  }

  lemma EmitOneAllMarked(codec: Codec, e: Emitting, item: WorkItem)
    requires StateOk(e.st) && AllMarked(e.st, e.out)
    ensures var f := EmitOne(codec, e, item); AllMarked(f.st, f.out)
  {
    var f := EmitOne(codec, e, item);
    forall em | em in f.out
      ensures MarkedIn(f.st, em)
    {
      if em in e.out {
        EmitOneMarks(codec, e, item, em);
      } else {
        EmitOneNew(codec, e, item);
      }
    }
  }

  lemma {:induction false} EmitAllInOrder(codec: Codec, st: State, work: seq<WorkItem>)
    requires StateOk(st) && StrictlyAscending(work) && work != []
    ensures var e := EmitAll(codec, st, work);
            InOrder(e.out) && UpTo(e.out, work[|work| - 1]) && AllMarked(e.st, e.out)
    decreases |work|
  {
    var rest, item := work[..|work| - 1], work[|work| - 1];
    if rest == [] {
      assert work == [item];
      EmitFirst(codec, st, item);
    } else {
      EmitAllInOrder(codec, st, rest);
      EmitAllOk(codec, st, rest);
      EmitOneInOrder(codec, EmitAll(codec, st, rest), rest[|rest| - 1], item);
      EmitOneAllMarked(codec, EmitAll(codec, st, rest), item);
    }
  }

  /** Each call hands out segments in strictly increasing order of slot and start. */
  lemma CallEmitsInOrder(codec: Codec, events: seq<Event>, order: Order, batch: seq<Packet>)
    ensures InOrder(Step(codec, order, Run(codec, events).st, batch).out)
  {
    var st := Run(codec, events).st;
    RunOk(codec, events);
    PhasesOk(codec, order, st, batch);
    SortDedupKeeps(Ingest(st, batch).work);
    if Work(st, batch) != [] {
      EmitAllInOrder(codec, AfterRecovery(codec, order, st, batch).st, Work(st, batch));
    }
  }

  // ----- what a call meets while it emits -----

  /** The state of a call that has worked through the first `done` items of its emission phase. */
  ghost function DuringEmission(codec: Codec, order: Order, st: State, batch: seq<Packet>, done: nat): State
    requires done <= |Work(st, batch)|
  {
    EmitAll(codec, AfterRecovery(codec, order, st, batch).st, Work(st, batch)[..done]).st
  }

  lemma DuringEmissionOk(codec: Codec, events: seq<Event>, order: Order, batch: seq<Packet>, done: nat, number: nat)
    requires done <= |Work(Run(codec, events).st, batch)|
    ensures SlotOk(SlotAt(DuringEmission(codec, order, Run(codec, events).st, batch, done), number))
  {
    var st := Run(codec, events).st;
    RunOk(codec, events);
    PhasesOk(codec, order, st, batch);
    EmitAllOk(codec, AfterRecovery(codec, order, st, batch).st, Work(st, batch)[..done]);
    SlotAtOk(DuringEmission(codec, order, st, batch, done), number);
  }

  /** Every position of the range holds the data shred of that index. */
  ghost predicate Filled(t: Tracker, r: Range) {
    forall i: Index :: r.start <= i <= r.end ==>
      t.shreds[i].Some? && t.shreds[i].value.Data? && t.shreds[i].value.index == i
  }

  lemma ScanFilled(t: Tracker, index: Index)
    requires Agree(t) && Scan(t, index).Some?
    ensures Filled(t, Scan(t, index).value)
  {
  }

  /** In every state a call emits from, each position it unwraps is filled. */
  lemma EmittedPositionsFilled(codec: Codec, events: seq<Event>, order: Order, batch: seq<Packet>, done: nat,
      number: nat, index: Index)
    requires done <= |Work(Run(codec, events).st, batch)|
    ensures var t := SlotAt(DuringEmission(codec, order, Run(codec, events).st, batch, done), number).tracker;
            Scan(t, index).Some? ==> Filled(t, Scan(t, index).value)
  {
    DuringEmissionOk(codec, events, order, batch, done, number);
    var t := SlotAt(DuringEmission(codec, order, Run(codec, events).st, batch, done), number).tracker;
    if Scan(t, index).Some? {
      ScanFilled(t, index);
    }
  }

  /** In every state a call scans, the left walk never stops at an already emitted position. */
  lemma LeftWalkNeverBlocked(codec: Codec, events: seq<Event>, order: Order, batch: seq<Packet>, done: nat,
      number: nat, index: Index)
    requires done <= |Work(Run(codec, events).st, batch)|
    ensures var t := SlotAt(DuringEmission(codec, order, Run(codec, events).st, batch, done), number).tracker;
            Scan(t, index).Some? <==> exists end :: OpenRun(t, index, end)
  {
    DuringEmissionOk(codec, events, order, batch, done, number);
    ScanFailsOnlyRight(SlotAt(DuringEmission(codec, order, Run(codec, events).st, batch, done), number).tracker, index);
  }

  /**
   In every state a call scans, taking more shreds never takes a scan result back: a certain
   range stays as it is, a guessed one keeps its end and can only grow to the left.
   */
  lemma KnowledgeMonotone(codec: Codec, events: seq<Event>, order: Order, batch: seq<Packet>, done: nat,
      number: nat, offered: seq<Option<Shred>>, index: Index)
    requires done <= |Work(Run(codec, events).st, batch)|
    requires Scan(SlotAt(DuringEmission(codec, order, Run(codec, events).st, batch, done), number).tracker, index).Some?
    ensures var t := SlotAt(DuringEmission(codec, order, Run(codec, events).st, batch, done), number).tracker;
            ScanKept(t, Absorb(t, offered).tracker, index)
  {
    DuringEmissionOk(codec, events, order, batch, done, number);
    var t := SlotAt(DuringEmission(codec, order, Run(codec, events).st, batch, done), number).tracker;
    ScanMonotone(t, offered, index);
  }

  lemma RecoveryStoresMore(codec: Codec, order: Order, st: State, batch: seq<Packet>, number: nat)
    ensures StoresMore(SlotAt(st, number).tracker, SlotAt(AfterRecovery(codec, order, st, batch).st, number).tracker)
  {
    forall i: Index | SlotAt(st, number).tracker.shreds[i].Some?
      ensures SlotAt(AfterRecovery(codec, order, st, batch).st, number).tracker.shreds[i]
           == SlotAt(st, number).tracker.shreds[i]
    {
      IngestKeepsStored(st, batch, number, i);
      RecoverAllKeepsStored(codec, order, Ingest(st, batch).st, Work(st, batch), number, i);
    }
  }

  /**
   What a scan finds after a run is still found, or grown to the left, once the next call has
   ingested its batch and recovered what it can, whatever arrives and whatever is recovered.
   */
  lemma ScanSurvivesCall(codec: Codec, events: seq<Event>, order: Order, batch: seq<Packet>, number: nat, index: Index)
    requires Scan(SlotAt(Run(codec, events).st, number).tracker, index).Some?
    ensures var st := Run(codec, events).st;
            var after := AfterRecovery(codec, order, st, batch).st;
            ScanKept(SlotAt(st, number).tracker, SlotAt(after, number).tracker, index)
  {
    var st := Run(codec, events).st;
    RunOk(codec, events);
    PhasesOk(codec, order, st, batch);
    SlotAtOk(st, number);
    SlotAtOk(AfterRecovery(codec, order, st, batch).st, number);
    RecoveryStoresMore(codec, order, st, batch, number);
    IngestLeavesMarks(st, batch, number);
    RecoverAllLeavesMarks(codec, order, Ingest(st, batch).st, Work(st, batch), number);
    ScanGrows(SlotAt(st, number).tracker, SlotAt(AfterRecovery(codec, order, st, batch).st, number).tracker, index);
  }

  lemma KeptOrEmitted(t: Tracker, u: Tracker, index: Index)
    requires Agree(t) && Agree(u) && ClosedRight(u) && StoresMore(t, u) && Scan(t, index).Some?
    ensures u.deshredded[Scan(t, index).value.end] || ScanKept(t, u, index)
  {
    var r := Scan(t, index).value;
    if i: Index :| r.start <= i <= r.end && u.deshredded[i] {
      EmittedToEnd(t, u, r.start, i, r.end);
    } else {
      ScanGrows(t, u, index);
    }
  }

  /**
   What a scan finds after a run is never lost: in every continuation that leaves the slot in
   the window, it has been emitted or is still found, perhaps grown to the left.
   */
  lemma ScanKeptOrEmitted(codec: Codec, events: seq<Event>, more: seq<Event>, number: nat, index: Index)
    requires !Stale(Run(codec, events + more).st.highest, number)
    requires Scan(SlotAt(Run(codec, events).st, number).tracker, index).Some?
    ensures var t := SlotAt(Run(codec, events).st, number).tracker;
            var u := SlotAt(Run(codec, events + more).st, number).tracker;
            u.deshredded[Scan(t, index).value.end] || ScanKept(t, u, index)
  {
    var t := SlotAt(Run(codec, events).st, number).tracker;
    var u := SlotAt(Run(codec, events + more).st, number).tracker;
    RunOk(codec, events);
    RunOk(codec, events + more);
    SlotAtOk(Run(codec, events).st, number);
    SlotAtOk(Run(codec, events + more).st, number);
    forall i: Index | t.shreds[i].Some?
      ensures u.shreds[i] == t.shreds[i]
    {
      WriteOnce(codec, events, more, number, i);
    }
    KeptOrEmitted(t, u, index);
  }

  // ----- where emissions come from -----

  /** The emission is what scanning for an item of the work list finds, in the state reached there. */
  ghost predicate FromItem(codec: Codec, st: State, work: seq<WorkItem>, done: nat, em: Emission)
    requires done < |work|
  {
    var t := SlotAt(EmitAll(codec, st, work[..done]).st, em.slot).tracker;
    em.slot == work[done].slot && Emittable(codec, em.slot, t, work[done].fecSet) == Some(em)
  }

  lemma {:induction false} EmittedFromItem(codec: Codec, st: State, work: seq<WorkItem>, until: nat, em: Emission)
    returns (done: nat)
    requires until <= |work| && em in EmitAll(codec, st, work[..until]).out
    ensures done < until && FromItem(codec, st, work, done, em)
    decreases until
  {
    EmitAllStep(codec, st, work, until - 1);
    if em in EmitAll(codec, st, work[..until - 1]).out {
      done := EmittedFromItem(codec, st, work, until - 1, em);
    } else {
      done := until - 1;
    }
  }

  /** The emission comes from an item of a call of the run. */
  ghost predicate FromCall(codec: Codec, events: seq<Event>, call: nat, done: nat, em: Emission)
    requires call < |events|
  {
    var st, event := Run(codec, events[..call]).st, events[call];
    && done < |Work(st, event.batch)|
    && FromItem(codec, AfterRecovery(codec, event.order, st, event.batch).st, Work(st, event.batch), done, em)
  }

  lemma EmittedInCall(codec: Codec, order: Order, st: State, batch: seq<Packet>, em: Emission) returns (done: nat)
    requires em in Step(codec, order, st, batch).out
    ensures done < |Work(st, batch)|
    ensures FromItem(codec, AfterRecovery(codec, order, st, batch).st, Work(st, batch), done, em)
  {
    var work := Work(st, batch);
    assert work[..|work|] == work;
    done := EmittedFromItem(codec, AfterRecovery(codec, order, st, batch).st, work, |work|, em);
  }

  /** Every emission of a run was found by a scan in one of its calls. */
  lemma {:induction false} EmittedFromCall(codec: Codec, events: seq<Event>, em: Emission)
    returns (call: nat, done: nat)
    requires em in Run(codec, events).out
    ensures call < |events| && FromCall(codec, events, call, done, em)
  {
    var last := |events| - 1;
    var rest := events[..last];
    if em in Run(codec, rest).out {
      call, done := EmittedFromCall(codec, rest, em);
      assert rest[..call] == events[..call] && rest[call] == events[call];
    } else {
      call := last;
      done := EmittedInCall(codec, events[last].order, Run(codec, rest).st, events[last].batch, em);
    }
  }

  /** The payloads of the shreds stored at a range, one for each position. */
  ghost predicate StoredPayloads(t: Tracker, start: nat, end: nat, payloads: seq<Bytes>) {
    && start <= end < MAX_DATA_SHREDS_PER_SLOT && |payloads| == end + 1 - start
    && forall i: Index :: start <= i <= end ==> t.shreds[i].Some? && payloads[i - start] == t.shreds[i].value.payload
  }

  lemma EmittableContent(codec: Codec, number: nat, t: Tracker, index: Index) returns (payloads: seq<Bytes>)
    requires Agree(t) && Emittable(codec, number, t, index).Some?
    ensures var em := Emittable(codec, number, t, index).value;
            && StoredPayloads(t, em.start, em.end, payloads)
            && codec.deshred(payloads) == Some(em.content.bytes)
            && codec.deserialize(em.content.bytes) == Some(em.content.entries)
  {
    var em := Emittable(codec, number, t, index).value;
    payloads := Payloads(t.shreds[em.start..em.end + 1]);
    ScanFilled(t, index);
  }

  /**
   What every emission of every run hands out, whatever arrives and whatever the libraries return:
   all the bytes that deshredding makes of the payloads stored at its range when it was scanned,
   and all the entries that these bytes deserialize to.
   */
  lemma EveryEmissionDecoded(codec: Codec, events: seq<Event>, em: Emission)
    returns (call: nat, done: nat, payloads: seq<Bytes>)
    requires em in Run(codec, events).out
    ensures call < |events| && FromCall(codec, events, call, done, em)
    ensures var st, event := Run(codec, events[..call]).st, events[call];
            var t := SlotAt(DuringEmission(codec, event.order, st, event.batch, done), em.slot).tracker;
            StoredPayloads(t, em.start, em.end, payloads)
    ensures codec.deshred(payloads) == Some(em.content.bytes)
    ensures codec.deserialize(em.content.bytes) == Some(em.content.entries)
  {
    call, done := EmittedFromCall(codec, events, em);
    var st, event := Run(codec, events[..call]).st, events[call];
    DuringEmissionOk(codec, events[..call], event.order, event.batch, done, em.slot);
    var t := SlotAt(DuringEmission(codec, event.order, st, event.batch, done), em.slot).tracker;
    payloads := EmittableContent(codec, em.slot, t, Work(st, event.batch)[done].fecSet);
  }
}
