/**
 The reassembler's promise, over whole runs: for every slot still in the lookback
 window whose leader is honest, exactly the determined positions are known, exactly
 the fully determined segments have been emitted, each once, and neither arrival
 order nor batching nor hash order matters. Traffic for other slots is arbitrary.
 */
module Completeness {
  import opened Options
  import opened Shreds
  import opened Trackers
  import opened Reassembly
  import opened Safety
  import opened Emissions
  import opened Bookkeeping
  import opened Truth
  import opened HonestSlots
  import opened HonestRecovery
  import opened HonestEmission
  import opened HonestRuns

  lemma HistorySameMarks(codec: Codec, truth: SlotTruth, t: Tracker, u: Tracker, out: seq<Emission>)
    requires TrueHistory(codec, truth, t, out) && u.deshredded == t.deshredded
    ensures TrueHistory(codec, truth, u, out)
  {
    assert forall start, end :: EmittedThrough(u, start, end) == EmittedThrough(t, start, end);
  }

  lemma WorkPending(st: State, batch: seq<Packet>, number: nat)
    ensures StrictlyAscending(Work(st, batch))
    ensures PendingIn(Work(st, batch), number) == PendingIn(Ingest(st, batch).work, number)
  {
    SortDedupKeeps(Ingest(st, batch).work);
  }

  /** Recovery leaves nothing to recover, and leaves what was emitted untouched. */
  lemma RecoveredEmerging(codec: Codec, order: Order, truth: SlotTruth, st: State, batch: seq<Packet>,
      now: set<Shred>, past: seq<Emission>)
    requires Honest(codec, truth) && EnumeratesSets(order)
    requires TrueHistory(codec, truth, SlotAt(st, truth.slot).tracker, past)
    requires var g := Ingest(st, batch);
             var pending := PendingIn(g.work, truth.slot);
             Repairing(truth, now, SlotAt(g.st, truth.slot), pending, pending)
    ensures Emerging(codec, truth, now, SlotAt(AfterRecovery(codec, order, st, batch).st, truth.slot),
                     PendingIn(Work(st, batch), truth.slot), past)
    ensures SetsOf(truth, PendingIn(Work(st, batch), truth.slot))
  {
    var work, ingested := Work(st, batch), Ingest(st, batch).st;
    WorkPending(st, batch, truth.slot);
    assert work[..0] == [] && work[0..] == work;
    RecoverRepairing(codec, order, truth, ingested, work, |work|, now);
    assert work[..|work|] == work && work[|work|..] == [] && PendingIn([], truth.slot) == {};
    IngestLeavesMarks(st, batch, truth.slot);
    RecoverAllLeavesMarks(codec, order, ingested, work, truth.slot);
    HistorySameMarks(codec, truth, SlotAt(st, truth.slot).tracker,
                     SlotAt(AfterRecovery(codec, order, st, batch).st, truth.slot).tracker, past);
  }

  /** After recovery and emission there is nothing left to recover and nothing left to emit. */
  lemma PhasesEmerging(codec: Codec, order: Order, truth: SlotTruth, st: State, batch: seq<Packet>,
      now: set<Shred>, past: seq<Emission>)
    requires Honest(codec, truth) && EnumeratesSets(order)
    requires TrueHistory(codec, truth, SlotAt(st, truth.slot).tracker, past)
    requires var g := Ingest(st, batch);
             var pending := PendingIn(g.work, truth.slot);
             Repairing(truth, now, SlotAt(g.st, truth.slot), pending, pending)
    ensures var e := AfterEmission(codec, order, st, batch);
            Emerging(codec, truth, now, SlotAt(e.st, truth.slot), {}, past + e.out)
  {
    var work := Work(st, batch);
    RecoveredEmerging(codec, order, truth, st, batch, now, past);
    WorkPending(st, batch, truth.slot);
    assert work[..0] == [] && work[0..] == work && past + [] == past;
    EmitEmerging(codec, truth, AfterRecovery(codec, order, st, batch).st, work, |work|, now, past);
    assert work[..|work|] == work && work[|work|..] == [] && PendingIn([], truth.slot) == {};
  }

  /** One call leaves a live slot with nothing to recover and nothing to emit. */
  lemma StepEmerging(codec: Codec, order: Order, truth: SlotTruth, st: State, batch: seq<Packet>,
      received: set<Shred>, past: seq<Emission>)
    requires Honest(codec, truth) && EnumeratesSets(order) && ArrivalsGenuine(truth, ShredsOf(batch))
    requires KeysSeen(st) && !Stale(Step(codec, order, st, batch).st.highest, truth.slot)
    requires Emerging(codec, truth, received, SlotAt(st, truth.slot), {}, past)
    ensures var step, now := Step(codec, order, st, batch), received + OfSlot(ShredsOf(batch), truth.slot);
            Emerging(codec, truth, now, SlotAt(step.st, truth.slot), {}, past + step.out)
  {
    StepWindow(codec, order, st, batch);
    IngestRepairing(truth, st, batch, received);
    PhasesEmerging(codec, order, truth, st, batch, received + OfSlot(ShredsOf(batch), truth.slot), past);
    PruneKeepsLive(AfterEmission(codec, order, st, batch).st, truth.slot);
  }

  lemma FreshEmerging(codec: Codec, truth: SlotTruth)
    requires Tiled(truth)
    ensures Emerging(codec, truth, {}, FreshSlot(), {}, [])
  {
    FreshCore(truth);
    forall start, end | TrueSegment(truth, start, end)
      ensures !EmittedThrough(FreshSlot().tracker, start, end)
    {
      var i: Index := start;
      assert !FreshSlot().tracker.deshredded[i];
    }
  }

  /** The slot's leader is honest, all that arrived for the slot is genuine, and hash sets are iterated. */
  ghost predicate HonestRun(codec: Codec, truth: SlotTruth, events: seq<Event>) {
    Honest(codec, truth) && ArrivalsGenuine(truth, Received(events)) && OrdersEnumerate(events)
  }

  ghost predicate Live(codec: Codec, truth: SlotTruth, events: seq<Event>) {
    !Stale(Run(codec, events).st.highest, truth.slot)
  }

  ghost function ReceivedFor(truth: SlotTruth, events: seq<Event>): set<Shred> {
    OfSlot(Received(events), truth.slot)
  }

  lemma ReceivedStep(truth: SlotTruth, events: seq<Event>)
    requires events != []
    ensures ReceivedFor(truth, events)
         == ReceivedFor(truth, events[..|events| - 1]) + OfSlot(ShredsOf(events[|events| - 1].batch), truth.slot)
  {
  }

  lemma LiveBefore(codec: Codec, truth: SlotTruth, events: seq<Event>)
    requires events != [] && Live(codec, truth, events)
    ensures Live(codec, truth, events[..|events| - 1])
  {
    var before, event := Run(codec, events[..|events| - 1]).st, events[|events| - 1];
    RunKeysSeen(codec, events[..|events| - 1]);
    StepWindow(codec, event.order, before, event.batch);
  }

  /** The invariant of every run: a live slot has no recovery and no emission outstanding. */
  lemma {:induction false} RunEmerging(codec: Codec, truth: SlotTruth, events: seq<Event>)
    requires HonestRun(codec, truth, events) && Live(codec, truth, events)
    ensures var h := Run(codec, events);
            Emerging(codec, truth, ReceivedFor(truth, events), SlotAt(h.st, truth.slot), {}, h.out)
  {
    if events == [] {
      FreshEmerging(codec, truth);
      assert ReceivedFor(truth, events) == {};
    } else {
      var rest, event := events[..|events| - 1], events[|events| - 1];
      LiveBefore(codec, truth, events);
      RunEmerging(codec, truth, rest);
      RunKeysSeen(codec, rest);
      ReceivedStep(truth, events);
      var past := Run(codec, rest);
      StepEmerging(codec, event.order, truth, past.st, event.batch, ReceivedFor(truth, rest), past.out);
    }
  }

  // ----- what is known -----

  /**
   After every run, the known data positions of a live slot are exactly those that
   arrived, together with all of each FEC set of which `k` distinct shreds arrived.
   */
  lemma KnownExactly(codec: Codec, truth: SlotTruth, events: seq<Event>, i: Index)
    requires HonestRun(codec, truth, events) && Live(codec, truth, events)
    ensures Known(SlotAt(Run(codec, events).st, truth.slot).tracker, i)
       <==> i < |truth.data| && Determined(truth, ReceivedFor(truth, events), i)
  {
    RunEmerging(codec, truth, events);
    var slot, received := SlotAt(Run(codec, events).st, truth.slot), ReceivedFor(truth, events);
    if i < |truth.data| && Determined(truth, received, i) {
      assert DataInPlace(truth, i);
      if truth.data[i] !in received {
        DeterminedSetKnown(truth, received, slot, truth.data[i].fecSet);
      }
    }
  }

  lemma DeterminedSetKnown(truth: SlotTruth, received: set<Shred>, slot: SlotState, fecSet: Index)
    requires Core(truth, received, slot) && SettledExcept(truth, slot, {})
    requires fecSet in truth.fecs && |ReceivedIn(received, fecSet)| >= truth.fecs[fecSet].k
    ensures SetKnown(truth, slot.tracker, fecSet)
  {
    assert Settled(truth, slot, fecSet);
    if !slot.tracker.recovered[fecSet] {
      HeldMembers(truth, received, slot, fecSet);
    }
  }

  // ----- what is emitted -----

  /** Every position of the segment arrived or can be recovered from what arrived. */
  ghost predicate FullyDetermined(truth: SlotTruth, received: set<Shred>, start: int, end: int)
    requires 0 <= start <= end < |truth.data|
  {
    forall i: nat :: start <= i <= end ==> Determined(truth, received, i)
  }

  lemma DeterminedIsKnown(codec: Codec, truth: SlotTruth, events: seq<Event>, start: int, end: int)
    requires HonestRun(codec, truth, events) && Live(codec, truth, events) && TrueSegment(truth, start, end)
    ensures FullyDetermined(truth, ReceivedFor(truth, events), start, end)
       <==> KnownThrough(SlotAt(Run(codec, events).st, truth.slot).tracker, start, end)
  {
    var t := SlotAt(Run(codec, events).st, truth.slot).tracker;
    RunEmerging(codec, truth, events);
    forall i: Index | start <= i <= end
      ensures t.shreds[i].Some? <==> Determined(truth, ReceivedFor(truth, events), i)
    {
      KnownExactly(codec, truth, events, i);
    }
    if KnownThrough(t, start, end) {
      forall i: nat | start <= i <= end
        ensures Determined(truth, ReceivedFor(truth, events), i)
      {
        var at: Index := i;
        assert t.shreds[at].Some?;
      }
    }
  }

  /**
   After every run, the emissions of a live slot are exactly its fully determined true
   segments, each with its true content.
   */
  lemma EmittedExactly(codec: Codec, truth: SlotTruth, events: seq<Event>, em: Emission)
    requires HonestRun(codec, truth, events) && Live(codec, truth, events) && em.slot == truth.slot
    ensures em in Run(codec, events).out <==>
              && TrueSegment(truth, em.start, em.end)
              && codec.deshred(TruePayloads(truth, em.start, em.end)) == Some(em.content.bytes)
              && codec.deserialize(em.content.bytes) == Some(em.content.entries)
              && FullyDetermined(truth, ReceivedFor(truth, events), em.start, em.end)
  {
    RunEmerging(codec, truth, events);
    var h := Run(codec, events);
    var t := SlotAt(h.st, truth.slot).tracker;
    if TrueSegment(truth, em.start, em.end) {
      DeterminedIsKnown(codec, truth, events, em.start, em.end);
      if KnownThrough(t, em.start, em.end) {
        assert EmittedThrough(t, em.start, em.end) by {
          assert !Meets({}, em.start, em.end);
        }
        assert WasEmitted(truth, h.out, em.start, em.end);
      } else {
        assert !EmittedThrough(t, em.start, em.end) by {
          EmittedIsKnown(t, em.start, em.end);
        }
      }
    }
  }

  lemma EmittedIsKnown(t: Tracker, start: int, end: int)
    requires Agree(t)
    ensures EmittedThrough(t, start, end) ==> KnownThrough(t, start, end)
  {
  }

  /**
   Each fully determined true segment of a live slot is emitted exactly once: it stands at
   one place in the run's output, and no other emission overlaps it.
   */
  lemma ExactlyOnce(codec: Codec, truth: SlotTruth, events: seq<Event>, start: nat, end: nat) returns (at: nat)
    requires HonestRun(codec, truth, events) && Live(codec, truth, events)
    requires TrueSegment(truth, start, end) && FullyDetermined(truth, ReceivedFor(truth, events), start, end)
    ensures var out := Run(codec, events).out;
            && at < |out| && out[at].slot == truth.slot && out[at].start == start && out[at].end == end
            && codec.deshred(TruePayloads(truth, start, end)) == Some(out[at].content.bytes)
            && codec.deserialize(out[at].content.bytes) == Some(out[at].content.entries)
            && forall j :: 0 <= j < |out| && j != at ==> Apart(out[j], out[at])
  {
    var out := Run(codec, events).out;
    var bytes := codec.deshred(TruePayloads(truth, start, end)).value;
    var em := Emission(truth.slot, start, end, Decoded(codec.deserialize(bytes).value, bytes));
    EmittedExactly(codec, truth, events, em);
    at :| 0 <= at < |out| && out[at] == em;
    RunCovered(codec, events);
    forall j | 0 <= j < |out| && j != at
      ensures Apart(out[j], out[at])
    {
      assert if j < at then Apart(out[j], out[at]) else Apart(out[at], out[j]);
    }
  }

  lemma NothingLeft(codec: Codec, truth: SlotTruth, t: Tracker, index: Index)
    requires Honest(codec, truth) && Agree(t) && StoresTruth(truth, t) && EmittedExcept(truth, t, {})
    requires index in truth.fecs
    ensures Emittable(codec, truth.slot, t, index).None?
  {
    assert forall start, end :: !Meets({}, start, end);
    if Emittable(codec, truth.slot, t, index).Some? {
      OpenRunKnown(t, Scan(t, index).value.start, Scan(t, index).value.end);
      EmitsTrueSegment(codec, truth, t, index);
    }
  }

  /**
   The incremental scan misses nothing: after every run, scanning all FEC sets of a live slot
   again would emit nothing.
   */
  lemma FullRescanEmitsNothing(codec: Codec, truth: SlotTruth, events: seq<Event>, index: Index)
    requires HonestRun(codec, truth, events) && Live(codec, truth, events) && index in truth.fecs
    ensures Emittable(codec, truth.slot, SlotAt(Run(codec, events).st, truth.slot).tracker, index).None?
  {
    RunEmerging(codec, truth, events);
    NothingLeft(codec, truth, SlotAt(Run(codec, events).st, truth.slot).tracker, index);
  }

  // ----- independence of order and batching -----

  lemma HighestUnique(a: nat, b: nat, shreds: set<Shred>)
    requires IsHighest(a, shreds) && IsHighest(b, shreds)
    ensures a == b
  {
  }

  /**
   Two runs that received the same shreds agree: on which slots are live and, for a live
   slot with an honest leader, on every known position and on every emission, whatever the
   arrival order, the batching and the iteration order of hash sets.
   */
  lemma BatchingIndependence(codec: Codec, truth: SlotTruth, events: seq<Event>, others: seq<Event>, i: Index,
      em: Emission)
    requires HonestRun(codec, truth, events) && HonestRun(codec, truth, others)
    requires Received(events) == Received(others) && em.slot == truth.slot
    ensures Run(codec, events).st.highest == Run(codec, others).st.highest
    ensures Live(codec, truth, events) ==>
              && Known(SlotAt(Run(codec, events).st, truth.slot).tracker, i)
                 == Known(SlotAt(Run(codec, others).st, truth.slot).tracker, i)
              && (em in Run(codec, events).out) == (em in Run(codec, others).out)
  {
    HighestIsLargestReceived(codec, events);
    HighestIsLargestReceived(codec, others);
    HighestUnique(Run(codec, events).st.highest, Run(codec, others).st.highest, Received(events));
    if Live(codec, truth, events) {
      KnownExactly(codec, truth, events, i);
      KnownExactly(codec, truth, others, i);
      EmittedExactly(codec, truth, events, em);
      EmittedExactly(codec, truth, others, em);
    }
  }

  // ----- no coding shred is wrongly dropped -----

  /**
   At every moment of every run, a coding shred of a live slot that is turned away tells nothing
   new: it was received before, or it belongs to a FEC set whose data is all known.
   */
  lemma NoCodingShredWronglyDropped(codec: Codec, truth: SlotTruth, events: seq<Event>, batch: seq<Packet>,
      shred: Shred)
    requires HonestRun(codec, truth, events) && ArrivalsGenuine(truth, ShredsOf(batch))
    requires Genuine(truth, shred)
    requires var st := Ingest(Run(codec, events).st, batch).st;
             !Stale(st.highest, truth.slot) && AcceptAt(st, shred).None?
    ensures var t := SlotAt(Ingest(Run(codec, events).st, batch).st, truth.slot).tracker;
            || SetKnown(truth, t, shred.fecSet)
            || shred in ReceivedFor(truth, events) + OfSlot(ShredsOf(batch), truth.slot)
  {
    var before := Run(codec, events).st;
    RunKeysSeen(codec, events);
    IngestWindow(before, batch);
    RunEmerging(codec, truth, events);
    IngestRepairing(truth, before, batch, ReceivedFor(truth, events));
    var received := ReceivedFor(truth, events) + OfSlot(ShredsOf(batch), truth.slot);
    RejectedIsRedundant(truth, received, SlotAt(Ingest(before, batch).st, truth.slot), shred);
  }
}
