/**
 Why decoding must fail on suffixes. When the start of a segment is unknown the scan makes a
 guess and leaves it to the decoder to reject it. Whenever some such suffix decodes, there is
 a run that emits it and then never emits the whole segment, so this condition cannot be
 weakened either.
 */
module SuffixDecoding {
  import opened Options
  import opened Shreds
  import opened Trackers
  import opened Reassembly
  import opened Safety
  import opened Emissions
  import opened Bookkeeping
  import opened Truth
  import opened HonestSlots
  import opened HonestRecovery
  import opened HonestEmission
  import opened HonestRuns
  import opened Completeness
  import opened IndexSpaces

  // ----- what a slice of data shreds determines -----

  /** Data shreds alone determine only their own positions. */
  lemma SliceDeterminesItself(truth: SlotTruth, low: nat, high: nat, i: nat)
    requires Tiled(truth) && low <= high <= |truth.data| && i < |truth.data|
    requires Determined(truth, DataSlice(truth, low, high), i)
    ensures low <= i < high
  {
    var received := DataSlice(truth, low, high);
    DeterminedReceived(truth, received, low, high, i);
    var j: nat :| low <= j < high && truth.data[j] == truth.data[i];
    assert DataInPlace(truth, i) && DataInPlace(truth, j);
  }

  lemma DeterminedReceived(truth: SlotTruth, received: set<Shred>, low: nat, high: nat, i: nat)
    requires Tiled(truth) && low <= high <= |truth.data| && i < |truth.data|
    requires received == DataSlice(truth, low, high) && Determined(truth, received, i)
    ensures truth.data[i] in received
  {
    var fecSet := truth.data[i].fecSet;
    assert DataInPlace(truth, i) && FecInPlace(truth, fecSet);
    assert truth.data[i] in DataSlice(truth, fecSet, fecSet + truth.fecs[fecSet].k);
    if |ReceivedIn(received, fecSet)| >= truth.fecs[fecSet].k {
      WholeSetReceived(truth, received, low, high, fecSet);
    }
  }

  /** If `k` data shreds of a set are in the slice, all of the set is. */
  lemma WholeSetReceived(truth: SlotTruth, received: set<Shred>, low: nat, high: nat, fecSet: nat)
    requires Tiled(truth) && low <= high <= |truth.data| && received == DataSlice(truth, low, high)
    requires fecSet in truth.fecs && FecInPlace(truth, fecSet)
    requires |ReceivedIn(received, fecSet)| >= truth.fecs[fecSet].k
    ensures DataSlice(truth, fecSet, fecSet + truth.fecs[fecSet].k) <= received
  {
    var k := truth.fecs[fecSet].k;
    forall shred | shred in ReceivedIn(received, fecSet)
      ensures shred in DataSlice(truth, fecSet, fecSet + k)
    {
      var j: nat :| low <= j < high && truth.data[j] == shred;
      assert DataInPlace(truth, j);
    }
    DataSliceSize(truth, fecSet, fecSet + k);
    FullSubset(ReceivedIn(received, fecSet), DataSlice(truth, fecSet, fecSet + k));
  }

  // ----- the first batch: a suffix of the segment -----

  /** A FEC set that gets no work item gets no shred. */
  lemma {:induction false} NoWorkNoShred(st: State, batch: seq<Packet>, number: nat, fecSet: Index, i: Index)
    requires WorkItem(number, fecSet) !in Ingest(st, batch).work
    ensures var t, u := SlotAt(st, number).tracker, SlotAt(Ingest(st, batch).st, number).tracker;
            u.shreds[i].Some? && u.shreds[i].value.fecSet == fecSet ==> t.shreds[i] == u.shreds[i]
  {
    if batch != [] {
      var rest := batch[..|batch| - 1];
      var g := Ingest(st, rest);
      assert forall item :: item in g.work ==> item in Ingest(st, batch).work;
      NoWorkNoShred(st, rest, number, fecSet, i);
    }
  }

  /** The segment and the suffix that decodes although it should not. */
  ghost predicate BadSuffix(codec: Codec, truth: SlotTruth, start: nat, from: nat, end: nat) {
    && TrueSegment(truth, start, end) && start < from <= end && from <= truth.data[end].fecSet
    && Decodable(codec, TruePayloads(truth, from, end))
  }

  /** The slot knows exactly the suffix, and has emitted nothing. */
  ghost predicate KnowsSuffix(truth: SlotTruth, t: Tracker, from: nat, end: nat) {
    && Agree(t) && StoresTruth(truth, t)
    && (forall i: Index :: t.shreds[i].Some? <==> from <= i <= end)
    && (forall i: Index :: !t.deshredded[i])
  }

  ghost function FirstBatch(truth: SlotTruth, from: nat, end: nat): seq<Packet>
    requires from <= end < |truth.data|
  {
    DataBatch(truth, from, end + 1)
  }

  lemma FirstBatchGenuine(truth: SlotTruth, from: nat, end: nat)
    requires Tiled(truth) && from <= end < |truth.data|
    ensures ShredsOf(FirstBatch(truth, from, end)) == DataSlice(truth, from, end + 1)
    ensures AllGenuine(truth, DataSlice(truth, from, end + 1))
    ensures OfSlot(DataSlice(truth, from, end + 1), truth.slot) == DataSlice(truth, from, end + 1)
  {
    DataBatchShreds(truth, from, end + 1);
    forall shred | shred in DataSlice(truth, from, end + 1)
      ensures Genuine(truth, shred)
    {
      var j: nat :| from <= j < end + 1 && truth.data[j] == shred;
      assert DataInPlace(truth, j);
    }
  }

  lemma FirstBatchLive(truth: SlotTruth, from: nat, end: nat)
    requires Tiled(truth) && from <= end < |truth.data|
    ensures !Stale(Ingest(InitialState(), FirstBatch(truth, from, end)).st.highest, truth.slot)
  {
    FirstBatchGenuine(truth, from, end);
    IngestHighest(InitialState(), FirstBatch(truth, from, end), {});
    assert {} + ShredsOf(FirstBatch(truth, from, end)) == DataSlice(truth, from, end + 1);
  }

  lemma FirstBatchIngested(truth: SlotTruth, from: nat, end: nat)
    requires HonestLayout(truth) && from <= end < |truth.data|
    ensures var g := Ingest(InitialState(), FirstBatch(truth, from, end));
            var pending := PendingIn(g.work, truth.slot);
            Repairing(truth, DataSlice(truth, from, end + 1), SlotAt(g.st, truth.slot), pending, pending)
  {
    var batch := FirstBatch(truth, from, end);
    FreshCore(truth);
    FirstBatchGenuine(truth, from, end);
    FirstBatchLive(truth, from, end);
    IngestRepairing(truth, InitialState(), batch, {});
    assert {} + OfSlot(ShredsOf(batch), truth.slot) == DataSlice(truth, from, end + 1);
  }

  lemma RecoveredCore(codec: Codec, order: Order, truth: SlotTruth, st: State, batch: seq<Packet>, now: set<Shred>)
    requires Repairable(codec, truth) && EnumeratesSets(order)
    requires var g := Ingest(st, batch);
             var pending := PendingIn(g.work, truth.slot);
             Repairing(truth, now, SlotAt(g.st, truth.slot), pending, pending)
    ensures Core(truth, now, SlotAt(AfterRecovery(codec, order, st, batch).st, truth.slot))
  {
    var work := Work(st, batch);
    WorkPending(st, batch, truth.slot);
    assert work[..0] == [] && work[0..] == work;
    RecoverRepairing(codec, order, truth, Ingest(st, batch).st, work, |work|, now);
    assert work[..|work|] == work;
  }

  /** After recovery of the first batch the slot is in order, with everything left to emit. */
  lemma FirstBatchRepaired(codec: Codec, truth: SlotTruth, from: nat, end: nat)
    requires Repairable(codec, truth) && from <= end < |truth.data|
    ensures var batch := FirstBatch(truth, from, end);
            && Core(truth, DataSlice(truth, from, end + 1), SlotAt(Ingest(InitialState(), batch).st, truth.slot))
            && Core(truth, DataSlice(truth, from, end + 1),
                    SlotAt(AfterRecovery(codec, SomeOrder(), InitialState(), batch).st, truth.slot))
  {
    FirstBatchIngested(truth, from, end);
    RecoveredCore(codec, SomeOrder(), truth, InitialState(), FirstBatch(truth, from, end),
                  DataSlice(truth, from, end + 1));
  }

  lemma SliceKnown(truth: SlotTruth, received: set<Shred>, t: Tracker, from: nat, end: nat, i: Index)
    requires Tiled(truth) && from <= end < |truth.data| && received == DataSlice(truth, from, end + 1)
    requires ReceivedIsKnown(received, t) && KnowsOnlyDetermined(truth, received, t)
    ensures t.shreds[i].Some? <==> from <= i <= end
  {
    if from <= i <= end {
      assert DataInPlace(truth, i);
      assert truth.data[i] in received;
    } else if t.shreds[i].Some? {
      SliceDeterminesItself(truth, from, end + 1, i);
    }
  }

  lemma SliceKnowsSuffix(truth: SlotTruth, received: set<Shred>, slot: SlotState, from: nat, end: nat)
    requires Tiled(truth) && from <= end < |truth.data| && received == DataSlice(truth, from, end + 1)
    requires Core(truth, received, slot) && slot.tracker.deshredded == FreshSlot().tracker.deshredded
    ensures KnowsSuffix(truth, slot.tracker, from, end)
  {
    forall i: Index
      ensures slot.tracker.shreds[i].Some? <==> from <= i <= end
    {
      SliceKnown(truth, received, slot.tracker, from, end, i);
    }
  }

  lemma FirstBatchKnown(codec: Codec, truth: SlotTruth, from: nat, end: nat)
    requires Repairable(codec, truth) && from <= end < |truth.data|
    ensures var batch := FirstBatch(truth, from, end);
            var after := AfterRecovery(codec, SomeOrder(), InitialState(), batch).st;
            KnowsSuffix(truth, SlotAt(after, truth.slot).tracker, from, end)
    ensures WorkItem(truth.slot, truth.data[end].fecSet) in Work(InitialState(), FirstBatch(truth, from, end))
  {
    var batch, st := FirstBatch(truth, from, end), InitialState();
    FirstBatchRepaired(codec, truth, from, end);
    IngestLeavesMarks(st, batch, truth.slot);
    RecoverAllLeavesMarks(codec, SomeOrder(), Ingest(st, batch).st, Work(st, batch), truth.slot);
    SliceKnowsSuffix(truth, DataSlice(truth, from, end + 1),
                     SlotAt(AfterRecovery(codec, SomeOrder(), st, batch).st, truth.slot), from, end);
    SliceKnowsSuffix(truth, DataSlice(truth, from, end + 1), SlotAt(Ingest(st, batch).st, truth.slot), from, end);
    LastSetHasWork(truth, st, batch, end);
  }

  lemma LastSetHasWork(truth: SlotTruth, st: State, batch: seq<Packet>, end: nat)
    requires end < |truth.data| && |truth.data| <= MAX_DATA_SHREDS_PER_SLOT
    requires SlotAt(st, truth.slot) == FreshSlot()
    requires SlotAt(Ingest(st, batch).st, truth.slot).tracker.shreds[end] == Some(truth.data[end])
    ensures WorkItem(truth.slot, truth.data[end].fecSet) in Work(st, batch)
  {
    SortDedupKeeps(Ingest(st, batch).work);
    if WorkItem(truth.slot, truth.data[end].fecSet) !in Ingest(st, batch).work {
      NoWorkNoShred(st, batch, truth.slot, truth.data[end].fecSet, end);
    }
  }

  // ----- the suffix is emitted -----

  /** An emission of the suffix, or of a part of it. */
  ghost predicate WithinSuffix(truth: SlotTruth, em: Emission, from: nat, end: nat) {
    em.slot == truth.slot && from <= em.start <= em.end == end
  }

  /** Any scan of a slot that knows only the suffix stays within it. */
  lemma ScanStaysWithin(codec: Codec, truth: SlotTruth, t: Tracker, start: nat, from: nat, end: nat, index: Index)
    requires TrueSegment(truth, start, end) && start <= from <= end && KnowsSuffix(truth, t, from, end)
    requires Emittable(codec, truth.slot, t, index).Some?
    ensures WithinSuffix(truth, Emittable(codec, truth.slot, t, index).value, from, end)
  {
    var r := Scan(t, index).value;
    var first: Index, last: Index := r.start, r.end;
    assert t.status[first] != Unknown && t.status[last] == DataComplete;
    assert Closes(truth.data[last]);
  }

  /** Scanning the last FEC set of the suffix emits it. */
  lemma ScanEmitsSuffix(codec: Codec, truth: SlotTruth, t: Tracker, start: nat, from: nat, end: nat, index: Index)
    requires Tiled(truth) && BadSuffix(codec, truth, start, from, end) && KnowsSuffix(truth, t, from, end)
    requires index == truth.data[end].fecSet
    ensures Emittable(codec, truth.slot, t, index).Some?
  {
    assert DataInPlace(truth, end);
    forall j: Index | from <= j <= end
      ensures t.status[j] == StatusOf(truth.data[j])
    {
      assert t.shreds[j].Some?;
    }
    var left: Index, last: Index := from - 1, end;
    assert t.shreds[left].None? && t.status[last] == DataComplete;
    assert OpenRun(t, from, end);
    ScanIs(t, index, Range(from, end, true));
    RangePayloads(truth, t, from, end);
  }

  ghost predicate SuffixGone(truth: SlotTruth, out: seq<Emission>, from: nat, end: nat) {
    exists em :: em in out && WithinSuffix(truth, em, from, end)
  }

  /** Either nothing of the slot has been emitted yet or the suffix has. */
  ghost predicate SuffixFirst(truth: SlotTruth, e: Emitting, t: Tracker, from: nat, end: nat) {
    SuffixGone(truth, e.out, from, end) || SlotAt(e.st, truth.slot).tracker == t
  }

  lemma {:induction false} SuffixGoesFirst(codec: Codec, truth: SlotTruth, st: State, work: seq<WorkItem>, done: nat,
      t: Tracker, start: nat, from: nat, end: nat)
    requires done <= |work| && TrueSegment(truth, start, end) && start <= from <= end
    requires SlotAt(st, truth.slot).tracker == t && KnowsSuffix(truth, t, from, end)
    ensures SuffixFirst(truth, EmitAll(codec, st, work[..done]), t, from, end)
    decreases done
  {
    if done == 0 {
      assert work[..0] == [];
    } else {
      SuffixGoesFirst(codec, truth, st, work, done - 1, t, start, from, end);
      SuffixItemStep(codec, truth, st, work, done - 1, t, start, from, end);
    }
  }

  lemma SuffixItemStep(codec: Codec, truth: SlotTruth, st: State, work: seq<WorkItem>, done: nat, t: Tracker,
      start: nat, from: nat, end: nat)
    requires done < |work| && TrueSegment(truth, start, end) && start <= from <= end
    requires KnowsSuffix(truth, t, from, end)
    requires SuffixFirst(truth, EmitAll(codec, st, work[..done]), t, from, end)
    ensures SuffixFirst(truth, EmitAll(codec, st, work[..done + 1]), t, from, end)
  {
    EmitAllStep(codec, st, work, done);
    SuffixStep(codec, truth, EmitAll(codec, st, work[..done]), work[done], t, start, from, end);
  }

  lemma SuffixStep(codec: Codec, truth: SlotTruth, e: Emitting, item: WorkItem, t: Tracker, start: nat, from: nat,
      end: nat)
    requires TrueSegment(truth, start, end) && start <= from <= end && KnowsSuffix(truth, t, from, end)
    requires SuffixFirst(truth, e, t, from, end)
    ensures SuffixFirst(truth, EmitOne(codec, e, item), t, from, end)
  {
    var f := EmitOne(codec, e, item);
    if SuffixGone(truth, e.out, from, end) {
      var em :| em in e.out && WithinSuffix(truth, em, from, end);
      assert em in f.out;
    } else if item.slot == truth.slot && Emittable(codec, truth.slot, t, item.fecSet).Some? {
      ScanStaysWithin(codec, truth, t, start, from, end, item.fecSet);
      assert Emittable(codec, truth.slot, t, item.fecSet).value in f.out;
    }
  }

  lemma {:induction false} SuffixStaysGone(codec: Codec, truth: SlotTruth, st: State, work: seq<WorkItem>, done: nat,
      from: nat, end: nat)
    requires done <= |work| && SuffixGone(truth, EmitAll(codec, st, work[..done]).out, from, end)
    ensures SuffixGone(truth, EmitAll(codec, st, work).out, from, end)
    decreases |work| - done
  {
    if done == |work| {
      assert work[..done] == work;
    } else {
      EmitAllStep(codec, st, work, done);
      var em :| em in EmitAll(codec, st, work[..done]).out && WithinSuffix(truth, em, from, end);
      assert em in EmitAll(codec, st, work[..done + 1]).out;
      SuffixStaysGone(codec, truth, st, work, done + 1, from, end);
    }
  }

  lemma SuffixIsEmitted(codec: Codec, truth: SlotTruth, st: State, work: seq<WorkItem>, start: nat, from: nat, end: nat)
    requires Tiled(truth) && BadSuffix(codec, truth, start, from, end)
    requires KnowsSuffix(truth, SlotAt(st, truth.slot).tracker, from, end)
    requires WorkItem(truth.slot, truth.data[end].fecSet) in work
    ensures SuffixGone(truth, EmitAll(codec, st, work).out, from, end)
  {
    var done :| 0 <= done < |work| && work[done] == WorkItem(truth.slot, truth.data[end].fecSet);
    SuffixGoesFirst(codec, truth, st, work, done, SlotAt(st, truth.slot).tracker, start, from, end);
    EmitAllStep(codec, st, work, done);
    var e := EmitAll(codec, st, work[..done]);
    if !SuffixGone(truth, e.out, from, end) {
      var t := SlotAt(st, truth.slot).tracker;
      ScanEmitsSuffix(codec, truth, t, start, from, end, work[done].fecSet);
      ScanStaysWithin(codec, truth, t, start, from, end, work[done].fecSet);
      assert Emittable(codec, truth.slot, t, work[done].fecSet).value in EmitOne(codec, e, work[done]).out;
    } else {
      var em :| em in e.out && WithinSuffix(truth, em, from, end);
      assert em in EmitOne(codec, e, work[done]).out;
    }
    SuffixStaysGone(codec, truth, st, work, done + 1, from, end);
  }

  // ----- the losing run -----

  lemma OneBatchRun(codec: Codec, batch: seq<Packet>) returns (events: seq<Event>)
    ensures OrdersEnumerate(events) && Received(events) == ShredsOf(batch)
    ensures Run(codec, events).out == AfterEmission(codec, SomeOrder(), InitialState(), batch).out
  {
    events := [Event(SomeOrder(), batch)];
    assert events[..0] == [];
    assert Received(events) == Received([]) + ShredsOf(batch);
    assert Run(codec, events) == Advance(codec, Run(codec, []), events[0]);
  }

  lemma NextBatchRun(codec: Codec, events: seq<Event>, batch: seq<Packet>) returns (longer: seq<Event>)
    requires OrdersEnumerate(events)
    ensures OrdersEnumerate(longer) && Received(longer) == Received(events) + ShredsOf(batch)
    ensures Run(codec, events).out <= Run(codec, longer).out
  {
    longer := events + [Event(SomeOrder(), batch)];
    assert longer[..|longer| - 1] == events;
    assert Run(codec, longer) == Advance(codec, Run(codec, events), Event(SomeOrder(), batch));
  }

  /** Once a part of the suffix is out, the whole segment never is. */
  lemma WholeNeverEmitted(codec: Codec, truth: SlotTruth, events: seq<Event>, start: nat, from: nat, end: nat)
    requires start < from <= end && SuffixGone(truth, Run(codec, events).out, from, end)
    ensures !WasEmitted(truth, Run(codec, events).out, start, end)
  {
    var out := Run(codec, events).out;
    RunCovered(codec, events);
    var j :| 0 <= j < |out| && WithinSuffix(truth, out[j], from, end);
    forall k | 0 <= k < |out| && out[k].slot == truth.slot && out[k].start == start
      ensures out[k].end != end
    {
      assert if j < k then Apart(out[j], out[k]) else k < j ==> Apart(out[k], out[j]);
    }
  }

  lemma SlicesJoin(truth: SlotTruth, start: nat, from: nat, end: nat)
    requires start <= from <= end <= |truth.data|
    ensures DataSlice(truth, from, end) + DataSlice(truth, start, from) == DataSlice(truth, start, end)
  {
  }

  /** After this run, every fully determined true segment has been emitted. */
  ghost predicate EmitsDetermined(codec: Codec, truth: SlotTruth, events: seq<Event>) {
    forall start: nat, end: nat | TrueSegment(truth, start, end) ::
      FullyDetermined(truth, ReceivedFor(truth, events), start, end) ==>
        WasEmitted(truth, Run(codec, events).out, start, end)
  }

  lemma SliceFullyDetermined(truth: SlotTruth, start: nat, end: nat)
    requires start <= end < |truth.data|
    ensures FullyDetermined(truth, DataSlice(truth, start, end + 1), start, end)
  {
    assert forall i: nat :: start <= i <= end ==> truth.data[i] in DataSlice(truth, start, end + 1);
  }

  lemma SliceLiveRun(codec: Codec, truth: SlotTruth, events: seq<Event>, start: nat, end: nat)
    requires Tiled(truth) && start <= end < |truth.data| && OrdersEnumerate(events)
    requires Received(events) == DataSlice(truth, start, end + 1)
    ensures LiveRun(codec, truth, events) && ReceivedFor(truth, events) == DataSlice(truth, start, end + 1)
  {
    FirstBatchGenuine(truth, start, end);
    OneSlotLive(codec, truth, events);
  }

  /** A batch with just the suffix makes the suffix go out. */
  lemma SuffixRun(codec: Codec, truth: SlotTruth, start: nat, from: nat, end: nat) returns (events: seq<Event>)
    requires Repairable(codec, truth) && BadSuffix(codec, truth, start, from, end)
    ensures OrdersEnumerate(events) && Received(events) == DataSlice(truth, from, end + 1)
    ensures SuffixGone(truth, Run(codec, events).out, from, end)
  {
    var batch := FirstBatch(truth, from, end);
    FirstBatchKnown(codec, truth, from, end);
    SuffixIsEmitted(codec, truth, AfterRecovery(codec, SomeOrder(), InitialState(), batch).st,
                    Work(InitialState(), batch), start, from, end);
    events := OneBatchRun(codec, batch);
    FirstBatchGenuine(truth, from, end);
  }

  lemma RestRun(codec: Codec, truth: SlotTruth, early: seq<Event>, start: nat, from: nat, end: nat)
    returns (events: seq<Event>)
    requires start <= from <= end < |truth.data| && OrdersEnumerate(early)
    requires Received(early) == DataSlice(truth, from, end + 1) && SuffixGone(truth, Run(codec, early).out, from, end)
    ensures OrdersEnumerate(events) && Received(events) == DataSlice(truth, start, end + 1)
    ensures SuffixGone(truth, Run(codec, events).out, from, end)
  {
    events := NextBatchRun(codec, early, DataBatch(truth, start, from));
    DataBatchShreds(truth, start, from);
    SlicesJoin(truth, start, from, end + 1);
    var em :| em in Run(codec, early).out && WithinSuffix(truth, em, from, end);
    assert em in Run(codec, events).out;
  }

  /** First the suffix, then the rest of the segment: all of it has arrived, and it is never emitted. */
  lemma SuffixLosesSegment(codec: Codec, truth: SlotTruth, start: nat, from: nat, end: nat) returns (events: seq<Event>)
    requires Repairable(codec, truth) && BadSuffix(codec, truth, start, from, end)
    ensures LiveRun(codec, truth, events) && !EmitsDetermined(codec, truth, events)
  {
    var early := SuffixRun(codec, truth, start, from, end);
    events := RestRun(codec, truth, early, start, from, end);
    SliceLiveRun(codec, truth, events, start, end);
    SliceFullyDetermined(truth, start, end);
    WholeNeverEmitted(codec, truth, events, start, from, end);
  }

  /**
   For a slot that can be repaired and whose whole segments decode, every run emits every fully
   determined segment if and only if decoding fails on every suffix that a scan can guess.
   */
  lemma EmitsDeterminedIffSuffixesFail(codec: Codec, truth: SlotTruth)
    requires Repairable(codec, truth) && SegmentsDecode(codec, truth)
    ensures SuffixesFail(codec, truth)
       <==> forall events :: LiveRun(codec, truth, events) ==> EmitsDetermined(codec, truth, events)
  {
    if SuffixesFail(codec, truth) {
      forall events | LiveRun(codec, truth, events)
        ensures EmitsDetermined(codec, truth, events)
      {
        forall start: nat, end: nat | TrueSegment(truth, start, end)
            && FullyDetermined(truth, ReceivedFor(truth, events), start, end)
          ensures WasEmitted(truth, Run(codec, events).out, start, end)
        {
          var at := ExactlyOnce(codec, truth, events, start, end);
          assert Run(codec, events).out[at] in Run(codec, events).out;
        }
      }
    } else {
      var start: nat, end: nat, from: nat :| TrueSegment(truth, start, end) && start < from <= end
        && from <= truth.data[end].fecSet && Decodable(codec, TruePayloads(truth, from, end));
      var events := SuffixLosesSegment(codec, truth, start, from, end);
    }
  }
}
