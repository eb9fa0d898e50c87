/**
 Why coding indexes must not fall into foreign segments. The reassembler drops a coding
 shred whose index is an emitted data index, whatever set the shred belongs to. On every
 slot where that can happen there is a run that loses a recoverable position, so the
 condition under which the run theorems hold cannot be weakened.
 */
module IndexSpaces {
  import opened Shreds
  import opened Trackers
  import opened Reassembly
  import opened Safety
  import opened Emissions
  import opened Bookkeeping
  import opened Truth
  import opened HonestSlots
  import opened HonestRecovery
  import opened HonestRuns
  import opened Completeness

  /** Decoding succeeds on whole segments and fails on the suffixes a scan can give it. */
  ghost predicate Decodes(codec: Codec, truth: SlotTruth) {
    SegmentsDecode(codec, truth) && SuffixesFail(codec, truth)
  }

  /** The slot without its coding shreds. */
  ghost function DataOnly(truth: SlotTruth): SlotTruth {
    SlotTruth(truth.slot, truth.data, map fecSet | fecSet in truth.fecs :: FecTruth(truth.fecs[fecSet].k, {}))
  }

  lemma DataOnlySegments(truth: SlotTruth, start: int, end: int)
    ensures TrueSegment(DataOnly(truth), start, end) <==> TrueSegment(truth, start, end)
  {
  }

  lemma DataOnlyHonest(codec: Codec, truth: SlotTruth)
    requires Tiled(truth) && Decodes(codec, truth)
    ensures Honest(codec, DataOnly(truth))
  {
    var bare := DataOnly(truth);
    forall i: nat | i < |bare.data|
      ensures DataInPlace(bare, i)
    {
      assert DataInPlace(truth, i);
    }
    forall fecSet | fecSet in bare.fecs
      ensures FecInPlace(bare, fecSet)
    {
      assert FecInPlace(truth, fecSet);
    }
    forall fecSet, input: seq<Shred>
      ensures !Recoverable(bare, fecSet, input)
    {
      assert forall shred :: shred in input && Genuine(bare, shred) ==> shred.Data?;
    }
    forall start: nat, end: nat, from: nat | TrueSegment(bare, start, end) && start <= from <= end
      ensures TrueSegment(truth, start, end)
      ensures TruePayloads(bare, from, end) == TruePayloads(truth, from, end)
    {
      DataOnlySegments(truth, start, end);
    }
  }

  // ----- batches of data shreds -----

  ghost function DataBatch(truth: SlotTruth, low: nat, high: nat): seq<Packet>
    requires low <= high <= |truth.data|
  {
    seq(high - low, i requires 0 <= i < high - low => Parsed(truth.data[low + i]))
  }

  lemma DataBatchShreds(truth: SlotTruth, low: nat, high: nat)
    requires low <= high <= |truth.data|
    ensures ShredsOf(DataBatch(truth, low, high)) == DataSlice(truth, low, high)
  {
    var batch := DataBatch(truth, low, high);
    forall shred | shred in DataSlice(truth, low, high)
      ensures shred in ShredsOf(batch)
    {
      var j :| low <= j < high && truth.data[j] == shred;
      assert batch[j - low] == Parsed(shred);
    }
  }

  lemma {:induction false} DataSliceExact(truth: SlotTruth, low: nat, high: nat)
    requires Tiled(truth) && low <= high <= |truth.data|
    ensures |DataSlice(truth, low, high)| == high - low
    decreases high
  {
    if low < high {
      DataSliceExact(truth, low, high - 1);
      assert DataInPlace(truth, high - 1);
      forall j: nat | low <= j < high - 1
        ensures truth.data[j] != truth.data[high - 1]
      {
        assert DataInPlace(truth, j);
      }
      assert DataSlice(truth, low, high) == DataSlice(truth, low, high - 1) + {truth.data[high - 1]};
    } else {
      assert DataSlice(truth, low, high) == {};
    }
  }

  // ----- the losing run -----

  /** A coding shred whose index lies in a segment that its FEC set does not lie in. */
  ghost predicate Stray(truth: SlotTruth, shred: Shred, start: int, end: int) {
    && shred.fecSet in truth.fecs && shred in truth.fecs[shred.fecSet].code
    && TrueSegment(truth, start, end) && start <= shred.index <= end && !(start <= shred.fecSet <= end)
  }

  /** First the foreign segment, then all but one data shred of the set. */
  ghost function DataEvents(truth: SlotTruth, fecSet: nat, start: nat, end: nat): seq<Event>
    requires Tiled(truth) && fecSet in truth.fecs && start <= end < |truth.data|
    requires FecInPlace(truth, fecSet)
  {
    [Event(SomeOrder(), DataBatch(truth, start, end + 1)),
     Event(SomeOrder(), DataBatch(truth, fecSet, fecSet + truth.fecs[fecSet].k - 1))]
  }

  lemma DataEventsReceived(truth: SlotTruth, fecSet: nat, start: nat, end: nat)
    requires Tiled(truth) && fecSet in truth.fecs && start <= end < |truth.data|
    requires FecInPlace(truth, fecSet)
    ensures Received(DataEvents(truth, fecSet, start, end))
         == DataSlice(truth, start, end + 1) + DataSlice(truth, fecSet, fecSet + truth.fecs[fecSet].k - 1)
    ensures OrdersEnumerate(DataEvents(truth, fecSet, start, end))
  {
    var events := DataEvents(truth, fecSet, start, end);
    assert events[..1] == [events[0]] && events[..1][..0] == [];
    assert Received(events) == Received(events[..1]) + ShredsOf(events[1].batch);
    assert Received(events[..1]) == Received([]) + ShredsOf(events[0].batch);
    DataBatchShreds(truth, start, end + 1);
    DataBatchShreds(truth, fecSet, fecSet + truth.fecs[fecSet].k - 1);
  }

  /** Every shred of the slot carries its number, so a run of such shreds keeps the slot live. */
  lemma OneSlotLive(codec: Codec, truth: SlotTruth, events: seq<Event>)
    requires forall shred :: shred in Received(events) ==> shred.slot == truth.slot
    ensures Live(codec, truth, events)
  {
    HighestIsLargestReceived(codec, events);
  }

  /** Of the shreds sent, only those of the second batch belong to the set. */
  lemma ReceivedOfSet(truth: SlotTruth, fecSet: nat, start: nat, end: nat, received: set<Shred>)
    requires Tiled(truth) && fecSet in truth.fecs && TrueSegment(truth, start, end) && !(start <= fecSet <= end)
    requires FecInPlace(truth, fecSet)
    requires received == DataSlice(truth, start, end + 1) + DataSlice(truth, fecSet, fecSet + truth.fecs[fecSet].k - 1)
    ensures ReceivedIn(received, fecSet) == DataSlice(truth, fecSet, fecSet + truth.fecs[fecSet].k - 1)
  {
    var last := fecSet + truth.fecs[fecSet].k - 1;
    forall shred | shred in DataSlice(truth, start, end + 1)
      ensures shred.fecSet != fecSet
    {
      var j: nat :| start <= j < end + 1 && truth.data[j] == shred;
      SegmentHoldsSets(truth, start, end, j);
    }
    forall shred | shred in DataSlice(truth, fecSet, last)
      ensures shred.fecSet == fecSet
    {
      var j: nat :| fecSet <= j < last && truth.data[j] == shred;
    }
  }

  /** A data shred is not among those before it. */
  lemma NotInEarlierSlice(truth: SlotTruth, low: nat, last: nat)
    requires Tiled(truth) && low <= last < |truth.data|
    ensures truth.data[last] !in DataSlice(truth, low, last)
  {
    assert DataInPlace(truth, last);
    forall j: nat | low <= j < last
      ensures truth.data[j] != truth.data[last]
    {
      assert DataInPlace(truth, j);
    }
  }

  /** Without the coding shred, the shreds sent do not determine the position held back. */
  lemma HeldBackUndetermined(truth: SlotTruth, received: set<Shred>, fecSet: nat)
    requires Tiled(truth) && fecSet in truth.fecs && FecInPlace(truth, fecSet)
    requires ReceivedIn(received, fecSet) == DataSlice(truth, fecSet, fecSet + truth.fecs[fecSet].k - 1)
    ensures !Determined(DataOnly(truth), received, fecSet + truth.fecs[fecSet].k - 1)
  {
    var last := fecSet + truth.fecs[fecSet].k - 1;
    DataSliceExact(truth, fecSet, last);
    NotInEarlierSlice(truth, fecSet, last);
    assert truth.data[last] !in ReceivedIn(received, fecSet);
  }

  /** With the coding shred, `k` distinct shreds of the set have arrived. */
  lemma HeldBackDetermined(truth: SlotTruth, shred: Shred, received: set<Shred>, fecSet: nat)
    requires Tiled(truth) && fecSet in truth.fecs && shred.fecSet == fecSet && shred.Code? && FecInPlace(truth, fecSet)
    requires ReceivedIn(received, fecSet) == DataSlice(truth, fecSet, fecSet + truth.fecs[fecSet].k - 1)
    ensures |ReceivedIn(received + {shred}, fecSet)| >= truth.fecs[fecSet].k
  {
    var k := truth.fecs[fecSet].k;
    DataSliceExact(truth, fecSet, fecSet + k - 1);
    ReceivedInGrows(received, shred, fecSet);
    assert shred !in DataSlice(truth, fecSet, fecSet + k - 1) by {
      forall j: nat | fecSet <= j < fecSet + k - 1
        ensures truth.data[j].Data?
      {
        assert DataInPlace(truth, j);
      }
    }
  }

  lemma DroppedChangesNothing(codec: Codec, st: State, shred: Shred)
    requires KeysSeen(st) && !Stale(st.highest, shred.slot) && AcceptAt(st, shred).None?
    ensures SlotAt(Step(codec, SomeOrder(), st, [Parsed(shred)]).st, shred.slot) == SlotAt(st, shred.slot)
  {
    var batch := [Parsed(shred)];
    assert batch[..0] == [];
    assert Ingest(st, batch) == IngestOne(Ingest(st, []), Parsed(shred));
    PruneKeepsLive(AfterEmission(codec, SomeOrder(), st, batch).st, shred.slot);
  }

  /**
   A run of data shreds only, after which all of the segment and all but the last data shred of
   the FEC set have arrived.
   */
  ghost predicate Prepared(codec: Codec, truth: SlotTruth, fecSet: nat, start: nat, end: nat, events: seq<Event>)
    requires Tiled(truth) && fecSet in truth.fecs && FecInPlace(truth, fecSet) && start <= end < |truth.data|
  {
    && HonestRun(codec, DataOnly(truth), events) && Live(codec, DataOnly(truth), events)
    && Received(events)
       == DataSlice(truth, start, end + 1) + DataSlice(truth, fecSet, fecSet + truth.fecs[fecSet].k - 1)
    && AllGenuine(DataOnly(truth), Received(events))
    && ReceivedFor(DataOnly(truth), events) == Received(events)
  }

  /** Data shreds of the slot are genuine, with or without its coding shreds. */
  lemma DataShredsGenuine(truth: SlotTruth, shreds: set<Shred>)
    requires Tiled(truth)
    requires forall shred :: shred in shreds ==> shred in DataSlice(truth, 0, |truth.data|)
    ensures AllGenuine(DataOnly(truth), shreds)
    ensures forall shred :: shred in shreds ==> shred.slot == truth.slot
  {
    forall shred | shred in shreds
      ensures Genuine(DataOnly(truth), shred) && shred.slot == truth.slot
    {
      var j: nat :| j < |truth.data| && truth.data[j] == shred;
      assert DataInPlace(truth, j);
    }
  }

  lemma SomeDataEvents(truth: SlotTruth, fecSet: nat, start: nat, end: nat) returns (events: seq<Event>)
    requires Tiled(truth) && fecSet in truth.fecs && start <= end < |truth.data|
    requires FecInPlace(truth, fecSet)
    ensures Received(events)
         == DataSlice(truth, start, end + 1) + DataSlice(truth, fecSet, fecSet + truth.fecs[fecSet].k - 1)
    ensures OrdersEnumerate(events)
  {
    events := DataEvents(truth, fecSet, start, end);
    DataEventsReceived(truth, fecSet, start, end);
  }

  lemma Prepare(codec: Codec, truth: SlotTruth, fecSet: nat, start: nat, end: nat) returns (events: seq<Event>)
    requires Tiled(truth) && Decodes(codec, truth) && fecSet in truth.fecs && start <= end < |truth.data|
    requires FecInPlace(truth, fecSet)
    ensures Prepared(codec, truth, fecSet, start, end, events)
  {
    events := SomeDataEvents(truth, fecSet, start, end);
    DataOnlyHonest(codec, truth);
    DataShredsGenuine(truth, Received(events));
    OneSlotLive(codec, DataOnly(truth), events);
  }

  /** The foreign segment is emitted, so the stray index is marked. */
  lemma StrayIsMarked(codec: Codec, truth: SlotTruth, shred: Shred, start: nat, end: nat, events: seq<Event>)
    requires Tiled(truth) && Stray(truth, shred, start, end) && FecInPlace(truth, shred.fecSet)
    requires Prepared(codec, truth, shred.fecSet, start, end, events)
    ensures SlotAt(Run(codec, events).st, truth.slot).tracker.deshredded[shred.index]
  {
    var bare := DataOnly(truth);
    forall i: nat | start <= i <= end
      ensures Determined(bare, Received(events), i)
    {
      assert truth.data[i] in DataSlice(truth, start, end + 1);
    }
    DataOnlySegments(truth, start, end);
    var bytes := codec.deshred(TruePayloads(bare, start, end)).value;
    var em := Emission(truth.slot, start, end, Decoded(codec.deserialize(bytes).value, bytes));
    EmittedExactly(codec, bare, events, em);
    RunCovered(codec, events);
    assert MarkedIn(Run(codec, events).st, em);
  }

  /** Before the coding shred arrives, the position held back is not known. */
  lemma HeldBackUnknown(codec: Codec, truth: SlotTruth, shred: Shred, start: nat, end: nat, events: seq<Event>,
      last: Index)
    requires Tiled(truth) && Stray(truth, shred, start, end) && FecInPlace(truth, shred.fecSet)
    requires Prepared(codec, truth, shred.fecSet, start, end, events)
    requires last == shred.fecSet + truth.fecs[shred.fecSet].k - 1
    ensures !Known(SlotAt(Run(codec, events).st, truth.slot).tracker, last)
  {
    ReceivedOfSet(truth, shred.fecSet, start, end, Received(events));
    HeldBackUndetermined(truth, Received(events), shred.fecSet);
    KnownExactly(codec, DataOnly(truth), events, last);
  }

  lemma OneMore(codec: Codec, events: seq<Event>, shred: Shred) returns (longer: seq<Event>)
    requires OrdersEnumerate(events)
    ensures OrdersEnumerate(longer) && Received(longer) == Received(events) + {shred}
    ensures Run(codec, longer).st == Step(codec, SomeOrder(), Run(codec, events).st, [Parsed(shred)]).st
  {
    longer := events + [Event(SomeOrder(), [Parsed(shred)])];
    assert longer[..|longer| - 1] == events;
    assert ShredsOf([Parsed(shred)]) == {shred} by {
      assert [Parsed(shred)][0] == Parsed(shred);
    }
  }

  /** What the run received once the coding shred has arrived too; the leader's shreds allow it. */
  lemma LosingRunAllowed(codec: Codec, truth: SlotTruth, shred: Shred, start: nat, end: nat, events: seq<Event>,
      longer: seq<Event>)
    requires Tiled(truth) && Stray(truth, shred, start, end) && FecInPlace(truth, shred.fecSet)
    requires Prepared(codec, truth, shred.fecSet, start, end, events) && Received(longer) == Received(events) + {shred}
    ensures ArrivalsGenuine(truth, Received(longer)) && Live(codec, truth, longer)
    ensures ReceivedFor(truth, longer) == Received(events) + {shred}
  {
    assert CodeInPlace(truth, shred.fecSet, shred);
    forall s | s in Received(longer)
      ensures s.slot == truth.slot && Genuine(truth, s)
    {
      if s != shred {
        assert Genuine(DataOnly(truth), s);
      }
    }
    OneSlotLive(codec, truth, longer);
  }

  lemma StrayIsLost(codec: Codec, truth: SlotTruth, shred: Shred, start: nat, end: nat, before: seq<Event>,
      events: seq<Event>, last: Index)
    requires Tiled(truth) && Stray(truth, shred, start, end) && FecInPlace(truth, shred.fecSet)
    requires Prepared(codec, truth, shred.fecSet, start, end, before) && shred.slot == truth.slot
    requires last == shred.fecSet + truth.fecs[shred.fecSet].k - 1
    requires Run(codec, events).st == Step(codec, SomeOrder(), Run(codec, before).st, [Parsed(shred)]).st
    ensures !Known(SlotAt(Run(codec, events).st, truth.slot).tracker, last)
  {
    HeldBackUnknown(codec, truth, shred, start, end, before, last);
    StrayIsMarked(codec, truth, shred, start, end, before);
    RunKeysSeen(codec, before);
    DroppedChangesNothing(codec, Run(codec, before).st, shred);
  }

  lemma HeldBackNowDetermined(codec: Codec, truth: SlotTruth, shred: Shred, start: nat, end: nat, before: seq<Event>)
    requires Tiled(truth) && Stray(truth, shred, start, end) && FecInPlace(truth, shred.fecSet) && shred.Code?
    requires Prepared(codec, truth, shred.fecSet, start, end, before)
    ensures |ReceivedIn(Received(before) + {shred}, shred.fecSet)| >= truth.fecs[shred.fecSet].k
  {
    ReceivedOfSet(truth, shred.fecSet, start, end, Received(before));
    HeldBackDetermined(truth, shred, Received(before), shred.fecSet);
  }

  /** The data shreds, then the stray coding shred: a determined position stays unknown. */
  lemma LoseBy(codec: Codec, truth: SlotTruth, shred: Shred, start: nat, end: nat,
      last: Index) returns (events: seq<Event>)
    requires Tiled(truth) && Decodes(codec, truth) && Stray(truth, shred, start, end)
    requires FecInPlace(truth, shred.fecSet) && CodeInPlace(truth, shred.fecSet, shred)
    requires last == shred.fecSet + truth.fecs[shred.fecSet].k - 1
    ensures OrdersEnumerate(events) && ArrivalsGenuine(truth, Received(events)) && Live(codec, truth, events)
    ensures |ReceivedIn(ReceivedFor(truth, events), shred.fecSet)| >= truth.fecs[shred.fecSet].k
    ensures !Known(SlotAt(Run(codec, events).st, truth.slot).tracker, last)
  {
    var before := Prepare(codec, truth, shred.fecSet, start, end);
    events := OneMore(codec, before, shred);
    LosingRunAllowed(codec, truth, shred, start, end, before, events);
    HeldBackNowDetermined(codec, truth, shred, start, end, before);
    StrayIsLost(codec, truth, shred, start, end, before, events, last);
  }

  /**
   If the index of a coding shred falls in a foreign segment, some run of genuine shreds ends
   with a data position that is determined by what arrived and yet is not known: what
   `KnownExactly` proves when no index does so fails whenever one does.
   */
  lemma StrayIndexLosesPosition(codec: Codec, truth: SlotTruth)
    returns (events: seq<Event>, position: Index)
    requires Tiled(truth) && Decodes(codec, truth) && !IndexSpacesFit(truth)
    ensures OrdersEnumerate(events) && ArrivalsGenuine(truth, Received(events)) && Live(codec, truth, events)
    ensures position < |truth.data| && Determined(truth, ReceivedFor(truth, events), position)
    ensures !Known(SlotAt(Run(codec, events).st, truth.slot).tracker, position)
  {
    var fecSet, shred, start, end :| fecSet in truth.fecs && shred in truth.fecs[fecSet].code
      && TrueSegment(truth, start, end) && start <= shred.index <= end && !(start <= fecSet <= end);
    assert FecInPlace(truth, fecSet) && CodeInPlace(truth, fecSet, shred);
    position := fecSet + truth.fecs[fecSet].k - 1;
    events := LoseBy(codec, truth, shred, start, end, position);
  }

  /** After this run, the known positions are exactly the determined ones. */
  ghost predicate KnowsDetermined(codec: Codec, truth: SlotTruth, events: seq<Event>) {
    forall i: Index :: Known(SlotAt(Run(codec, events).st, truth.slot).tracker, i)
      == (i < |truth.data| && Determined(truth, ReceivedFor(truth, events), i))
  }

  /** A run of genuine shreds after which the slot is still in the window. */
  ghost predicate LiveRun(codec: Codec, truth: SlotTruth, events: seq<Event>) {
    OrdersEnumerate(events) && ArrivalsGenuine(truth, Received(events)) && Live(codec, truth, events)
  }

  /**
   For a tiled slot and working libraries, every run knows exactly what it could know if and
   only if no coding index falls in a foreign segment.
   */
  lemma KnowsDeterminedIffIndexesFit(codec: Codec, truth: SlotTruth)
    requires Tiled(truth) && RecoveryWorks(codec, truth) && Decodes(codec, truth)
    ensures IndexSpacesFit(truth)
       <==> forall events :: LiveRun(codec, truth, events) ==> KnowsDetermined(codec, truth, events)
  {
    if IndexSpacesFit(truth) {
      forall events | LiveRun(codec, truth, events)
        ensures KnowsDetermined(codec, truth, events)
      {
        forall i: Index
          ensures Known(SlotAt(Run(codec, events).st, truth.slot).tracker, i)
               == (i < |truth.data| && Determined(truth, ReceivedFor(truth, events), i))
        {
          KnownExactly(codec, truth, events, i);
        }
      }
    } else {
      var events, position := StrayIndexLosesPosition(codec, truth);
      assert LiveRun(codec, truth, events) && !KnowsDetermined(codec, truth, events);
    }
  }
}
