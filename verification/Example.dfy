/**
 Concrete slots. On the first, of one FEC set with two data shreds and two coding shreds, the
 first data shred is lost: the hypotheses of the run theorems hold together, the segment is
 emitted all the same, and the recovery metric counts one shred too many. The other two slots
 meet the hypotheses of the two exactness theorems on their failing side.
 */
module Example {
  import opened Options
  import opened Shreds
  import opened Trackers
  import opened FecSets
  import opened Reassembly
  import opened Bookkeeping
  import opened Conservation
  import opened Truth
  import opened HonestSlots
  import opened HonestRecovery
  import opened Completeness
  import opened IndexSpaces
  import opened SuffixDecoding

  const LOST := Data(7, 0, 0, false, false, [1])
  const LAST := Data(7, 1, 0, true, true, [2])
  const PARITY := Code(7, 0, 0, 2, 2, [3])
  const SPARE := Code(7, 1, 0, 2, 2, [4])
  const SLOT := SlotTruth(7, [LOST, LAST], map[0 := FecTruth(2, {PARITY, SPARE})])
  const BATCH := [Parsed(LAST), Parsed(PARITY)]

  /** Recovery gives back all that the batch leaves out, the second coding shred included. */
  const ANSWER := [Some(LOST), Some(LAST), Some(SPARE)]

  function ToyCodec(): Codec {
    Codec((input: seq<Shred>) => Some(ANSWER),
          (payloads: seq<Bytes>) => if |payloads| == 2 then Some([9, 8, 7]) else None,
          (bytes: Bytes) => Some([]))
  }

  ghost function OneBatch(): seq<Event> {
    [Event(SomeOrder(), BATCH)]
  }

  lemma LayoutHonest()
    ensures HonestLayout(SLOT)
  {
    assert |{PARITY, SPARE}| == 2;
    assert FecInPlace(SLOT, 0) by {
      assert CodeInPlace(SLOT, 0, PARITY) && CodeInPlace(SLOT, 0, SPARE);
    }
  }

  lemma OnlySegment(start: int, end: int)
    requires TrueSegment(SLOT, start, end)
    ensures start == 0 && end == 1
  {
    assert !Closes(LOST) && Closes(LAST);
  }

  lemma CodecHonest()
    ensures Honest(ToyCodec(), SLOT)
  {
    LayoutHonest();
    forall fecSet, input | Recoverable(SLOT, fecSet, input)
      ensures Recovers(SLOT, fecSet, input, ToyCodec().recover(input))
    {
      assert ToyCodec().recover(input) == Some(ANSWER);
      assert ANSWER[0] == Some(LOST) && ANSWER[1] == Some(LAST);
    }
    forall start: nat, end: nat | TrueSegment(SLOT, start, end)
      ensures Decodable(ToyCodec(), TruePayloads(SLOT, start, end))
    {
      OnlySegment(start, end);
      assert |TruePayloads(SLOT, 0, 1)| == 2;
    }
    forall start: nat, end: nat, from: nat | TrueSegment(SLOT, start, end) && start < from <= end
      ensures !Decodable(ToyCodec(), TruePayloads(SLOT, from, end))
    {
      OnlySegment(start, end);
      assert |TruePayloads(SLOT, from, end)| == 1;
    }
  }

  lemma BatchArrives()
    ensures Received(OneBatch()) == {LAST, PARITY}
    ensures OrdersEnumerate(OneBatch())
  {
    assert OneBatch()[..0] == [] && OneBatch()[0].batch == BATCH;
    assert BATCH[0] in BATCH && BATCH[1] in BATCH;
    assert ShredsOf(BATCH) == {LAST, PARITY};
  }

  lemma SegmentDetermined()
    ensures |SLOT.data| == 2 && FullyDetermined(SLOT, {LAST, PARITY}, 0, 1)
  {
    var received := {LAST, PARITY};
    assert ReceivedIn(received, 0) == received;
    assert |received| == 2;
  }

  lemma SegmentDecodes()
    ensures TrueSegment(SLOT, 0, 1)
    ensures DecodesTo(ToyCodec(), TruePayloads(SLOT, 0, 1), Decoded([], [9, 8, 7]))
  {
    assert |TruePayloads(SLOT, 0, 1)| == 2;
  }

  /** One data shred and the coding shred are enough: the whole segment is handed out. */
  lemma LostShredIsNoLoss()
    ensures Emission(7, 0, 1, Decoded([], [9, 8, 7])) in Run(ToyCodec(), OneBatch()).out
  {
    CodecHonest();
    BatchArrives();
    HighestIsLargestReceived(ToyCodec(), OneBatch());
    assert ReceivedFor(SLOT, OneBatch()) == {LAST, PARITY};
    SegmentDetermined();
    SegmentDecodes();
    EmittedExactly(ToyCodec(), SLOT, OneBatch(), Emission(7, 0, 1, Decoded([], [9, 8, 7])));
  }

  // ----- the same batch inflates the recovery metric -----

  lemma BatchIngested()
    ensures var g := Ingest(InitialState(), BATCH);
            var slot := SlotAt(g.st, 7);
            && Work(InitialState(), BATCH) == [WorkItem(7, 0)] && g.data == 1
            && HeldOf(slot, 0) == {LAST, PARITY} && !slot.tracker.recovered[0]
            && Absorb(slot.tracker, ANSWER).count == 2 && Absorb(slot.tracker, ANSWER).code == 1
  {
    var first := Ingest(InitialState(), [Parsed(LAST)]);
    assert [Parsed(LAST)][..0] == [] && BATCH[..1] == [Parsed(LAST)];
    assert first == IngestOne(Ingest(InitialState(), []), Parsed(LAST));
    var g := Ingest(InitialState(), BATCH);
    assert g == IngestOne(first, Parsed(PARITY));
    var item := WorkItem(7, 0);
    assert g.work == [item] + [item];
    assert [item, item][..1] == [item] && [item][..0] == [];
    assert SortDedup([item]) == [item];
    AnswerAbsorbed(SlotAt(g.st, 7).tracker);
  }

  /** Of the answer, the lost data shred and the spare coding shred are new. */
  lemma AnswerAbsorbed(t: Tracker)
    requires !t.recovered[0] && t.shreds[0].None? && t.status[0] == Unknown && t.shreds[1].Some?
    ensures Absorb(t, ANSWER).count == 2 && Absorb(t, ANSWER).code == 1
  {
    assert ANSWER[..2] == [Some(LOST), Some(LAST)] && ANSWER[..2][..1] == [Some(LOST)] && ANSWER[..1][..0] == [];
    assert Absorb(t, []) == Absorbed(t, 0, 0);
    assert Absorb(t, [Some(LOST)]) == AbsorbOne(Absorb(t, []), Some(LOST));
    assert Absorb(t, ANSWER[..2]) == AbsorbOne(Absorb(t, [Some(LOST)]), Some(LAST));
  }

  lemma RecoveryTried(iteration: seq<Shred>)
    requires Enumerates(iteration, {LAST, PARITY})
    ensures WorthRecovering({LAST, PARITY}, InfoOf(iteration))
  {
    var held := {LAST, PARITY};
    LayoutHonest();
    AccountingExact(SLOT, 0, held, iteration);
    assert DataIn(held) == {LAST} && CodeIn(held) == {PARITY} && |held| == 2;
  }

  /**
   A call that ingests one data shred and comes to know two positions, and yet returns that two
   shreds were recovered.
   */
  lemma CodingInflatesCount()
    ensures var order, st := SomeOrder(), InitialState();
            && Ingest(st, BATCH).data == 1 && Step(ToyCodec(), order, st, BATCH).recovered == 2
            && CallGetsCode(ToyCodec(), order, st, BATCH)
            && |KnownPairs(st)| == 0 && |KnownPairs(AfterEmission(ToyCodec(), order, st, BATCH).st)| == 2
  {
    var order, st, item := SomeOrder(), InitialState(), WorkItem(7, 0);
    var g := Ingest(st, BATCH);
    BatchIngested();
    var slot := SlotAt(g.st, 7);
    var iteration := order(7, 0, HeldOf(slot, 0));
    RecoveryTried(iteration);
    assert Answers(ToyCodec(), order, g.st, item, ANSWER);
    assert ANSWER[2] == Some(SPARE) && OffersCode(slot.tracker, ANSWER);
    var work := Work(st, BATCH);
    assert work[..0] == [] && CodeComesBackAt(ToyCodec(), order, g.st, work, 0);
    assert RecoverAll(ToyCodec(), order, g.st, work) == RecoverOne(ToyCodec(), order, Recovering(g.st, 0, 0), item);
    CallConserves(ToyCodec(), order, st, BATCH);
    assert KnownPairs(st) == {};
  }

  // ----- a coding index in a foreign segment -----

  const ALONE := Data(7, 0, 0, true, false, [1])
  const NEXT := Data(7, 1, 1, true, false, [2])
  const STRAY := Code(7, 0, 1, 1, 1, [3])

  /** Two segments of one shred each; the second has a coding shred with the index of the first. */
  const STRAY_SLOT := SlotTruth(7, [ALONE, NEXT], map[0 := FecTruth(1, {}), 1 := FecTruth(1, {STRAY})])

  function LenientCodec(): Codec {
    Codec((input: seq<Shred>) => Some([Some(NEXT)]),
          (payloads: seq<Bytes>) => Some([9]),
          (bytes: Bytes) => Some([]))
  }

  lemma StraySlotMeets()
    ensures Tiled(STRAY_SLOT) && RecoveryWorks(LenientCodec(), STRAY_SLOT) && Decodes(LenientCodec(), STRAY_SLOT)
    ensures !IndexSpacesFit(STRAY_SLOT)
  {
    assert FecInPlace(STRAY_SLOT, 0);
    assert FecInPlace(STRAY_SLOT, 1) by {
      assert CodeInPlace(STRAY_SLOT, 1, STRAY);
    }
    assert Closes(ALONE) && Closes(NEXT);
    assert TrueSegment(STRAY_SLOT, 0, 0) && STRAY in STRAY_SLOT.fecs[1].code;
    forall fecSet, input | Recoverable(STRAY_SLOT, fecSet, input)
      ensures Recovers(STRAY_SLOT, fecSet, input, LenientCodec().recover(input))
    {
      assert fecSet == 1;
      assert [Some(NEXT)][0] == Some(NEXT);
    }
  }

  /** The condition on coding indexes is a real one: this slot violates it, and a run loses a position. */
  lemma StrayPositionLost() returns (events: seq<Event>, position: Index)
    ensures LiveRun(LenientCodec(), STRAY_SLOT, events) && !KnowsDetermined(LenientCodec(), STRAY_SLOT, events)
  {
    StraySlotMeets();
    events, position := StrayIndexLosesPosition(LenientCodec(), STRAY_SLOT);
  }

  // ----- a suffix that decodes -----

  const HEAD := Data(7, 0, 0, false, false, [1])
  const TAIL := Data(7, 1, 1, true, false, [2])

  /** One segment of two FEC sets, with a decoder that takes anything. */
  const SPLIT_SLOT := SlotTruth(7, [HEAD, TAIL], map[0 := FecTruth(1, {}), 1 := FecTruth(1, {})])

  lemma SplitSlotMeets()
    ensures Repairable(LenientCodec(), SPLIT_SLOT) && SegmentsDecode(LenientCodec(), SPLIT_SLOT)
    ensures BadSuffix(LenientCodec(), SPLIT_SLOT, 0, 1, 1)
  {
    assert FecInPlace(SPLIT_SLOT, 0) && FecInPlace(SPLIT_SLOT, 1);
    assert !Closes(HEAD) && Closes(TAIL);
    forall fecSet, input: seq<Shred>
      ensures !Recoverable(SPLIT_SLOT, fecSet, input)
    {
      assert forall shred :: shred in input && Genuine(SPLIT_SLOT, shred) ==> shred.Data?;
    }
  }

  /** The condition on suffixes is a real one: this slot violates it, and a run loses the segment. */
  lemma SplitSegmentLost() returns (events: seq<Event>)
    ensures LiveRun(LenientCodec(), SPLIT_SLOT, events) && !EmitsDetermined(LenientCodec(), SPLIT_SLOT, events)
  {
    SplitSlotMeets();
    events := SuffixLosesSegment(LenientCodec(), SPLIT_SLOT, 0, 1, 1);
  }
}
