/**
 What holds of a slot whether or not it is still in the lookback window, and whether or not coding
 indexes fall into foreign segments: nothing false is ever stored, scanned or emitted for it,
 nothing is known that the arrivals do not determine, every recovery attempt succeeds, and no data
 shred is wrongly dropped. Each result names only the hypotheses it needs.
 */
module Soundness {
  import opened Options
  import opened Shreds
  import opened Trackers
  import opened FecSets
  import opened Reassembly
  import opened Safety
  import opened Emissions
  import opened Bookkeeping
  import opened Conservation
  import opened SlotInvariants
  import opened Truth
  import opened HonestSlots
  import opened HonestRecovery
  import opened HonestEmission
  import opened HonestRuns
  import opened Completeness

  // ----- what the recovery library answers -----

  /** The library is called as the reassembler calls it: on genuine shreds held for one FEC set. */
  ghost predicate GenuineCall(truth: SlotTruth, fecSet: Index, held: set<Shred>, iteration: seq<Shred>) {
    GenuineMembers(truth, fecSet, held) && Enumerates(iteration, held) && WorthRecovering(held, InfoOf(iteration))
  }

  /** What the library answers to such a call, if it answers at all, holds nothing but genuine shreds. */
  ghost predicate AnswersGenuine(codec: Codec, truth: SlotTruth) {
    forall fecSet, held, iteration ::
      GenuineCall(truth, fecSet, held, iteration) && codec.recover(SortForRecovery(iteration)).Some? ==>
        OffersGenuine(truth, codec.recover(SortForRecovery(iteration)).value)
  }

  /** What the library answers to such a call, if it answers at all, holds only shreds of that FEC set. */
  ghost predicate AnswersOwnSet(codec: Codec, truth: SlotTruth) {
    forall fecSet, held, iteration ::
      GenuineCall(truth, fecSet, held, iteration) && codec.recover(SortForRecovery(iteration)).Some? ==>
        OffersOnly(codec.recover(SortForRecovery(iteration)).value, fecSet)
  }

  /** In a tiled slot such a call meets the library's conditions, so a library that works answers it. */
  lemma WorkingRecoveryAnswers(codec: Codec, truth: SlotTruth)
    requires Tiled(truth) && RecoveryWorks(codec, truth)
    ensures AnswersGenuine(codec, truth) && AnswersOwnSet(codec, truth)
  {
    forall fecSet: Index, held, iteration | GenuineCall(truth, fecSet, held, iteration)
      ensures Recoverable(truth, fecSet, SortForRecovery(iteration))
    {
      var shred :| shred in held;
      assert Genuine(truth, shred) && shred.fecSet == fecSet;
      RecoveryInput(truth, fecSet, held, iteration);
    }
  }

  // ----- nothing but genuine shreds -----

  /** The slot stores and holds nothing but genuine shreds, each under its own FEC set. */
  ghost predicate AllTrue(truth: SlotTruth, slot: SlotState) {
    && StoresTruth(truth, slot.tracker)
    && forall fecSet: Index :: GenuineMembers(truth, fecSet, HeldOf(slot, fecSet))
  }

  lemma AcceptTrue(truth: SlotTruth, slot: SlotState, shred: Shred)
    requires AllTrue(truth, slot) && Genuine(truth, shred) && Accept(slot, shred).Some?
    ensures AllTrue(truth, Accept(slot, shred).value)
  {
    var after := Accept(slot, shred).value;
    forall fecSet: Index
      ensures GenuineMembers(truth, fecSet, HeldOf(after, fecSet))
    {
      assert HeldOf(after, fecSet) <= HeldOf(slot, fecSet) + if fecSet == shred.fecSet then {shred} else {};
    }
  }

  lemma RecoverSetTrue(codec: Codec, truth: SlotTruth, slot: SlotState, fecSet: Index, iteration: seq<Shred>)
    requires AnswersGenuine(codec, truth) && AllTrue(truth, slot) && Enumerates(iteration, HeldOf(slot, fecSet))
    ensures AllTrue(truth, RecoverSet(codec, iteration, slot, fecSet).slot)
  {
    var after, answer := RecoverSet(codec, iteration, slot, fecSet).slot, codec.recover(SortForRecovery(iteration));
    assert forall f: Index :: HeldOf(after, f) <= HeldOf(slot, f);
    if WorthRecovering(HeldOf(slot, fecSet), InfoOf(iteration)) && answer.Some? {
      assert GenuineCall(truth, fecSet, HeldOf(slot, fecSet), iteration);
      AbsorbStoresTruth(truth, slot.tracker, answer.value);
    }
  }

  /** Emission changes neither what is stored nor what is held. */
  lemma EmittedSame(codec: Codec, number: nat, slot: SlotState, index: Index)
    requires Emittable(codec, number, slot.tracker, index).Some?
    ensures var after := Emitted(codec, number, slot, index);
            after.tracker.shreds == slot.tracker.shreds && forall f: Index :: HeldOf(after, f) == HeldOf(slot, f)
  {
  }

  lemma AllTrueKept(codec: Codec, truth: SlotTruth, arrivals: set<Shred>)
    requires AnswersGenuine(codec, truth) && ArrivalsGenuine(truth, arrivals)
    ensures Kept(codec, truth.slot, arrivals, slot => AllTrue(truth, slot))
  {
    var inv := slot => AllTrue(truth, slot);
    forall slot, shred | inv(slot) && shred in arrivals && shred.slot == truth.slot && Accept(slot, shred).Some?
      ensures inv(Accept(slot, shred).value)
    {
      AcceptTrue(truth, slot, shred);
    }
    forall slot, fecSet, iteration | inv(slot) && Enumerates(iteration, HeldOf(slot, fecSet))
      ensures inv(RecoverSet(codec, iteration, slot, fecSet).slot)
    {
      RecoverSetTrue(codec, truth, slot, fecSet, iteration);
    }
    forall slot, index | inv(slot) && Emittable(codec, truth.slot, slot.tracker, index).Some?
      ensures inv(Emitted(codec, truth.slot, slot, index))
    {
      EmittedSame(codec, truth.slot, slot, index);
    }
  }

  /** After every run, pruned or not, the slot stores and holds nothing but genuine shreds. */
  lemma RunTrue(codec: Codec, truth: SlotTruth, events: seq<Event>)
    requires AnswersGenuine(codec, truth) && OrdersEnumerate(events) && ArrivalsGenuine(truth, Received(events))
    ensures AllTrue(truth, SlotAt(Run(codec, events).st, truth.slot))
  {
    AllTrueKept(codec, truth, Received(events));
    RunKeeps(codec, events, truth.slot, Received(events), slot => AllTrue(truth, slot));
  }

  lemma DuringEmissionTrue(codec: Codec, truth: SlotTruth, events: seq<Event>, order: Order, batch: seq<Packet>,
      done: nat)
    requires AnswersGenuine(codec, truth) && OrdersEnumerate(events) && EnumeratesSets(order)
    requires ArrivalsGenuine(truth, Received(events)) && ArrivalsGenuine(truth, ShredsOf(batch))
    requires done <= |Work(Run(codec, events).st, batch)|
    ensures var st := DuringEmission(codec, order, Run(codec, events).st, batch, done);
            StoresTruth(truth, SlotAt(st, truth.slot).tracker)
  {
    RunTrue(codec, truth, events);
    AllTrueKept(codec, truth, ShredsOf(batch));
    DuringEmissionKeeps(codec, order, Run(codec, events).st, batch, done, truth.slot, ShredsOf(batch),
                        slot => AllTrue(truth, slot));
  }

  /**
   In every state a call scans, if only genuine shreds arrived and were recovered for the slot:
   the range found never crosses a segment boundary. It is a suffix of one true segment, and the
   whole of it when the start is not a guess.
   */
  lemma EveryScanWithinSegment(codec: Codec, truth: SlotTruth, events: seq<Event>, order: Order, batch: seq<Packet>,
      done: nat, index: Index) returns (start: nat)
    requires AnswersGenuine(codec, truth) && OrdersEnumerate(events) && EnumeratesSets(order)
    requires ArrivalsGenuine(truth, Received(events)) && ArrivalsGenuine(truth, ShredsOf(batch))
    requires done <= |Work(Run(codec, events).st, batch)|
    requires var st := DuringEmission(codec, order, Run(codec, events).st, batch, done);
             Scan(SlotAt(st, truth.slot).tracker, index).Some?
    ensures var st := DuringEmission(codec, order, Run(codec, events).st, batch, done);
            var r := Scan(SlotAt(st, truth.slot).tracker, index).value;
            && start <= r.start && TrueSegment(truth, start, r.end)
            && (!r.unknownStart ==> start == r.start)
  {
    var t := SlotAt(DuringEmission(codec, order, Run(codec, events).st, batch, done), truth.slot).tracker;
    DuringEmissionOk(codec, events, order, batch, done, truth.slot);
    DuringEmissionTrue(codec, truth, events, order, batch, done);
    start := RangeWithinSegment(truth, t, index, Scan(t, index).value);
  }

  // ----- nothing is known that the arrivals do not determine -----

  /** All that is held has arrived, and all that is known is determined by what has arrived. */
  ghost predicate Grounded(truth: SlotTruth, received: set<Shred>, slot: SlotState) {
    && AllTrue(truth, slot)
    && (forall fecSet: Index :: HeldOf(slot, fecSet) <= received)
    && KnowsOnlyDetermined(truth, received, slot.tracker)
  }

  lemma AcceptGrounded(truth: SlotTruth, received: set<Shred>, slot: SlotState, shred: Shred)
    requires Grounded(truth, received, slot) && shred in received
    requires Genuine(truth, shred) && Accept(slot, shred).Some?
    ensures Grounded(truth, received, Accept(slot, shred).value)
  {
    AcceptTrue(truth, slot, shred);
    assert forall f: Index :: HeldOf(Accept(slot, shred).value, f) <= HeldOf(slot, f) + {shred};
  }

  /** Recovery is tried only on FEC sets that the arrivals determine. */
  lemma TriedIsDetermined(truth: SlotTruth, received: set<Shred>, slot: SlotState, fecSet: Index, iteration: seq<Shred>)
    requires Tiled(truth) && Grounded(truth, received, slot)
    requires GenuineCall(truth, fecSet, HeldOf(slot, fecSet), iteration)
    ensures fecSet in truth.fecs && |ReceivedIn(received, fecSet)| >= truth.fecs[fecSet].k
  {
    var held := HeldOf(slot, fecSet);
    var shred :| shred in held;
    assert Genuine(truth, shred) && shred.fecSet == fecSet;
    AccountingExact(truth, fecSet, held, iteration);
    assert held <= ReceivedIn(received, fecSet);
    SubsetSize(held, ReceivedIn(received, fecSet));
  }

  lemma RecoverSetGrounded(codec: Codec, truth: SlotTruth, received: set<Shred>, slot: SlotState, fecSet: Index,
      iteration: seq<Shred>)
    requires Tiled(truth) && AnswersGenuine(codec, truth) && AnswersOwnSet(codec, truth)
    requires Grounded(truth, received, slot) && Enumerates(iteration, HeldOf(slot, fecSet))
    ensures Grounded(truth, received, RecoverSet(codec, iteration, slot, fecSet).slot)
  {
    var after, answer := RecoverSet(codec, iteration, slot, fecSet).slot, codec.recover(SortForRecovery(iteration));
    RecoverSetTrue(codec, truth, slot, fecSet, iteration);
    assert forall f: Index :: HeldOf(after, f) <= HeldOf(slot, f);
    if WorthRecovering(HeldOf(slot, fecSet), InfoOf(iteration)) && answer.Some? {
      assert GenuineCall(truth, fecSet, HeldOf(slot, fecSet), iteration);
      TriedIsDetermined(truth, received, slot, fecSet, iteration);
      AbsorbLocal(slot.tracker, answer.value, fecSet);
    }
  }

  lemma GroundedKept(codec: Codec, truth: SlotTruth, arrivals: set<Shred>)
    requires Tiled(truth) && AnswersGenuine(codec, truth) && AnswersOwnSet(codec, truth)
    requires ArrivalsGenuine(truth, arrivals)
    ensures Kept(codec, truth.slot, arrivals, slot => Grounded(truth, OfSlot(arrivals, truth.slot), slot))
  {
    var received := OfSlot(arrivals, truth.slot);
    var inv := slot => Grounded(truth, received, slot);
    forall slot, shred | inv(slot) && shred in arrivals && shred.slot == truth.slot && Accept(slot, shred).Some?
      ensures inv(Accept(slot, shred).value)
    {
      AcceptGrounded(truth, received, slot, shred);
    }
    forall slot, fecSet, iteration | inv(slot) && Enumerates(iteration, HeldOf(slot, fecSet))
      ensures inv(RecoverSet(codec, iteration, slot, fecSet).slot)
    {
      RecoverSetGrounded(codec, truth, received, slot, fecSet, iteration);
    }
    forall slot, index | inv(slot) && Emittable(codec, truth.slot, slot.tracker, index).Some?
      ensures inv(Emitted(codec, truth.slot, slot, index))
    {
      EmittedSame(codec, truth.slot, slot, index);
    }
  }

  /** After every run, live or not, only positions that the arrivals determine are known. */
  lemma OnlyDeterminedKnown(codec: Codec, truth: SlotTruth, events: seq<Event>, i: Index)
    requires Tiled(truth) && AnswersGenuine(codec, truth) && AnswersOwnSet(codec, truth)
    requires OrdersEnumerate(events) && ArrivalsGenuine(truth, Received(events))
    requires Known(SlotAt(Run(codec, events).st, truth.slot).tracker, i)
    ensures i < |truth.data| && Determined(truth, ReceivedFor(truth, events), i)
  {
    RunOk(codec, events);
    SlotAtOk(Run(codec, events).st, truth.slot);
    GroundedKept(codec, truth, Received(events));
    RunKeeps(codec, events, truth.slot, Received(events), slot => Grounded(truth, ReceivedFor(truth, events), slot));
  }

  // ----- the truth of emissions -----

  /** A run in which all that arrives for the slot is genuine. */
  ghost predicate GenuineRun(truth: SlotTruth, events: seq<Event>) {
    OrdersEnumerate(events) && ArrivalsGenuine(truth, Received(events))
  }

  /** What is known of the slot at any moment a call of the run scans it, as for the whole run. */
  lemma ScannedKeeps(codec: Codec, events: seq<Event>, call: nat, done: nat, number: nat, inv: SlotState -> bool)
    requires call < |events| && OrdersEnumerate(events) && Kept(codec, number, Received(events), inv)
    requires var st, event := Run(codec, events[..call]).st, events[call]; done <= |Work(st, event.batch)|
    ensures var st, event := Run(codec, events[..call]).st, events[call];
            inv(SlotAt(DuringEmission(codec, event.order, st, event.batch, done), number))
  {
    ReceivedPrefix(events, call);
    RunKeeps(codec, events[..call], number, Received(events), inv);
    DuringEmissionKeeps(codec, events[call].order, Run(codec, events[..call]).st, events[call].batch, done, number,
                        Received(events), inv);
  }

  /** The tracker that was scanned when the emission was made, and the FEC set it was scanned for. */
  lemma ScannedFor(codec: Codec, truth: SlotTruth, events: seq<Event>, em: Emission, inv: SlotState -> bool)
    returns (slot: SlotState, index: Index)
    requires GenuineRun(truth, events) && em in Run(codec, events).out && em.slot == truth.slot
    requires Kept(codec, truth.slot, Received(events), inv)
    ensures inv(slot) && SlotOk(slot) && index in truth.fecs
    ensures Emittable(codec, truth.slot, slot.tracker, index) == Some(em)
  {
    var call, done := EmittedFromCall(codec, events, em);
    var st, event := Run(codec, events[..call]).st, events[call];
    slot := SlotAt(DuringEmission(codec, event.order, st, event.batch, done), truth.slot);
    index := Work(st, event.batch)[done].fecSet;
    ScannedKeeps(codec, events, call, done, truth.slot, inv);
    DuringEmissionOk(codec, events[..call], event.order, event.batch, done, truth.slot);
    ReceivedPrefix(events, call);
    CallWorkArrived(st, event.batch, Received(events));
    assert Work(st, event.batch)[done] in Work(st, event.batch);
  }

  /**
   In every run of genuine shreds, whether or not the slot is still in the window, each emission
   of the slot is a whole true segment with its true content.
   */
  lemma EveryEmissionTrue(codec: Codec, truth: SlotTruth, events: seq<Event>, em: Emission)
    requires Tiled(truth) && SuffixesFail(codec, truth) && AnswersGenuine(codec, truth)
    requires GenuineRun(truth, events) && em in Run(codec, events).out && em.slot == truth.slot
    ensures TrueSegment(truth, em.start, em.end)
    ensures codec.deshred(TruePayloads(truth, em.start, em.end)) == Some(em.content.bytes)
    ensures codec.deserialize(em.content.bytes) == Some(em.content.entries)
  {
    AllTrueKept(codec, truth, Received(events));
    var slot, index := ScannedFor(codec, truth, events, em, slot => AllTrue(truth, slot));
    EmitsTrueSegment(codec, truth, slot.tracker, index);
  }

  /** What a scan finds in a grounded slot is determined by what arrived. */
  lemma GroundedScan(codec: Codec, truth: SlotTruth, received: set<Shred>, slot: SlotState, index: Index)
    requires Grounded(truth, received, slot) && SlotOk(slot)
    requires Emittable(codec, truth.slot, slot.tracker, index).Some?
    ensures var em := Emittable(codec, truth.slot, slot.tracker, index).value;
            em.start <= em.end < |truth.data| && FullyDetermined(truth, received, em.start, em.end)
  {
    var em := Emittable(codec, truth.slot, slot.tracker, index).value;
    OpenRunKnown(slot.tracker, em.start, em.end);
    var last: Index := em.end;
    assert slot.tracker.shreds[last].Some?;
    forall i: nat | em.start <= i <= em.end
      ensures Determined(truth, received, i)
    {
      var at: Index := i;
      assert slot.tracker.shreds[at].Some?;
    }
  }

  /** And, from a library that answers for its own FEC set, all of it is determined by what arrived. */
  lemma EveryEmissionDetermined(codec: Codec, truth: SlotTruth, events: seq<Event>, em: Emission)
    requires Tiled(truth) && AnswersGenuine(codec, truth) && AnswersOwnSet(codec, truth)
    requires GenuineRun(truth, events) && em in Run(codec, events).out && em.slot == truth.slot
    ensures em.start <= em.end < |truth.data|
    ensures FullyDetermined(truth, ReceivedFor(truth, events), em.start, em.end)
  {
    GroundedKept(codec, truth, Received(events));
    var slot, index := ScannedFor(codec, truth, events, em, slot => Grounded(truth, ReceivedFor(truth, events), slot));
    GroundedScan(codec, truth, ReceivedFor(truth, events), slot, index);
  }

  // ----- every recovery attempt succeeds -----

  /** The redundant structures of the slot agree, and all of it is genuine. */
  ghost predicate Agreeing(truth: SlotTruth, slot: SlotState) {
    SlotOk(slot) && HeldAgrees(truth.slot, slot) && AllTrue(truth, slot)
  }

  lemma RecoverSetAgreeing(codec: Codec, truth: SlotTruth, slot: SlotState, fecSet: Index, iteration: seq<Shred>)
    requires AnswersGenuine(codec, truth) && AnswersOwnSet(codec, truth)
    requires Agreeing(truth, slot) && Enumerates(iteration, HeldOf(slot, fecSet))
    ensures Agreeing(truth, RecoverSet(codec, iteration, slot, fecSet).slot)
  {
    RecoverSetOk(codec, iteration, slot, fecSet);
    RecoverSetTrue(codec, truth, slot, fecSet, iteration);
    if WorthRecovering(HeldOf(slot, fecSet), InfoOf(iteration)) {
      assert GenuineCall(truth, fecSet, HeldOf(slot, fecSet), iteration);
    }
    RecoverSetHeld(codec, iteration, truth.slot, slot, fecSet);
  }

  lemma EmittedAgreeing(codec: Codec, truth: SlotTruth, slot: SlotState, index: Index)
    requires Agreeing(truth, slot) && Emittable(codec, truth.slot, slot.tracker, index).Some?
    ensures Agreeing(truth, Emitted(codec, truth.slot, slot, index))
  {
    var em := Emittable(codec, truth.slot, slot.tracker, index).value;
    EmittedSame(codec, truth.slot, slot, index);
    MarkKeeps(slot.tracker, em.start, em.end);
    MarkHeld(truth.slot, slot, em.start, em.end);
  }

  lemma AcceptAgreeing(truth: SlotTruth, slot: SlotState, shred: Shred)
    requires Agreeing(truth, slot) && Genuine(truth, shred) && Accept(slot, shred).Some?
    ensures Agreeing(truth, Accept(slot, shred).value)
  {
    AcceptOk(slot, shred);
    AcceptHeld(truth.slot, slot, shred);
    AcceptTrue(truth, slot, shred);
  }

  lemma AgreeingKept(codec: Codec, truth: SlotTruth, arrivals: set<Shred>)
    requires AnswersGenuine(codec, truth) && AnswersOwnSet(codec, truth) && ArrivalsGenuine(truth, arrivals)
    ensures Kept(codec, truth.slot, arrivals, slot => Agreeing(truth, slot))
  {
    var inv := slot => Agreeing(truth, slot);
    FreshSlotOk();
    forall slot, shred | inv(slot) && shred in arrivals && shred.slot == truth.slot && Accept(slot, shred).Some?
      ensures inv(Accept(slot, shred).value)
    {
      AcceptAgreeing(truth, slot, shred);
    }
    forall slot, fecSet, iteration | inv(slot) && Enumerates(iteration, HeldOf(slot, fecSet))
      ensures inv(RecoverSet(codec, iteration, slot, fecSet).slot)
    {
      RecoverSetAgreeing(codec, truth, slot, fecSet, iteration);
    }
    forall slot, index | inv(slot) && Emittable(codec, truth.slot, slot.tracker, index).Some?
      ensures inv(Emitted(codec, truth.slot, slot, index))
    {
      EmittedAgreeing(codec, truth, slot, index);
    }
  }

  /** The slot as the recovery phase of a call meets it at a work item. */
  ghost function AtItem(codec: Codec, order: Order, st: State, batch: seq<Packet>, done: nat): SlotState
    requires done < |Work(st, batch)|
  {
    var work := Work(st, batch);
    SlotAt(RecoverAll(codec, order, Ingest(st, batch).st, work[..done]).st, work[done].slot)
  }

  /** The FEC set of a work item is not finished when its turn comes. */
  lemma ItemUnfinished(codec: Codec, order: Order, st: State, batch: seq<Packet>, done: nat)
    requires done < |Work(st, batch)|
    ensures !AtItem(codec, order, st, batch, done).tracker.recovered[Work(st, batch)[done].fecSet]
  {
    var work := Work(st, batch);
    SortDedupKeeps(Ingest(st, batch).work);
    assert work[done] in work;
    WorkUnfinished(st, batch, work[done]);
    forall earlier | earlier in work[..done]
      ensures earlier != work[done]
    {
      var i :| 0 <= i < done && work[i] == earlier;
      assert ItemBefore(work[i], work[done]);
    }
    RecoveryElsewhere(codec, order, Ingest(st, batch).st, work[..done], work[done]);
  }

  /** Every work item of the slot is an attempt with all its conditions met. */
  lemma ItemIsAttempt(codec: Codec, truth: SlotTruth, events: seq<Event>, order: Order, batch: seq<Packet>, done: nat)
    requires Tiled(truth) && RecoveryWorks(codec, truth) && GenuineRun(truth, events)
    requires EnumeratesSets(order) && ArrivalsGenuine(truth, ShredsOf(batch))
    requires done < |Work(Run(codec, events).st, batch)| && Work(Run(codec, events).st, batch)[done].slot == truth.slot
    ensures var st := Run(codec, events).st;
            var slot, fecSet := AtItem(codec, order, st, batch, done), Work(st, batch)[done].fecSet;
            Attempt(codec, truth, slot, fecSet, order(truth.slot, fecSet, HeldOf(slot, fecSet)))
  {
    var st := Run(codec, events).st;
    var slot, fecSet := AtItem(codec, order, st, batch, done), Work(st, batch)[done].fecSet;
    WorkingRecoveryAnswers(codec, truth);
    AgreeingKept(codec, truth, Received(events));
    RunKeeps(codec, events, truth.slot, Received(events), s => Agreeing(truth, s));
    AgreeingKept(codec, truth, ShredsOf(batch));
    DuringRecoveryKeeps(codec, order, st, batch, done, truth.slot, ShredsOf(batch), s => Agreeing(truth, s));
    ItemUnfinished(codec, order, st, batch, done);
    CallWorkArrived(st, batch, ShredsOf(batch));
    assert Work(st, batch)[done] in Work(st, batch);
    assert Enumerates(order(truth.slot, fecSet, HeldOf(slot, fecSet)), HeldOf(slot, fecSet));
  }

  /**
   At every recovery attempt of every run, live or not, the FEC set's size is known exactly or not
   at all and every held shred is counted; when the library is called it is given a coding shred
   for each missing data shred, it succeeds, and its answer makes the whole FEC set known.
   */
  lemma EveryAttemptSucceeds(codec: Codec, truth: SlotTruth, events: seq<Event>, order: Order, batch: seq<Packet>,
      done: nat)
    requires Tiled(truth) && RecoveryWorks(codec, truth) && GenuineRun(truth, events)
    requires EnumeratesSets(order) && ArrivalsGenuine(truth, ShredsOf(batch))
    requires done < |Work(Run(codec, events).st, batch)| && Work(Run(codec, events).st, batch)[done].slot == truth.slot
    ensures var st := Run(codec, events).st;
            var slot, fecSet := AtItem(codec, order, st, batch, done), Work(st, batch)[done].fecSet;
            var held := HeldOf(slot, fecSet);
            var iteration := order(truth.slot, fecSet, held);
            var info, answer := InfoOf(iteration), codec.recover(SortForRecovery(iteration));
            && fecSet in truth.fecs
            && (info.expectedData == 0 || info.expectedData == truth.fecs[fecSet].k)
            && info.data + info.coding == |held|
            && (WorthRecovering(held, info) ==>
                  && info.coding >= truth.fecs[fecSet].k - info.data > 0
                  && answer.Some? && SetKnown(truth, Absorb(slot.tracker, answer.value).tracker, fecSet))
  {
    var st := Run(codec, events).st;
    var slot, fecSet := AtItem(codec, order, st, batch, done), Work(st, batch)[done].fecSet;
    ItemIsAttempt(codec, truth, events, order, batch, done);
    AttemptFacts(codec, truth, slot, fecSet, order(truth.slot, fecSet, HeldOf(slot, fecSet)));
  }

  lemma AttemptFacts(codec: Codec, truth: SlotTruth, slot: SlotState, fecSet: Index, iteration: seq<Shred>)
    requires Attempt(codec, truth, slot, fecSet, iteration)
    ensures var held, info, k := HeldOf(slot, fecSet), InfoOf(iteration), truth.fecs[fecSet].k;
            var answer := codec.recover(SortForRecovery(iteration));
            && (info.expectedData == 0 || info.expectedData == k)
            && info.data + info.coding == |held|
            && (WorthRecovering(held, info) ==>
                  && info.coding >= k - info.data > 0
                  && answer.Some? && SetKnown(truth, Absorb(slot.tracker, answer.value).tracker, fecSet))
  {
    AccountingExact(truth, fecSet, HeldOf(slot, fecSet), iteration);
    if WorthRecovering(HeldOf(slot, fecSet), InfoOf(iteration)) {
      AttemptSucceeds(codec, truth, slot, fecSet, iteration);
    }
  }

  // ----- no data shred is wrongly dropped -----

  /** The slot agrees, and every FEC set it counts as finished is fully known. */
  ghost predicate Faithful(truth: SlotTruth, slot: SlotState) {
    Agreeing(truth, slot) && FinishedMeansKnown(truth, slot.tracker)
  }

  lemma AcceptFaithful(truth: SlotTruth, slot: SlotState, shred: Shred)
    requires Faithful(truth, slot) && Genuine(truth, shred) && Accept(slot, shred).Some?
    ensures Faithful(truth, Accept(slot, shred).value)
  {
    var t, u := slot.tracker, Accept(slot, shred).value.tracker;
    AcceptAgreeing(truth, slot, shred);
    forall fecSet: Index | u.recovered[fecSet]
      ensures SetKnown(truth, u, fecSet)
    {
      assert SetKnown(truth, t, fecSet);
    }
  }

  lemma StaysKnown(truth: SlotTruth, t: Tracker, u: Tracker, fecSet: nat)
    requires StoresMore(t, u) && SetKnown(truth, t, fecSet)
    ensures SetKnown(truth, u, fecSet)
  {
  }

  /** When an answer is taken, the FEC set it was asked for is fully known afterwards. */
  lemma AnswerCompletes(codec: Codec, truth: SlotTruth, slot: SlotState, fecSet: Index, iteration: seq<Shred>)
    requires Tiled(truth) && RecoveryWorks(codec, truth) && Faithful(truth, slot)
    requires GenuineCall(truth, fecSet, HeldOf(slot, fecSet), iteration)
    requires codec.recover(SortForRecovery(iteration)).Some?
    ensures SetKnown(truth, Absorb(slot.tracker, codec.recover(SortForRecovery(iteration)).value).tracker, fecSet)
  {
    var shred :| shred in HeldOf(slot, fecSet);
    assert Genuine(truth, shred) && shred.fecSet == fecSet;
    if slot.tracker.recovered[fecSet] {
      var answer := codec.recover(SortForRecovery(iteration)).value;
      AbsorbStoresMore(slot.tracker, answer);
      StaysKnown(truth, slot.tracker, Absorb(slot.tracker, answer).tracker, fecSet);
    } else {
      AttemptSucceeds(codec, truth, slot, fecSet, iteration);
    }
  }

  lemma AbsorbStoresMore(t: Tracker, offered: seq<Option<Shred>>)
    ensures StoresMore(t, Absorb(t, offered).tracker) && Absorb(t, offered).tracker.recovered == t.recovered
  {
    AbsorbedCode(t, offered);
    forall i: Index | t.shreds[i].Some?
      ensures Absorb(t, offered).tracker.shreds[i] == t.shreds[i]
    {
      AbsorbKeepsStored(t, offered, i);
    }
  }

  lemma RecoverSetFinishes(codec: Codec, truth: SlotTruth, slot: SlotState, fecSet: Index, iteration: seq<Shred>)
    requires Tiled(truth) && RecoveryWorks(codec, truth) && Faithful(truth, slot)
    requires Enumerates(iteration, HeldOf(slot, fecSet))
    ensures FinishedMeansKnown(truth, RecoverSet(codec, iteration, slot, fecSet).slot.tracker)
  {
    var answer := codec.recover(SortForRecovery(iteration));
    if WorthRecovering(HeldOf(slot, fecSet), InfoOf(iteration)) && answer.Some? {
      var t, u := slot.tracker, RecoverSet(codec, iteration, slot, fecSet).slot.tracker;
      AnswerCompletes(codec, truth, slot, fecSet, iteration);
      AbsorbStoresMore(t, answer.value);
      forall f: Index | u.recovered[f]
        ensures SetKnown(truth, u, f)
      {
        if f != fecSet {
          StaysKnown(truth, t, u, f);
        }
      }
    }
  }

  lemma EmittedFaithful(codec: Codec, truth: SlotTruth, slot: SlotState, index: Index)
    requires Tiled(truth) && SuffixesFail(codec, truth) && Faithful(truth, slot) && index in truth.fecs
    requires Emittable(codec, truth.slot, slot.tracker, index).Some?
    ensures Faithful(truth, Emitted(codec, truth.slot, slot, index))
  {
    var em := Emittable(codec, truth.slot, slot.tracker, index).value;
    EmittedAgreeing(codec, truth, slot, index);
    EmitsTrueSegment(codec, truth, slot.tracker, index);
    MarkFinishes(truth, slot.tracker, em.start, em.end);
  }

  lemma FaithfulKept(codec: Codec, truth: SlotTruth, arrivals: set<Shred>)
    requires Tiled(truth) && RecoveryWorks(codec, truth) && SuffixesFail(codec, truth)
    requires ArrivalsGenuine(truth, arrivals)
    ensures Kept(codec, truth.slot, arrivals, slot => Faithful(truth, slot))
  {
    var inv := slot => Faithful(truth, slot);
    FreshSlotOk();
    WorkingRecoveryAnswers(codec, truth);
    forall slot, shred | inv(slot) && shred in arrivals && shred.slot == truth.slot && Accept(slot, shred).Some?
      ensures inv(Accept(slot, shred).value)
    {
      AcceptFaithful(truth, slot, shred);
    }
    forall slot, fecSet, iteration | inv(slot) && Enumerates(iteration, HeldOf(slot, fecSet))
      ensures inv(RecoverSet(codec, iteration, slot, fecSet).slot)
    {
      RecoverSetAgreeing(codec, truth, slot, fecSet, iteration);
      RecoverSetFinishes(codec, truth, slot, fecSet, iteration);
    }
    forall slot, index | inv(slot) && SetArrived(arrivals, truth.slot, index)
                         && Emittable(codec, truth.slot, slot.tracker, index).Some?
      ensures inv(Emitted(codec, truth.slot, slot, index))
    {
      EmittedFaithful(codec, truth, slot, index);
    }
  }

  /** A data shred that a faithful slot turns away is already stored. */
  lemma RejectedIsStored(truth: SlotTruth, slot: SlotState, shred: Shred)
    requires Tiled(truth) && Faithful(truth, slot) && Genuine(truth, shred) && shred.Data? && Accept(slot, shred).None?
    ensures slot.tracker.shreds[shred.index] == Some(shred)
  {
    assert DataInPlace(truth, shred.index);
    if slot.tracker.recovered[shred.fecSet] {
      assert SetKnown(truth, slot.tracker, shred.fecSet);
    }
    assert slot.tracker.shreds[shred.index].Some?;
  }

  /**
   At every moment of every run of genuine shreds, a data shred that is turned away although its
   slot is in the window is already stored at its position. Coding indexes may fall anywhere.
   */
  lemma NoDataShredWronglyDropped(codec: Codec, truth: SlotTruth, events: seq<Event>, batch: seq<Packet>, shred: Shred)
    requires Tiled(truth) && RecoveryWorks(codec, truth) && SuffixesFail(codec, truth)
    requires GenuineRun(truth, events) && ArrivalsGenuine(truth, ShredsOf(batch))
    requires Genuine(truth, shred) && shred.Data?
    requires var st := Ingest(Run(codec, events).st, batch).st;
             !Stale(st.highest, truth.slot) && AcceptAt(st, shred).None?
    ensures SlotAt(Ingest(Run(codec, events).st, batch).st, truth.slot).tracker.shreds[shred.index] == Some(shred)
  {
    var st := Run(codec, events).st;
    FaithfulKept(codec, truth, Received(events));
    RunKeeps(codec, events, truth.slot, Received(events), slot => Faithful(truth, slot));
    FaithfulKept(codec, truth, ShredsOf(batch));
    IngestKeeps(st, batch, truth.slot, ShredsOf(batch), slot => Faithful(truth, slot));
    RejectedIsStored(truth, SlotAt(Ingest(st, batch).st, truth.slot), shred);
  }
}
