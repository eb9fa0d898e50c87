/**
 Conservation of shreds: what a call adds to the known positions is exactly what it
 accepted, and the recovery metric counts exactly what recovery gave.
 */
module Conservation {
  import opened Options
  import opened Shreds
  import opened Trackers
  import opened FecSets
  import opened Reassembly
  import opened Safety
  import opened Bookkeeping

  ghost function KnownIn(t: Tracker): set<int> {
    set i | 0 <= i < MAX_DATA_SHREDS_PER_SLOT && t.status[i] != Unknown
  }

  /** All known data positions of the slots, as pairs of slot and index. */
  ghost function PairsIn(slots: map<nat, SlotState>): set<(nat, int)> {
    set number, i | number in slots && i in KnownIn(slots[number].tracker) :: (number, i)
  }

  ghost function KnownPairs(st: State): set<(nat, int)> { PairsIn(st.slots) }

  ghost function Row<T>(number: nat, positions: set<T>): set<(nat, T)> {
    set i | i in positions :: (number, i)
  }

  lemma {:induction false} RowSize<T>(number: nat, positions: set<T>)
    ensures |Row(number, positions)| == |positions|
  {
    if positions == {} {
      assert Row(number, positions) == {};
    } else {
      var i :| i in positions;
      RowSize(number, positions - {i});
      assert Row(number, positions) == Row(number, positions - {i}) + {(number, i)};
    }
  }

  lemma FreshKnowsNothing()
    ensures KnownIn(FreshSlot().tracker) == {}
  {
  }

  lemma PairsByRow(st: State, number: nat)
    ensures KnownPairs(st) == PairsIn(st.slots - {number}) + Row(number, KnownIn(SlotAt(st, number).tracker))
  {
    FreshKnowsNothing();
    var row := Row(number, KnownIn(SlotAt(st, number).tracker));
    forall pair | pair in KnownPairs(st)
      ensures pair in PairsIn(st.slots - {number}) + row
    {
      assert pair.0 != number ==> pair.0 in st.slots - {number};
    }
    assert PairsIn(st.slots - {number}) <= KnownPairs(st);
  }

  lemma SplitRow(st: State, number: nat)
    ensures |KnownPairs(st)| == |PairsIn(st.slots - {number})| + |KnownIn(SlotAt(st, number).tracker)|
  {
    var row := Row(number, KnownIn(SlotAt(st, number).tracker));
    RowSize(number, KnownIn(SlotAt(st, number).tracker));
    PairsByRow(st, number);
    assert PairsIn(st.slots - {number}) !! row;
  }

  lemma PutChangesOneRow(st: State, number: nat, slot: SlotState)
    ensures |KnownPairs(Put(st, number, slot))| + |KnownIn(SlotAt(st, number).tracker)|
         == |KnownPairs(st)| + |KnownIn(slot.tracker)|
  {
    SplitRow(st, number);
    SplitRow(Put(st, number, slot), number);
    assert Put(st, number, slot).slots - {number} == st.slots - {number};
  }

  lemma UpdateAddsOne(t: Tracker, shred: Shred)
    requires Update(t, shred).Some?
    ensures |KnownIn(Update(t, shred).value)| == |KnownIn(t)| + if shred.Data? then 1 else 0
  {
    if shred.Data? {
      var index: int := shred.index;
      assert KnownIn(Update(t, shred).value) == KnownIn(t) + {index};
    }
  }

  lemma {:induction false} AbsorbConserves(t: Tracker, offered: seq<Option<Shred>>)
    ensures var a := Absorb(t, offered); |KnownIn(a.tracker)| + a.code == |KnownIn(t)| + a.count
  {
    if offered != [] {
      var rest, offer := offered[..|offered| - 1], offered[|offered| - 1];
      AbsorbConserves(t, rest);
      var before := Absorb(t, rest);
      if offer.Some? && Update(before.tracker, offer.value).Some? {
        UpdateAddsOne(before.tracker, offer.value);
      }
    }
  }

  lemma RecoverSetConserves(codec: Codec, iteration: seq<Shred>, slot: SlotState, fecSet: Index)
    ensures var r := RecoverSet(codec, iteration, slot, fecSet);
            |KnownIn(r.slot.tracker)| + r.code == |KnownIn(slot.tracker)| + r.count
  {
    var recovered := codec.recover(SortForRecovery(iteration));
    if recovered.Some? {
      AbsorbConserves(slot.tracker, recovered.value);
      AbsorbedCodeIsCounted(slot.tracker, recovered.value);
      var absorbed := Absorb(slot.tracker, recovered.value);
      var finished := absorbed.tracker.(recovered := absorbed.tracker.recovered[fecSet := true]);
      assert KnownIn(finished) == KnownIn(absorbed.tracker);
    }
  }

  lemma {:induction false} AbsorbedCodeIsCounted(t: Tracker, offered: seq<Option<Shred>>)
    ensures Absorb(t, offered).code <= Absorb(t, offered).count
  {
    if offered != [] {
      AbsorbedCodeIsCounted(t, offered[..|offered| - 1]);
    }
  }

  /** Ingest adds one known position for each data shred it accepts. */
  lemma {:induction false} IngestConserves(st: State, batch: seq<Packet>)
    ensures |KnownPairs(Ingest(st, batch).st)| == |KnownPairs(st)| + Ingest(st, batch).data
  {
    if batch != [] {
      var rest, packet := batch[..|batch| - 1], batch[|batch| - 1];
      var g := Ingest(st, rest);
      IngestConserves(st, rest);
      if packet.Parsed? {
        IngestOneConserves(g, packet.shred);
      }
    }
  }

  lemma IngestOneConserves(g: Ingested, shred: Shred)
    ensures var after := IngestOne(g, Parsed(shred));
            |KnownPairs(after.st)| + g.data == |KnownPairs(g.st)| + after.data
  {
    var slot := SlotAt(g.st, shred.slot);
    var accepted := AcceptAt(g.st, shred);
    if accepted.None? {
      PutChangesOneRow(g.st, shred.slot, slot);
    } else {
      PutChangesOneRow(g.st, shred.slot, accepted.value);
      UpdateAddsOne(slot.tracker, shred);
      assert KnownPairs(IngestOne(g, Parsed(shred)).st) == KnownPairs(Put(g.st, shred.slot, accepted.value));
    }
  }

  /** Recovery adds one known position for each data shred it is credited with. */
  lemma {:induction false} RecoverAllConserves(codec: Codec, order: Order, st: State, work: seq<WorkItem>)
    ensures var r := RecoverAll(codec, order, st, work);
            |KnownPairs(r.st)| + r.code == |KnownPairs(st)| + r.count
  {
    if work != [] {
      var rest, item := work[..|work| - 1], work[|work| - 1];
      RecoverAllConserves(codec, order, st, rest);
      var r := RecoverAll(codec, order, st, rest);
      var slot := SlotAt(r.st, item.slot);
      var iteration := order(item.slot, item.fecSet, HeldOf(slot, item.fecSet));
      RecoverSetConserves(codec, iteration, slot, item.fecSet);
      PutChangesOneRow(r.st, item.slot, RecoverSet(codec, iteration, slot, item.fecSet).slot);
    }
  }

  /** Emission changes no known position. */
  lemma {:induction false} EmitAllConserves(codec: Codec, st: State, work: seq<WorkItem>)
    ensures |KnownPairs(EmitAll(codec, st, work).st)| == |KnownPairs(st)|
  {
    if work != [] {
      var rest, item := work[..|work| - 1], work[|work| - 1];
      EmitAllConserves(codec, st, rest);
      var e := EmitAll(codec, st, rest);
      var slot := SlotAt(e.st, item.slot);
      var emission := Emittable(codec, item.slot, slot.tracker, item.fecSet);
      if emission.Some? {
        var marked := Mark(slot.tracker, emission.value.start, emission.value.end);
        assert KnownIn(marked) == KnownIn(slot.tracker);
        PutChangesOneRow(e.st, item.slot, slot.(tracker := marked));
      } else {
        PutChangesOneRow(e.st, item.slot, slot);
      }
    }
  }

  /**
   A call's growth in known positions is the data shreds accepted at ingest plus the
   data shreds accepted from recovery; the count it returns is the latter plus the
   coding shreds recovery gave back.
   */
  lemma CallConserves(codec: Codec, order: Order, st: State, batch: seq<Packet>)
    ensures var recovery := AfterRecovery(codec, order, st, batch);
            && recovery.code <= recovery.count == Step(codec, order, st, batch).recovered
            && |KnownPairs(AfterEmission(codec, order, st, batch).st)|
               == |KnownPairs(st)| + Ingest(st, batch).data + (recovery.count - recovery.code)
  {
    IngestConserves(st, batch);
    RecoverAllConserves(codec, order, Ingest(st, batch).st, Work(st, batch));
    RecoveredCodeIsCounted(codec, order, Ingest(st, batch).st, Work(st, batch));
    EmitAllConserves(codec, AfterRecovery(codec, order, st, batch).st, Work(st, batch));
  }

  lemma {:induction false} RecoveredCodeIsCounted(codec: Codec, order: Order, st: State, work: seq<WorkItem>)
    ensures RecoverAll(codec, order, st, work).code <= RecoverAll(codec, order, st, work).count
  {
    if work != [] {
      var rest, item := work[..|work| - 1], work[|work| - 1];
      RecoveredCodeIsCounted(codec, order, st, rest);
      var slot := SlotAt(RecoverAll(codec, order, st, rest).st, item.slot);
      var iteration := order(item.slot, item.fecSet, HeldOf(slot, item.fecSet));
      var recovered := codec.recover(SortForRecovery(iteration));
      if recovered.Some? {
        AbsorbedCodeIsCounted(slot.tracker, recovered.value);
      }
    }
  }

  // ----- when the count is the number of recovered positions -----

  /** Recovery of the FEC set is tried, and this is what the library answers. */
  ghost predicate Answers(codec: Codec, order: Order, st: State, item: WorkItem, offered: seq<Option<Shred>>) {
    var held := HeldOf(SlotAt(st, item.slot), item.fecSet);
    var iteration := order(item.slot, item.fecSet, held);
    WorthRecovering(held, InfoOf(iteration)) && codec.recover(SortForRecovery(iteration)) == Some(offered)
  }

  /** Among the shreds offered is a coding shred of a FEC set that is not finished. */
  ghost predicate OffersCode(t: Tracker, offered: seq<Option<Shred>>) {
    exists offer :: offer in offered && offer.Some? && offer.value.Code? && !t.recovered[offer.value.fecSet]
  }

  /** At this work item the library hands back a coding shred of a FEC set that is not finished. */
  ghost predicate CodeComesBack(codec: Codec, order: Order, st: State, item: WorkItem) {
    exists offered :: Answers(codec, order, st, item, offered) && OffersCode(SlotAt(st, item.slot).tracker, offered)
  }

  lemma {:induction false} AbsorbedCode(t: Tracker, offered: seq<Option<Shred>>)
    ensures Absorb(t, offered).tracker.recovered == t.recovered
    ensures Absorb(t, offered).code > 0 <==> OffersCode(t, offered)
  {
    if offered != [] {
      var rest, last := offered[..|offered| - 1], offered[|offered| - 1];
      AbsorbedCode(t, rest);
      assert offered == rest + [last];
      assert forall offer :: offer in offered <==> offer in rest || offer == last;
    }
  }

  ghost predicate IsCodeOffer(t: Tracker, offer: Option<Shred>) {
    offer.Some? && offer.value.Code? && !t.recovered[offer.value.fecSet]
  }

  /** Where the answer has coding shreds of FEC sets that are not finished. */
  ghost function CodeOffers(t: Tracker, offered: seq<Option<Shred>>): set<int> {
    set i | 0 <= i < |offered| && IsCodeOffer(t, offered[i])
  }

  lemma CodeOffersGrow(t: Tracker, rest: seq<Option<Shred>>, offer: Option<Shred>)
    ensures CodeOffers(t, rest + [offer]) == CodeOffers(t, rest) + if IsCodeOffer(t, offer) then {|rest|} else {}
  {
    var offered := rest + [offer];
    forall i
      ensures i in CodeOffers(t, offered) <==> i in CodeOffers(t, rest) || (i == |rest| && IsCodeOffer(t, offer))
    {
      if 0 <= i < |rest| {
        assert offered[i] == rest[i];
      }
    }
  }

  lemma CodeOffersStep(t: Tracker, offered: seq<Option<Shred>>)
    requires offered != []
    ensures var rest, last := offered[..|offered| - 1], offered[|offered| - 1];
            |CodeOffers(t, offered)| == |CodeOffers(t, rest)| + if IsCodeOffer(t, last) then 1 else 0
  {
    var rest, last := offered[..|offered| - 1], offered[|offered| - 1];
    CodeOffersGrow(t, rest, last);
    assert offered == rest + [last];
  }

  /** Each of them is counted once. */
  lemma {:induction false} AbsorbedCodeExact(t: Tracker, offered: seq<Option<Shred>>)
    ensures Absorb(t, offered).code == |CodeOffers(t, offered)|
  {
    if offered == [] {
      assert CodeOffers(t, offered) == {};
    } else {
      var rest := offered[..|offered| - 1];
      AbsorbedCodeExact(t, rest);
      AbsorbedCode(t, rest);
      CodeOffersStep(t, offered);
    }
  }

  lemma RecoveredCode(codec: Codec, order: Order, r: Recovering, item: WorkItem)
    ensures RecoverOne(codec, order, r, item).code >= r.code
    ensures RecoverOne(codec, order, r, item).code > r.code <==> CodeComesBack(codec, order, r.st, item)
  {
    var slot := SlotAt(r.st, item.slot);
    var iteration := order(item.slot, item.fecSet, HeldOf(slot, item.fecSet));
    var answer := codec.recover(SortForRecovery(iteration));
    if answer.Some? {
      AbsorbedCode(slot.tracker, answer.value);
      AbsorbedCodeIsCounted(slot.tracker, answer.value);
      assert WorthRecovering(HeldOf(slot, item.fecSet), InfoOf(iteration)) ==>
          Answers(codec, order, r.st, item, answer.value);
    }
  }

  /** A coding shred comes back at an item of the work list, in the state recovery has reached there. */
  ghost predicate CodeComesBackAt(codec: Codec, order: Order, st: State, work: seq<WorkItem>, done: nat)
    requires done < |work|
  {
    CodeComesBack(codec, order, RecoverAll(codec, order, st, work[..done]).st, work[done])
  }

  ghost predicate CodeComesBackIn(codec: Codec, order: Order, st: State, work: seq<WorkItem>, until: nat)
    requires until <= |work|
  {
    exists done: nat :: done < until && CodeComesBackAt(codec, order, st, work, done)
  }

  lemma RecoverAllCodeGrows(codec: Codec, order: Order, st: State, work: seq<WorkItem>, done: nat)
    requires done < |work|
    ensures var before := RecoverAll(codec, order, st, work[..done]).code;
            var after := RecoverAll(codec, order, st, work[..done + 1]).code;
            after >= before && (after > before <==> CodeComesBackAt(codec, order, st, work, done))
  {
    RecoverAllStep(codec, order, st, work, done);
    RecoveredCode(codec, order, RecoverAll(codec, order, st, work[..done]), work[done]);
  }

  lemma CodeComesBackStep(codec: Codec, order: Order, st: State, work: seq<WorkItem>, done: nat)
    requires done < |work|
    ensures CodeComesBackIn(codec, order, st, work, done + 1)
         == (CodeComesBackIn(codec, order, st, work, done) || CodeComesBackAt(codec, order, st, work, done))
  {
  }

  /** Coding shreds are counted exactly when one came back at an earlier item. */
  ghost predicate CodeToldAt(codec: Codec, order: Order, st: State, work: seq<WorkItem>, until: nat)
    requires until <= |work|
  {
    RecoverAll(codec, order, st, work[..until]).code > 0 <==> CodeComesBackIn(codec, order, st, work, until)
  }

  lemma CodeToldStep(codec: Codec, order: Order, st: State, work: seq<WorkItem>, done: nat)
    requires done < |work| && CodeToldAt(codec, order, st, work, done)
    ensures CodeToldAt(codec, order, st, work, done + 1)
  {
    RecoverAllCodeGrows(codec, order, st, work, done);
    CodeComesBackStep(codec, order, st, work, done);
  }

  lemma {:induction false} RecoverAllCode(codec: Codec, order: Order, st: State, work: seq<WorkItem>, until: nat)
    requires until <= |work|
    ensures CodeToldAt(codec, order, st, work, until)
    decreases until
  {
    if until == 0 {
      assert work[..until] == [];
    } else {
      RecoverAllCode(codec, order, st, work, until - 1);
      CodeToldStep(codec, order, st, work, until - 1);
    }
  }

  /** At some item of the call's work list the library hands back a coding shred of an unfinished FEC set. */
  ghost predicate CallGetsCode(codec: Codec, order: Order, st: State, batch: seq<Packet>) {
    CodeComesBackIn(codec, order, Ingest(st, batch).st, Work(st, batch), |Work(st, batch)|)
  }

  lemma CallCode(codec: Codec, order: Order, st: State, batch: seq<Packet>)
    ensures AfterRecovery(codec, order, st, batch).code > 0 <==> CallGetsCode(codec, order, st, batch)
  {
    var work := Work(st, batch);
    RecoverAllCode(codec, order, Ingest(st, batch).st, work, |work|);
    assert work[..|work|] == work;
  }

  /**
   The returned count is the number of recovered data positions if and only if the library
   hands back no coding shred of an unfinished FEC set at any item of the work list.
   */
  lemma CountIsDataUnlessCoding(codec: Codec, order: Order, st: State, batch: seq<Packet>)
    ensures |KnownPairs(AfterEmission(codec, order, st, batch).st)|
              == |KnownPairs(st)| + Ingest(st, batch).data + Step(codec, order, st, batch).recovered
       <==> !CallGetsCode(codec, order, st, batch)
  {
    CallConserves(codec, order, st, batch);
    CallCode(codec, order, st, batch);
  }

  // ----- with a library that answers for the FEC set it was given -----

  lemma {:induction false} IngestLeavesFinished(st: State, batch: seq<Packet>, number: nat)
    ensures SlotAt(Ingest(st, batch).st, number).tracker.recovered == SlotAt(st, number).tracker.recovered
  {
    if batch != [] {
      IngestLeavesFinished(st, batch[..|batch| - 1], number);
    }
  }

  /** A FEC set with work to do is not finished when recovery starts. */
  lemma {:induction false} WorkUnfinished(st: State, batch: seq<Packet>, item: WorkItem)
    requires item in Ingest(st, batch).work
    ensures !SlotAt(Ingest(st, batch).st, item.slot).tracker.recovered[item.fecSet]
  {
    var rest, packet := batch[..|batch| - 1], batch[|batch| - 1];
    IngestLeavesFinished(st, batch, item.slot);
    IngestLeavesFinished(st, rest, item.slot);
    if item in Ingest(st, rest).work {
      WorkUnfinished(st, rest, item);
    }
  }

  lemma RecoverSetElsewhere(codec: Codec, iteration: seq<Shred>, slot: SlotState, fecSet: Index, f: Index)
    requires f != fecSet
    ensures var after := RecoverSet(codec, iteration, slot, fecSet).slot;
            HeldOf(after, f) == HeldOf(slot, f) && after.tracker.recovered[f] == slot.tracker.recovered[f]
  {
    var answer := codec.recover(SortForRecovery(iteration));
    if answer.Some? {
      AbsorbedCode(slot.tracker, answer.value);
    }
  }

  /** The tracker takes the shred: its FEC set is not finished, and a data shred's position is empty. */
  ghost predicate IsNew(t: Tracker, shred: Shred) {
    !t.recovered[shred.fecSet] && (shred.Data? ==> t.shreds[shred.index].None?)
  }

  ghost predicate OffersNew(t: Tracker, offered: seq<Option<Shred>>) {
    exists offer :: offer in offered && offer.Some? && IsNew(t, offer.value)
  }

  lemma {:induction false} AbsorbedNew(t: Tracker, offered: seq<Option<Shred>>)
    requires Agree(t)
    ensures Absorb(t, offered).count > 0 <==> OffersNew(t, offered)
  {
    if offered != [] {
      var rest, last := offered[..|offered| - 1], offered[|offered| - 1];
      AbsorbedNew(t, rest);
      assert offered == rest + [last];
      assert forall offer :: offer in offered <==> offer in rest || offer == last;
      if Absorb(t, rest).count == 0 {
        AbsorbNothing(t, rest);
      }
    }
  }

  /** Recovery of the FEC set is tried, and the library's answer holds something new. */
  ghost predicate GivesNew(codec: Codec, iteration: seq<Shred>, slot: SlotState, fecSet: Index) {
    var answer := codec.recover(SortForRecovery(iteration));
    WorthRecovering(HeldOf(slot, fecSet), InfoOf(iteration)) && answer.Some? && OffersNew(slot.tracker, answer.value)
  }

  /**
   A recovery attempt finishes its FEC set and lets go of the shreds held for it exactly when the
   library's answer holds something new. A failed or empty attempt changes nothing, so that later
   shreds can still complete the set; no attempt touches another set.
   */
  lemma AttemptOutcome(codec: Codec, iteration: seq<Shred>, slot: SlotState, fecSet: Index, f: Index)
    requires Agree(slot.tracker)
    ensures var after := RecoverSet(codec, iteration, slot, fecSet).slot;
            var gives := GivesNew(codec, iteration, slot, fecSet);
            && (after.tracker.recovered[f] <==> slot.tracker.recovered[f] || (gives && f == fecSet))
            && HeldOf(after, f) == (if gives && f == fecSet then {} else HeldOf(slot, f))
            && (!gives ==> after.tracker == slot.tracker)
  {
    var answer := codec.recover(SortForRecovery(iteration));
    if answer.Some? {
      AbsorbedCode(slot.tracker, answer.value);
      AbsorbedNew(slot.tracker, answer.value);
      if Absorb(slot.tracker, answer.value).count == 0 {
        AbsorbNothing(slot.tracker, answer.value);
      }
    }
  }

  /** Recovery of other FEC sets changes neither what is held for a set nor whether it is finished. */
  lemma {:induction false} RecoveryElsewhere(codec: Codec, order: Order, st: State, work: seq<WorkItem>, item: WorkItem)
    requires item !in work
    ensures var now, before := SlotAt(RecoverAll(codec, order, st, work).st, item.slot), SlotAt(st, item.slot);
            && HeldOf(now, item.fecSet) == HeldOf(before, item.fecSet)
            && now.tracker.recovered[item.fecSet] == before.tracker.recovered[item.fecSet]
  {
    if work != [] {
      var rest, last := work[..|work| - 1], work[|work| - 1];
      RecoveryElsewhere(codec, order, st, rest, item);
      var slot := SlotAt(RecoverAll(codec, order, st, rest).st, last.slot);
      var iteration := order(last.slot, last.fecSet, HeldOf(slot, last.fecSet));
      if last.slot == item.slot {
        RecoverSetElsewhere(codec, iteration, slot, last.fecSet, item.fecSet);
      }
    }
  }

  ghost predicate HasCode(offered: seq<Option<Shred>>) {
    exists offer :: offer in offered && offer.Some? && offer.value.Code?
  }

  /** For the shreds held once the batch is ingested, the library's answer holds a coding shred. */
  ghost predicate CodeAnswered(codec: Codec, order: Order, ingested: State, item: WorkItem) {
    exists offered :: Answers(codec, order, ingested, item, offered) && HasCode(offered)
  }

  lemma AnswersLocal(codec: Codec, order: Order, st: State, item: WorkItem, offered: seq<Option<Shred>>)
    requires LocalRecovery(codec) && EnumeratesSets(order) && StateHeld(st)
    requires Answers(codec, order, st, item, offered)
    ensures OffersOnly(offered, item.fecSet)
  {
    var slot := SlotAt(st, item.slot);
    var iteration := order(item.slot, item.fecSet, HeldOf(slot, item.fecSet));
    assert Enumerates(iteration, HeldOf(slot, item.fecSet));
    EnumeratesFacts(iteration, HeldOf(slot, item.fecSet));
    SlotAtHeld(st, item.slot);
    RecoveryOffersOnly(codec, iteration, item.slot, slot, item.fecSet);
  }

  /** Whether a coding shred comes back can be told from the state before recovery starts. */
  lemma CodeToldBefore(codec: Codec, order: Order, st: State, batch: seq<Packet>, done: nat)
    requires LocalRecovery(codec) && EnumeratesSets(order) && StateOk(st) && StateHeld(st)
    requires done < |Work(st, batch)|
    ensures var ingested, work := Ingest(st, batch).st, Work(st, batch);
            CodeComesBackAt(codec, order, ingested, work, done) <==> CodeAnswered(codec, order, ingested, work[done])
  {
    var ingested, work := Ingest(st, batch).st, Work(st, batch);
    var item, now := work[done], RecoverAll(codec, order, ingested, work[..done]).st;
    SortDedupKeeps(Ingest(st, batch).work);
    assert item in work;
    WorkUnfinished(st, batch, item);
    forall earlier | earlier in work[..done]
      ensures earlier != item
    {
      var i :| 0 <= i < done && work[i] == earlier;
      assert ItemBefore(work[i], work[done]);
    }
    RecoveryElsewhere(codec, order, ingested, work[..done], item);
    IngestHeld(st, batch);
    forall offered
      ensures Answers(codec, order, now, item, offered) == Answers(codec, order, ingested, item, offered)
      ensures Answers(codec, order, ingested, item, offered) ==>
                OffersCode(SlotAt(now, item.slot).tracker, offered) == HasCode(offered)
    {
      if Answers(codec, order, ingested, item, offered) {
        AnswersLocal(codec, order, ingested, item, offered);
      }
    }
  }

  /**
   With a library that answers only for the FEC set it was given, in every reachable state: the
   returned count is the number of recovered data positions if and only if, for no FEC set of
   the batch, the library's answer to the shreds then held has a coding shred in it.
   */
  lemma CountIsDataUnlessCodeAnswered(codec: Codec, events: seq<Event>, order: Order, batch: seq<Packet>)
    requires LocalRecovery(codec) && OrdersEnumerate(events) && EnumeratesSets(order)
    ensures var st := Run(codec, events).st;
            |KnownPairs(AfterEmission(codec, order, st, batch).st)|
              == |KnownPairs(st)| + Ingest(st, batch).data + Step(codec, order, st, batch).recovered
            <==> forall item :: item in Work(st, batch) ==> !CodeAnswered(codec, order, Ingest(st, batch).st, item)
  {
    var st := Run(codec, events).st;
    var ingested, work := Ingest(st, batch).st, Work(st, batch);
    RepresentationAgrees(codec, events);
    CountIsDataUnlessCoding(codec, order, st, batch);
    forall done: nat | done < |work|
      ensures CodeComesBackAt(codec, order, ingested, work, done)
         <==> CodeAnswered(codec, order, ingested, work[done])
    {
      CodeToldBefore(codec, order, st, batch, done);
    }
  }

  // ----- whole runs -----

  /** Over a run: the positions its calls added, the data shreds they ingested, the coding shreds recovered. */
  datatype Tally = Tally(gained: int, ingested: nat, code: nat)

  ghost function RunTally(codec: Codec, events: seq<Event>): Tally {
    if events == [] then Tally(0, 0, 0)
    else
      var rest, event := events[..|events| - 1], events[|events| - 1];
      var before, past := Run(codec, rest).st, RunTally(codec, rest);
      var after := AfterEmission(codec, event.order, before, event.batch).st;
      Tally(past.gained + |KnownPairs(after)| - |KnownPairs(before)|,
            past.ingested + Ingest(before, event.batch).data,
            past.code + AfterRecovery(codec, event.order, before, event.batch).code)
  }

  /** The recovery metric of a whole run makes up the difference between positions gained and data ingested. */
  lemma {:induction false} RunConserves(codec: Codec, events: seq<Event>)
    ensures var tally := RunTally(codec, events);
            tally.gained + tally.code == tally.ingested + Run(codec, events).recovered
  {
    if events != [] {
      var rest, event := events[..|events| - 1], events[|events| - 1];
      RunConserves(codec, rest);
      CallConserves(codec, event.order, Run(codec, rest).st, event.batch);
    }
  }

  lemma TallyStep(codec: Codec, events: seq<Event>, call: nat)
    requires call < |events|
    ensures var before, event := Run(codec, events[..call]).st, events[call];
            RunTally(codec, events[..call + 1]).code
              == RunTally(codec, events[..call]).code + AfterRecovery(codec, event.order, before, event.batch).code
  {
    assert events[..call + 1][..call] == events[..call];
  }

  /** In this call of the run a coding shred of an unfinished FEC set comes back. */
  ghost predicate GetsCodeAt(codec: Codec, events: seq<Event>, call: nat)
    requires call < |events|
  {
    CallGetsCode(codec, events[call].order, Run(codec, events[..call]).st, events[call].batch)
  }

  ghost predicate RunGetsCode(codec: Codec, events: seq<Event>, until: nat)
    requires until <= |events|
  {
    exists call: nat :: call < until && GetsCodeAt(codec, events, call)
  }

  lemma RunGetsCodeStep(codec: Codec, events: seq<Event>, call: nat)
    requires call < |events|
    ensures RunGetsCode(codec, events, call + 1)
         == (RunGetsCode(codec, events, call) || GetsCodeAt(codec, events, call))
  {
  }

  lemma TallyGrows(codec: Codec, events: seq<Event>, call: nat)
    requires call < |events|
    ensures RunTally(codec, events[..call + 1]).code >= RunTally(codec, events[..call]).code
    ensures RunTally(codec, events[..call + 1]).code > RunTally(codec, events[..call]).code
       <==> GetsCodeAt(codec, events, call)
  {
    TallyStep(codec, events, call);
    CallCode(codec, events[call].order, Run(codec, events[..call]).st, events[call].batch);
  }

  lemma {:induction false} TallyCode(codec: Codec, events: seq<Event>, until: nat)
    requires until <= |events|
    ensures RunTally(codec, events[..until]).code > 0 <==> RunGetsCode(codec, events, until)
    decreases until
  {
    if until == 0 {
      assert events[..until] == [];
    } else {
      TallyCode(codec, events, until - 1);
      TallyGrows(codec, events, until - 1);
      RunGetsCodeStep(codec, events, until - 1);
    }
  }

  /**
   Over a whole run the metric is the number of data positions gained by recovery if and only
   if no call of the run got back a coding shred of an unfinished FEC set.
   */
  lemma MetricIsDataUnlessCoding(codec: Codec, events: seq<Event>)
    ensures var tally := RunTally(codec, events);
            tally.gained == tally.ingested + Run(codec, events).recovered <==> !RunGetsCode(codec, events, |events|)
  {
    RunConserves(codec, events);
    TallyCode(codec, events, |events|);
    assert events[..|events|] == events;
  }
}
