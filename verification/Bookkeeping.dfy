/**
 Agreement between what a slot holds and what its tracker stores, and the meaning of
 the highest slot seen.
 */
module Bookkeeping {
  import opened Options
  import opened Shreds
  import opened Trackers
  import opened FecSets
  import opened Reassembly
  import opened Safety

  // ----- received shreds and the highest slot -----

  ghost function ShredsOf(batch: seq<Packet>): set<Shred> {
    set packet | packet in batch && packet.Parsed? :: packet.shred
  }

  /** Every shred that arrived in a run, whether or not it was accepted. */
  ghost function Received(events: seq<Event>): set<Shred> {
    if events == [] then {}
    else Received(events[..|events| - 1]) + ShredsOf(events[|events| - 1].batch)
  }

  /** `highest` is the largest slot among the shreds, or 0 when there are none. */
  ghost predicate IsHighest(highest: nat, shreds: set<Shred>) {
    && (forall shred :: shred in shreds ==> shred.slot <= highest)
    && (highest == 0 || exists shred :: shred in shreds && shred.slot == highest)
  }

  lemma ShredsOfStep(batch: seq<Packet>)
    requires batch != []
    ensures var packet := batch[|batch| - 1];
            ShredsOf(batch) == ShredsOf(batch[..|batch| - 1]) + if packet.Parsed? then {packet.shred} else {}
  {
    var rest, packet := batch[..|batch| - 1], batch[|batch| - 1];
    assert batch == rest + [packet];
    forall shred | shred in ShredsOf(batch)
      ensures shred in ShredsOf(rest) || (packet.Parsed? && shred == packet.shred)
    {
      var p :| p in batch && p.Parsed? && p.shred == shred;
      assert p in rest || p == packet;
    }
    forall shred | shred in ShredsOf(rest)
      ensures shred in ShredsOf(batch)
    {
      var p :| p in rest && p.Parsed? && p.shred == shred;
      assert p in batch;
    }
  }

  lemma {:induction false} IngestHighest(st: State, batch: seq<Packet>, before: set<Shred>)
    requires KeysSeen(st) && IsHighest(st.highest, before)
    ensures IsHighest(Ingest(st, batch).st.highest, before + ShredsOf(batch))
  {
    if batch == [] {
      assert before + ShredsOf(batch) == before;
    } else {
      var rest, packet := batch[..|batch| - 1], batch[|batch| - 1];
      var g := Ingest(st, rest);
      IngestHighest(st, rest, before);
      IngestWindow(st, rest);
      ShredsOfStep(batch);
      if packet.Parsed? {
        FreshSlotAccepts(packet.shred);
        assert packet.shred in before + ShredsOf(batch);
      }
    }
  }

  /**
   After every run the highest slot seen is the largest slot that ever arrived: no
   rejection can hide a slot, and neither order nor batching matters.
   */
  lemma {:induction false} HighestIsLargestReceived(codec: Codec, events: seq<Event>)
    ensures IsHighest(Run(codec, events).st.highest, Received(events))
  {
    if events != [] {
      var before, event := Run(codec, events[..|events| - 1]).st, events[|events| - 1];
      HighestIsLargestReceived(codec, events[..|events| - 1]);
      RunKeysSeen(codec, events[..|events| - 1]);
      IngestHighest(before, event.batch, Received(events[..|events| - 1]));
      StepWindow(codec, event.order, before, event.batch);
    }
  }

  // ----- which slots have an entry -----

  ghost function SlotsOf(shreds: set<Shred>): set<nat> {
    set shred | shred in shreds :: shred.slot
  }

  /** Every slot that a shred names gets an entry, even when the shred is dropped as too old. */
  lemma {:induction false} IngestKeys(st: State, batch: seq<Packet>)
    ensures Ingest(st, batch).st.slots.Keys == st.slots.Keys + SlotsOf(ShredsOf(batch))
  {
    if batch == [] {
      assert SlotsOf(ShredsOf(batch)) == {};
    } else {
      var rest, packet := batch[..|batch| - 1], batch[|batch| - 1];
      IngestKeys(st, rest);
      ShredsOfStep(batch);
      if packet.Parsed? {
        assert SlotsOf(ShredsOf(batch)) == SlotsOf(ShredsOf(rest)) + {packet.shred.slot};
      }
    }
  }

  lemma EmissionKeys(codec: Codec, order: Order, st: State, batch: seq<Packet>)
    requires KeysSeen(st)
    ensures AfterEmission(codec, order, st, batch).st.slots.Keys == st.slots.Keys + SlotsOf(ShredsOf(batch))
  {
    IngestKeys(st, batch);
    IngestWindow(st, batch);
    WorkHasEntries(st, batch);
    SortDedupKeeps(Ingest(st, batch).work);
    RecoverAllWindow(codec, order, Ingest(st, batch).st, Work(st, batch));
    EmitAllWindow(codec, AfterRecovery(codec, order, st, batch).st, Work(st, batch));
  }

  /**
   Which slots a call leaves in the map, in every reachable state: all that were there or arrived,
   as long as they are no more than 150, and otherwise those within 50 of the highest slot.
   */
  lemma SlotsAfterCall(codec: Codec, events: seq<Event>, order: Order, batch: seq<Packet>, number: nat)
    ensures var st := Run(codec, events).st;
            var all, after := st.slots.Keys + SlotsOf(ShredsOf(batch)), Step(codec, order, st, batch).st;
            number in after.slots <==> number in all && (|all| <= 150 || number + 50 >= after.highest)
  {
    var st := Run(codec, events).st;
    RunKeysSeen(codec, events);
    EmissionKeys(codec, order, st, batch);
    var e := AfterEmission(codec, order, st, batch).st;
    assert |e.slots| == |e.slots.Keys|;
  }

  // ----- held shreds against stored shreds -----

  /** All shreds belong to the slot and FEC set of the first one. */
  ghost predicate OneSet(shreds: seq<Shred>) {
    shreds != [] && forall shred :: shred in shreds ==>
      shred.slot == shreds[0].slot && shred.fecSet == shreds[0].fecSet
  }

  /** Recovery only returns shreds of the FEC set it was given. */
  ghost predicate LocalRecovery(codec: Codec) {
    forall input: seq<Shred> :: OneSet(input) && codec.recover(input).Some? ==>
      forall offer :: offer in codec.recover(input).value && offer.Some? ==>
        offer.value.slot == input[0].slot && offer.value.fecSet == input[0].fecSet
  }

  /** Shreds are held under their own FEC set. */
  ghost predicate HeldInPlace(number: nat, slot: SlotState) {
    forall fecSet: Index :: forall shred :: shred in HeldOf(slot, fecSet) ==>
      shred.fecSet == fecSet && shred.slot == number
  }

  /** For a FEC set that is not finished, the held data shreds are exactly the stored ones. */
  ghost predicate HeldIsStored(slot: SlotState) {
    forall shred: Shred :: shred.Data? && !slot.tracker.recovered[shred.fecSet] ==>
      (shred in HeldOf(slot, shred.fecSet) <==> slot.tracker.shreds[shred.index] == Some(shred))
  }

  ghost predicate HeldAgrees(number: nat, slot: SlotState) {
    HeldInPlace(number, slot) && HeldIsStored(slot)
  }

  lemma AcceptHeld(number: nat, slot: SlotState, shred: Shred)
    requires SlotOk(slot) && HeldAgrees(number, slot)
    requires shred.slot == number && Accept(slot, shred).Some?
    ensures HeldAgrees(number, Accept(slot, shred).value)
  {
    var after := Accept(slot, shred).value;
    assert HeldInPlace(number, after) by {
      assert forall f: Index :: HeldOf(after, f) <= HeldOf(slot, f) + if f == shred.fecSet then {shred} else {};
    }
    forall other: Shred | other.Data? && !after.tracker.recovered[other.fecSet]
      ensures other in HeldOf(after, other.fecSet) <==> after.tracker.shreds[other.index] == Some(other)
    {
      assert other in HeldOf(slot, other.fecSet) <==> slot.tracker.shreds[other.index] == Some(other);
    }
  }

  ghost predicate OffersOnly(offered: seq<Option<Shred>>, fecSet: Index) {
    forall offer :: offer in offered && offer.Some? ==> offer.value.fecSet == fecSet
  }

  /** Offering shreds of one FEC set only fills unknown positions with shreds of that set. */
  lemma {:induction false} AbsorbLocal(t: Tracker, offered: seq<Option<Shred>>, fecSet: Index)
    requires OffersOnly(offered, fecSet)
    ensures var u := Absorb(t, offered).tracker;
            && u.recovered == t.recovered
            && forall i: Index :: u.shreds[i] == t.shreds[i]
                 || (t.shreds[i] == None && u.shreds[i].Some? && u.shreds[i].value.fecSet == fecSet)
  {
    if offered != [] {
      var rest, offer := offered[..|offered| - 1], offered[|offered| - 1];
      assert offer in offered;
      assert forall o :: o in rest ==> o in offered;
      AbsorbLocal(t, rest, fecSet);
    }
  }

  lemma {:induction false} AbsorbNothing(t: Tracker, offered: seq<Option<Shred>>)
    requires Absorb(t, offered).count == 0
    ensures Absorb(t, offered).tracker == t && Absorb(t, offered).code == 0
  {
    if offered != [] {
      AbsorbNothing(t, offered[..|offered| - 1]);
    }
  }

  /** The shreds handed to recovery are those of one FEC set, so what it offers is of that set. */
  lemma RecoveryOffersOnly(codec: Codec, iteration: seq<Shred>, number: nat, slot: SlotState, fecSet: Index)
    requires LocalRecovery(codec) && HeldAgrees(number, slot)
    requires Enumerates(iteration, HeldOf(slot, fecSet)) && iteration != []
    ensures var recovered := codec.recover(SortForRecovery(iteration));
            recovered.Some? ==> OffersOnly(recovered.value, fecSet)
  {
    var input := SortForRecovery(iteration);
    SortForRecoveryKeeps(iteration);
    EnumeratesFacts(input, HeldOf(slot, fecSet));
    EnumeratesFacts(iteration, HeldOf(slot, fecSet));
    assert |input| > 0;
    assert input[0] in input;
    assert OneSet(input);
  }

  lemma RecoverSetHeld(codec: Codec, iteration: seq<Shred>, number: nat, slot: SlotState, fecSet: Index)
    requires HeldAgrees(number, slot)
    requires var recovered := codec.recover(SortForRecovery(iteration));
             WorthRecovering(HeldOf(slot, fecSet), InfoOf(iteration)) && recovered.Some? ==>
               OffersOnly(recovered.value, fecSet)
    ensures HeldAgrees(number, RecoverSet(codec, iteration, slot, fecSet).slot)
  {
    var held := HeldOf(slot, fecSet);
    var entered := SlotState(slot.held[fecSet := held], slot.tracker);
    assert forall f: Index :: HeldOf(entered, f) == HeldOf(slot, f);
    var recovered := codec.recover(SortForRecovery(iteration));
    if WorthRecovering(held, InfoOf(iteration)) && recovered.Some? {
      AbsorbLocal(slot.tracker, recovered.value, fecSet);
      var absorbed := Absorb(slot.tracker, recovered.value);
      if absorbed.count == 0 {
        AbsorbNothing(slot.tracker, recovered.value);
      } else {
        var after := RecoverSet(codec, iteration, slot, fecSet).slot;
        assert forall f: Index :: HeldOf(after, f) == if f == fecSet then {} else HeldOf(slot, f);
        forall shred: Shred | shred.Data? && !after.tracker.recovered[shred.fecSet]
          ensures shred in HeldOf(after, shred.fecSet) <==> after.tracker.shreds[shred.index] == Some(shred)
        {
          assert shred.fecSet != fecSet;
        }
      }
    }
  }

  lemma MarkHeld(number: nat, slot: SlotState, start: int, end: int)
    requires HeldAgrees(number, slot)
    ensures HeldAgrees(number, slot.(tracker := Mark(slot.tracker, start, end)))
  {
    var after := slot.(tracker := Mark(slot.tracker, start, end));
    assert forall f: Index :: HeldOf(after, f) == HeldOf(slot, f);
    assert forall f: Index :: slot.tracker.recovered[f] ==> after.tracker.recovered[f];
  }

  ghost predicate StateHeld(st: State) {
    forall number :: number in st.slots ==> HeldAgrees(number, st.slots[number])
  }

  lemma SlotAtHeld(st: State, number: nat)
    requires StateHeld(st)
    ensures HeldAgrees(number, SlotAt(st, number))
  {
  }

  lemma {:induction false} IngestHeld(st: State, batch: seq<Packet>)
    requires StateOk(st) && StateHeld(st)
    ensures StateHeld(Ingest(st, batch).st)
  {
    if batch != [] {
      var g, packet := Ingest(st, batch[..|batch| - 1]), batch[|batch| - 1];
      IngestHeld(st, batch[..|batch| - 1]);
      IngestOk(st, batch[..|batch| - 1]);
      if packet.Parsed? {
        SlotAtHeld(g.st, packet.shred.slot);
        SlotAtOk(g.st, packet.shred.slot);
        if AcceptAt(g.st, packet.shred).Some? {
          AcceptHeld(packet.shred.slot, SlotAt(g.st, packet.shred.slot), packet.shred);
        }
      }
    }
  }

  lemma {:induction false} RecoverAllHeld(codec: Codec, order: Order, st: State, work: seq<WorkItem>)
    requires LocalRecovery(codec) && EnumeratesSets(order) && StateHeld(st)
    ensures StateHeld(RecoverAll(codec, order, st, work).st)
  {
    if work != [] {
      var r, item := RecoverAll(codec, order, st, work[..|work| - 1]), work[|work| - 1];
      RecoverAllHeld(codec, order, st, work[..|work| - 1]);
      var slot := SlotAt(r.st, item.slot);
      SlotAtHeld(r.st, item.slot);
      var iteration := order(item.slot, item.fecSet, HeldOf(slot, item.fecSet));
      EnumeratesFacts(iteration, HeldOf(slot, item.fecSet));
      if iteration != [] {
        RecoveryOffersOnly(codec, iteration, item.slot, slot, item.fecSet);
      }
      RecoverSetHeld(codec, iteration, item.slot, slot, item.fecSet);
    }
  }

  lemma {:induction false} EmitAllHeld(codec: Codec, st: State, work: seq<WorkItem>)
    requires StateHeld(st)
    ensures StateHeld(EmitAll(codec, st, work).st)
  {
    if work != [] {
      var e, item := EmitAll(codec, st, work[..|work| - 1]), work[|work| - 1];
      EmitAllHeld(codec, st, work[..|work| - 1]);
      var slot := SlotAt(e.st, item.slot);
      SlotAtHeld(e.st, item.slot);
      var emission := Emittable(codec, item.slot, slot.tracker, item.fecSet);
      if emission.Some? {
        MarkHeld(item.slot, slot, emission.value.start, emission.value.end);
      }
    }
  }

  ghost predicate OrdersEnumerate(events: seq<Event>) {
    forall i :: 0 <= i < |events| ==> EnumeratesSets(events[i].order)
  }

  /** In every reachable state the redundant structures of every slot agree. */
  lemma {:induction false} RepresentationAgrees(codec: Codec, events: seq<Event>)
    requires LocalRecovery(codec) && OrdersEnumerate(events)
    ensures StateOk(Run(codec, events).st) && StateHeld(Run(codec, events).st)
  {
    RunOk(codec, events);
    if events != [] {
      var rest, event := events[..|events| - 1], events[|events| - 1];
      RepresentationAgrees(codec, rest);
      var st := Run(codec, rest).st;
      IngestHeld(st, event.batch);
      RecoverAllHeld(codec, event.order, Ingest(st, event.batch).st, Work(st, event.batch));
      EmitAllHeld(codec, AfterRecovery(codec, event.order, st, event.batch).st, Work(st, event.batch));
    }
  }
}
