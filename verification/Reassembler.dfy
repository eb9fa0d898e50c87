/**
 The reassembler as the program keeps it: a map from slot to held shreds and tracker,
 a work list, an output vector and the highest slot seen, all updated in place. Each
 method is proved against the value-level phase of the same name in Reassembly.
 */
module Reassembler {
  import opened Options
  import opened Shreds
  import opened Trackers
  import opened FecSets
  import opened Reassembly
  import opened Safety
  import opened StateTracker

  /** What is kept for one slot. */
  datatype SlotEntry = SlotEntry(held: map<Index, set<Shred>>, tracker: ShredsStateTracker)

  /** One decoded segment as it is handed to subscribers. */
  datatype Output = Output(slot: nat, entries: seq<Entry>, bytes: Bytes)

  function OutputOf(em: Emission): Output { Output(em.slot, em.content.entries, em.content.bytes) }

  function Outputs(out: seq<Emission>): seq<Output> {
    seq(|out|, i requires 0 <= i < |out| => OutputOf(out[i]))
  }

  /** The outputs carry slot, entries and bytes of the emissions, one for one and in order. */
  ghost predicate HandsOut(outputs: seq<Output>, out: seq<Emission>) {
    && |outputs| == |out|
    && forall i :: 0 <= i < |out| ==>
         outputs[i].slot == out[i].slot && outputs[i].entries == out[i].content.entries
         && outputs[i].bytes == out[i].content.bytes
  }

  lemma OutputsHandOut(out: seq<Emission>)
    ensures HandsOut(Outputs(out), out)
  {
  }

  /** The vectors of the tracker are recorded as belonging to the slot. */
  ghost predicate OwnedBy(tracker: ShredsStateTracker, owner: map<object, nat>, n: nat) {
    && tracker.dataStatus in owner && owner[tracker.dataStatus] == n
    && tracker.dataShreds in owner && owner[tracker.dataShreds] == n
    && tracker.alreadyRecoveredFecSets in owner && owner[tracker.alreadyRecoveredFecSets] == n
    && tracker.alreadyDeshredded in owner && owner[tracker.alreadyDeshredded] == n
  }

  /** Each vector belongs to one slot only, so that no two trackers share one. */
  ghost predicate Owned(entries: map<nat, SlotEntry>, owner: map<object, nat>) {
    forall n :: n in entries ==> entries[n].tracker.Valid() && OwnedBy(entries[n].tracker, owner, n)
  }

  ghost function EntryView(entry: SlotEntry): SlotState
    requires entry.tracker.Valid()
    reads entry.tracker.dataStatus, entry.tracker.dataShreds
    reads entry.tracker.alreadyRecoveredFecSets, entry.tracker.alreadyDeshredded
  {
    SlotState(entry.held, entry.tracker.View())
  }

  /** The entries hold exactly the given slot states. */
  ghost predicate Mirrors(entries: map<nat, SlotEntry>, owner: map<object, nat>, slots: map<nat, SlotState>)
    requires Owned(entries, owner)
    reads owner.Keys
  {
    && entries.Keys == slots.Keys
    && forall n :: n in entries ==> EntryView(entries[n]) == slots[n]
  }

  ghost function WithTracker(owner: map<object, nat>, tracker: ShredsStateTracker, n: nat): map<object, nat> {
    owner[tracker.dataStatus as object := n][tracker.dataShreds as object := n]
         [tracker.alreadyRecoveredFecSets as object := n][tracker.alreadyDeshredded as object := n]
  }

  lemma MirrorsAdd(entries: map<nat, SlotEntry>, owner: map<object, nat>, slots: map<nat, SlotState>, n: nat,
      tracker: ShredsStateTracker)
    requires Owned(entries, owner) && Mirrors(entries, owner, slots) && n !in entries && tracker.Valid()
    requires tracker.dataStatus !in owner && tracker.dataShreds !in owner
    requires tracker.alreadyRecoveredFecSets !in owner && tracker.alreadyDeshredded !in owner
    ensures var entry, more := SlotEntry(map[], tracker), WithTracker(owner, tracker, n);
            && Owned(entries[n := entry], more)
            && Mirrors(entries[n := entry], more, slots[n := EntryView(entry)])
  {
  }

  /** All entries but one hold the given slot states. */
  ghost predicate OthersMirror(entries: map<nat, SlotEntry>, owner: map<object, nat>, slots: map<nat, SlotState>,
      n: nat)
    requires Owned(entries, owner)
    reads owner.Keys
  {
    && entries.Keys == slots.Keys
    && forall m :: m in entries && m != n ==> EntryView(entries[m]) == slots[m]
  }

  /** Replacing what one entry holds leaves every other entry as it was. */
  lemma MirrorsChange(entries: map<nat, SlotEntry>, owner: map<object, nat>, slots: map<nat, SlotState>, n: nat,
      held: map<Index, set<Shred>>)
    requires Owned(entries, owner) && n in entries && OthersMirror(entries, owner, slots, n)
    ensures var entry := SlotEntry(held, entries[n].tracker);
            && Owned(entries[n := entry], owner)
            && Mirrors(entries[n := entry], owner, slots[n := EntryView(entry)])
  {
  }

  /** The slot after a shred was offered to it. */
  function Offered(slot: SlotState, shred: Shred): SlotState {
    var accepted := Accept(slot, shred);
    if accepted.Some? then accepted.value else slot
  }

  /** Offers a received shred to a slot's entry. */
  method OfferTo(entry: SlotEntry, shred: Shred) returns (held: map<Index, set<Shred>>, accepted: bool)
    requires entry.tracker.Valid()
    modifies entry.tracker.dataStatus, entry.tracker.dataShreds
    ensures accepted == Accept(old(EntryView(entry)), shred).Some?
    ensures EntryView(SlotEntry(held, entry.tracker)) == Offered(old(EntryView(entry)), shred)
  {
    held := entry.held;
    if entry.tracker.alreadyRecoveredFecSets[shred.fecSet] || entry.tracker.alreadyDeshredded[shred.index] {
      return held, false;
    }
    var index := entry.tracker.UpdateStateTracker(shred);
    if index.None? {
      return held, false;
    }
    var already := if shred.fecSet in held then held[shred.fecSet] else {};
    held := held[shred.fecSet := already + {shred}];
    accepted := true;
  }

  /** The recovery attempt that a work item stands for. */
  function Attempted(codec: Codec, order: Order, slot: SlotState, item: WorkItem): RecoveredSlot {
    RecoverSet(codec, order(item.slot, item.fecSet, HeldOf(slot, item.fecSet)), slot, item.fecSet)
  }

  /** Tries to recover a FEC set from what a slot's entry holds for it. */
  method RecoverIn(codec: Codec, order: Order, entry: SlotEntry, item: WorkItem)
    returns (held: map<Index, set<Shred>>, count: nat)
    requires entry.tracker.Valid()
    modifies entry.tracker.dataStatus, entry.tracker.dataShreds, entry.tracker.alreadyRecoveredFecSets
    ensures var r := Attempted(codec, order, old(EntryView(entry)), item);
            EntryView(SlotEntry(held, entry.tracker)) == r.slot && count == r.count
  {
    count := 0;
    var fecSet := item.fecSet;
    var shreds := if fecSet in entry.held then entry.held[fecSet] else {};
    held := entry.held[fecSet := shreds];
    var iteration := order(item.slot, fecSet, shreds);
    var expectedData, _, numData, _ := GetDataShredInfo(iteration);
    if expectedData == 0 || |shreds| < expectedData || numData == expectedData {
      return;
    }
    var recovered := codec.recover(SortForRecovery(iteration));
    if recovered.None? {
      return;
    }
    count := entry.tracker.AbsorbRecovered(recovered.value);
    if count > 0 {
      entry.tracker.alreadyRecoveredFecSets[fecSet] := true;
      held := entry.held[fecSet := {}];
    }
  }

  function Unwrapped(shreds: seq<Option<Shred>>): seq<Bytes>
    requires forall i :: 0 <= i < |shreds| ==> shreds[i].Some?
  {
    seq(|shreds|, i requires 0 <= i < |shreds| => shreds[i].value.payload)
  }

  lemma RangeFilled(t: Tracker, r: Range, index: int)
    requires Agree(t) && IsRange(t, index, r)
    ensures var slice := t.shreds[r.start..r.end + 1];
            (forall i :: 0 <= i < |slice| ==> slice[i].Some?) && Unwrapped(slice) == Payloads(slice)
  {
    var slice := t.shreds[r.start..r.end + 1];
    forall i | 0 <= i < |slice|
      ensures slice[i].Some?
    {
      var at: Index := r.start + i;
      assert t.status[at] != Unknown && slice[i] == t.shreds[at];
    }
    assert Unwrapped(slice) == Payloads(slice);
  }

  /** A slot and its output once the segment around an index has been emitted, if one can be. */
  ghost function Emitted(codec: Codec, number: nat, slot: SlotState, index: Index): (r: (SlotState, seq<Output>)) {
    var em := Emittable(codec, number, slot.tracker, index);
    if em.None? then (slot, [])
    else (slot.(tracker := Mark(slot.tracker, em.value.start, em.value.end)), [OutputOf(em.value)])
  }

  /** Emits the segment around a FEC set's first index, if there is one that decodes. */
  method EmitFrom(codec: Codec, number: nat, entry: SlotEntry, fecSet: Index) returns (out: seq<Output>)
    requires entry.tracker.Valid() && Agree(entry.tracker.View())
    modifies entry.tracker.alreadyRecoveredFecSets, entry.tracker.alreadyDeshredded
    ensures (EntryView(entry), out) == Emitted(codec, number, old(EntryView(entry)), fecSet)
    ensures forall o :: o in out ==> o.slot == number && codec.deserialize(o.bytes) == Some(o.entries)
  {
    out := [];
    var tracker := entry.tracker;
    var range := tracker.GetIndexes(fecSet);
    if range.None? {
      return;
    }
    var start, end := range.value.start, range.value.end;
    var toDeshred := tracker.dataShreds[start..end + 1];
    RangeFilled(tracker.View(), range.value, fecSet);
    var payload := codec.deshred(Unwrapped(toDeshred));
    if payload.None? {
      return;
    }
    var entries := codec.deserialize(payload.value);
    if entries.None? {
      return;
    }
    out := [Output(number, entries.value, payload.value)];
    tracker.MarkDeshredded(start, end);
  }

  // ----- the value of each step, from the values of its parts -----

  lemma IngestStale(st: State, work: seq<WorkItem>, shred: Shred)
    requires Stale(st.highest, shred.slot)
    ensures var g := IngestOne(Ingested(st, work, 0), Parsed(shred));
            g.st == State(st.slots[shred.slot := SlotAt(st, shred.slot)], st.highest) && g.work == work
  {
  }

  lemma IngestLive(st: State, work: seq<WorkItem>, shred: Shred, mid: map<nat, SlotState>, accepted: bool,
      after: map<nat, SlotState>)
    requires !Stale(st.highest, shred.slot)
    requires mid == st.slots[shred.slot := SlotAt(st, shred.slot)]
    requires accepted == Accept(mid[shred.slot], shred).Some?
    requires after == mid[shred.slot := Offered(mid[shred.slot], shred)]
    ensures var g := IngestOne(Ingested(st, work, 0), Parsed(shred));
            && g.st == State(after, if accepted then Max(st.highest, shred.slot) else st.highest)
            && g.work == if accepted then work + [WorkItem(shred.slot, shred.fecSet)] else work
  {
    assert mid[shred.slot] == SlotAt(st, shred.slot);
    assert after == st.slots[shred.slot := after[shred.slot]];
  }

  /** One more work item, from the value of the phase so far. */
  lemma EmitPhaseStep(codec: Codec, st: State, work: seq<WorkItem>, i: nat, base: seq<Output>)
    requires StateOk(st) && i < |work|
    ensures var before, after := EmitAll(codec, st, work[..i]), EmitAll(codec, st, work[..i + 1]);
            var alone := EmitOne(codec, Emitting(before.st, []), work[i]);
            && StateOk(before.st) && after.st == alone.st
            && base + Outputs(after.out) == base + Outputs(before.out) + Outputs(alone.out)
  {
    EmitAllOk(codec, st, work[..i]);
    EmitAllStep(codec, st, work, i);
    EmitAppends(codec, EmitAll(codec, st, work[..i]), work[i]);
  }

  /** Emitting after earlier emissions appends to their output. */
  lemma EmitAppends(codec: Codec, e: Emitting, item: WorkItem)
    ensures var alone := EmitOne(codec, Emitting(e.st, []), item);
            && EmitOne(codec, e, item).st == alone.st
            && Outputs(EmitOne(codec, e, item).out) == Outputs(e.out) + Outputs(alone.out)
  {
  }

  lemma EntryAgrees(st: State, number: nat, mid: map<nat, SlotState>)
    requires StateOk(st) && mid == st.slots[number := SlotAt(st, number)]
    ensures number in mid && Agree(mid[number].tracker)
  {
    SlotAtOk(st, number);
  }

  lemma EmitByParts(codec: Codec, st: State, item: WorkItem, mid: map<nat, SlotState>)
    requires mid == st.slots[item.slot := SlotAt(st, item.slot)]
    ensures var e := EmitOne(codec, Emitting(st, []), item);
            var done := Emitted(codec, item.slot, mid[item.slot], item.fecSet);
            e.st == State(mid[item.slot := done.0], st.highest) && Outputs(e.out) == done.1
  {
    var done := Emitted(codec, item.slot, mid[item.slot], item.fecSet);
    PutTwice(st, item.slot, mid, done.0);
  }

  lemma RecoverByParts(codec: Codec, order: Order, st: State, item: WorkItem, mid: map<nat, SlotState>)
    requires mid == st.slots[item.slot := SlotAt(st, item.slot)]
    ensures var r := RecoverOne(codec, order, Recovering(st, 0, 0), item);
            var done := Attempted(codec, order, mid[item.slot], item);
            r.st == State(mid[item.slot := done.slot], st.highest) && r.count == done.count
  {
    PutTwice(st, item.slot, mid, Attempted(codec, order, mid[item.slot], item).slot);
  }

  lemma PutTwice(st: State, number: nat, mid: map<nat, SlotState>, slot: SlotState)
    requires mid == st.slots[number := SlotAt(st, number)]
    ensures State(mid[number := slot], st.highest) == Put(st, number, slot)
  {
    assert mid[number := slot] == st.slots[number := slot];
  }

  lemma MirrorsPrune(entries: map<nat, SlotEntry>, owner: map<object, nat>, st: State)
    requires Owned(entries, owner) && Mirrors(entries, owner, st.slots)
    ensures |entries| == |st.slots|
    ensures var kept := map n | n in entries && n >= Threshold(st.highest) :: entries[n];
            && Owned(kept, owner)
            && (|entries| > MAX_PROCESSING_AGE ==> Mirrors(kept, owner, Prune(st).slots))
  {
    assert |entries.Keys| == |entries| && |st.slots.Keys| == |st.slots|;
  }

  class ShredReassembler {
    var allShreds: map<nat, SlotEntry>
    var slotFecIndexesToIterate: seq<WorkItem>
    var deshreddedEntries: seq<Output>
    var highestSlotSeen: nat
    var recoveredCount: nat
    /** The slot states that the entries hold, as values, and which slot each vector belongs to. */
    ghost var slots: map<nat, SlotState>
    ghost var owner: map<object, nat>

    ghost predicate Valid()
      reads this, owner.Keys
    {
      this !in owner && Owned(allShreds, owner) && Mirrors(allShreds, owner, slots)
    }

    ghost function View(): State
      reads this
    {
      State(slots, highestSlotSeen)
    }

    constructor ()
      ensures Valid() && owner == map[]
      ensures View() == InitialState() && recoveredCount == 0 && deshreddedEntries == []
    {
      allShreds := map[];
      slotFecIndexesToIterate := [];
      deshreddedEntries := [];
      highestSlotSeen := 0;
      recoveredCount := 0;
      slots := map[];
      owner := map[];
    }

    /** Replaces the entries. */
    method Store(entries: map<nat, SlotEntry>, ghost values: map<nat, SlotState>)
      requires this !in owner && Owned(entries, owner) && Mirrors(entries, owner, values)
      modifies this`allShreds, this`slots
      ensures Valid() && allShreds == entries && slots == values
      ensures highestSlotSeen == old(highestSlotSeen) && slotFecIndexesToIterate == old(slotFecIndexesToIterate)
      ensures owner == old(owner) && deshreddedEntries == old(deshreddedEntries)
    {
      allShreds, slots := entries, values;
    }

    /** Gives a slot without an entry an empty one, with a new tracker. */
    method AddEntry(slot: nat, tracker: ShredsStateTracker)
      requires Valid() && slot !in allShreds && tracker.Valid() && tracker.View() == Empty()
      requires tracker.dataStatus !in owner && tracker.dataShreds !in owner
      requires tracker.alreadyRecoveredFecSets !in owner && tracker.alreadyDeshredded !in owner
      modifies this`allShreds, this`slots, this`owner
      ensures Valid() && slot in allShreds && owner == WithTracker(old(owner), tracker, slot)
      ensures deshreddedEntries == old(deshreddedEntries)
      ensures slots == old(slots)[slot := FreshSlot()]
      ensures highestSlotSeen == old(highestSlotSeen) && slotFecIndexesToIterate == old(slotFecIndexesToIterate)
    {
      MirrorsAdd(allShreds, owner, slots, slot, tracker);
      owner := WithTracker(owner, tracker, slot);
      Store(allShreds[slot := SlotEntry(map[], tracker)], slots[slot := FreshSlot()]);
    }

    /** Looks up a slot, creating an empty entry when it has none. */
    method EnsureEntry(slot: nat)
      requires Valid()
      modifies this`allShreds, this`slots, this`owner
      ensures Valid() && slot in allShreds && forall o :: o in owner && o !in old(owner) ==> fresh(o)
      ensures deshreddedEntries == old(deshreddedEntries)
      ensures slots == old(slots)[slot := SlotAt(old(View()), slot)]
      ensures highestSlotSeen == old(highestSlotSeen) && slotFecIndexesToIterate == old(slotFecIndexesToIterate)
    {
      if slot !in allShreds {
        var tracker := new ShredsStateTracker();
        AddEntry(slot, tracker);
      }
    }

    /** Offers a received shred within the tracker of its slot. */
    method OfferHere(shred: Shred) returns (held: map<Index, set<Shred>>, accepted: bool)
      requires Valid() && shred.slot in allShreds && shred.slot in slots
      modifies owner.Keys
      ensures OthersMirror(allShreds, owner, slots, shred.slot)
      ensures accepted == Accept(slots[shred.slot], shred).Some?
      ensures EntryView(SlotEntry(held, allShreds[shred.slot].tracker)) == Offered(slots[shred.slot], shred)
    {
      held, accepted := OfferTo(allShreds[shred.slot], shred);
    }

    /** Offers a received shred to its slot. */
    method OfferShred(shred: Shred) returns (accepted: bool)
      requires Valid() && shred.slot in allShreds
      modifies this`allShreds, this`slots, owner.Keys
      ensures Valid() && shred.slot in slots
      ensures highestSlotSeen == old(highestSlotSeen) && slotFecIndexesToIterate == old(slotFecIndexesToIterate)
      ensures owner == old(owner)
      ensures accepted == Accept(old(slots)[shred.slot], shred).Some?
      ensures slots == old(slots)[shred.slot := Offered(old(slots)[shred.slot], shred)]
    {
      var held;
      held, accepted := OfferHere(shred);
      MirrorsChange(allShreds, owner, slots, shred.slot, held);
      var updated := SlotEntry(held, allShreds[shred.slot].tracker);
      Store(allShreds[shred.slot := updated], slots[shred.slot := EntryView(updated)]);
    }

    /** Puts an accepted shred's FEC set on the work list. */
    method Schedule(shred: Shred)
      requires Valid()
      modifies this`slotFecIndexesToIterate, this`highestSlotSeen
      ensures Valid() && highestSlotSeen == Max(old(highestSlotSeen), shred.slot)
      ensures slots == old(slots) && owner == old(owner)
      ensures slotFecIndexesToIterate == old(slotFecIndexesToIterate) + [WorkItem(shred.slot, shred.fecSet)]
    {
      slotFecIndexesToIterate := slotFecIndexesToIterate + [WorkItem(shred.slot, shred.fecSet)];
      highestSlotSeen := Max(highestSlotSeen, shred.slot);
    }

    /** Takes one shred of a batch whose slot has an entry. */
    method IngestKnown(shred: Shred, ghost st: State)
      requires Valid() && shred.slot in allShreds
      requires highestSlotSeen == st.highest && slots == st.slots[shred.slot := SlotAt(st, shred.slot)]
      modifies this`allShreds, this`slots, this`slotFecIndexesToIterate, this`highestSlotSeen, owner.Keys
      ensures Valid() && owner == old(owner)
      ensures var g := IngestOne(Ingested(st, old(slotFecIndexesToIterate), 0), Parsed(shred));
              View() == g.st && slotFecIndexesToIterate == g.work
    {
      ghost var mid, work := slots, slotFecIndexesToIterate;
      if Threshold(highestSlotSeen) > shred.slot {
        IngestStale(st, work, shred);
        return;
      }
      var accepted := OfferShred(shred);
      IngestLive(st, work, shred, mid, accepted, slots);
      if accepted {
        Schedule(shred);
      }
    }

    /** Takes one shred of a batch. */
    method IngestShred(shred: Shred)
      requires Valid()
      modifies this`allShreds, this`slots, this`slotFecIndexesToIterate, this`highestSlotSeen, this`owner, owner.Keys
      ensures Valid() && forall o :: o in owner && o !in old(owner) ==> fresh(o)
      ensures var g := IngestOne(Ingested(old(View()), old(slotFecIndexesToIterate), 0), Parsed(shred));
              View() == g.st && slotFecIndexesToIterate == g.work
    {
      ghost var st := View();
      EnsureEntry(shred.slot);
      IngestKnown(shred, st);
    }

    /** Takes one packet of a batch; packets that hold no shred are passed over. */
    method IngestPacket(packet: Packet)
      requires Valid()
      modifies this`allShreds, this`slots, this`slotFecIndexesToIterate, this`highestSlotSeen, this`owner, owner.Keys
      ensures Valid() && forall o :: o in owner && o !in old(owner) ==> fresh(o)
      ensures var g := IngestOne(Ingested(old(View()), old(slotFecIndexesToIterate), 0), packet);
              View() == g.st && slotFecIndexesToIterate == g.work
    {
      if packet.Parsed? {
        IngestShred(packet.shred);
      }
    }

    /** The first phase of a call: all packets of the batch, then the work list sorted without repeats. */
    method IngestBatch(batch: seq<Packet>)
      requires Valid()
      modifies this`allShreds, this`slots, this`slotFecIndexesToIterate, this`highestSlotSeen, this`owner, owner.Keys
      ensures Valid() && forall o :: o in owner && o !in old(owner) ==> fresh(o)
      ensures View() == Ingest(old(View()), batch).st
      ensures slotFecIndexesToIterate == Work(old(View()), batch)
      ensures deshreddedEntries == old(deshreddedEntries)
    {
      slotFecIndexesToIterate := [];
      for i := 0 to |batch|
        invariant Valid() && forall o :: o in owner && o !in old(owner) ==> fresh(o)
        invariant View() == Ingest(old(View()), batch[..i]).st
        invariant slotFecIndexesToIterate == Ingest(old(View()), batch[..i]).work
      {
        assert batch[..i + 1][..i] == batch[..i];
        IngestPacket(batch[i]);
      }
      assert batch[..|batch|] == batch;
      slotFecIndexesToIterate := SortDedup(slotFecIndexesToIterate);
    }

    /** Tries to recover a FEC set within the tracker of its slot. */
    method RecoverHere(codec: Codec, order: Order, item: WorkItem) returns (held: map<Index, set<Shred>>, count: nat)
      requires Valid() && item.slot in allShreds && item.slot in slots
      modifies owner.Keys
      ensures OthersMirror(allShreds, owner, slots, item.slot)
      ensures var r := Attempted(codec, order, slots[item.slot], item);
              EntryView(SlotEntry(held, allShreds[item.slot].tracker)) == r.slot && count == r.count
    {
      held, count := RecoverIn(codec, order, allShreds[item.slot], item);
    }

    /** Tries to recover the FEC set of one work item whose slot has an entry. */
    method RecoverKnown(codec: Codec, order: Order, item: WorkItem) returns (count: nat)
      requires Valid() && item.slot in allShreds && item.slot in slots
      modifies this`allShreds, this`slots, owner.Keys
      ensures Valid() && owner == old(owner) && deshreddedEntries == old(deshreddedEntries)
      ensures highestSlotSeen == old(highestSlotSeen) && slotFecIndexesToIterate == old(slotFecIndexesToIterate)
      ensures var r := Attempted(codec, order, old(slots)[item.slot], item);
              slots == old(slots)[item.slot := r.slot] && count == r.count
    {
      var held;
      held, count := RecoverHere(codec, order, item);
      MirrorsChange(allShreds, owner, slots, item.slot, held);
      var updated := SlotEntry(held, allShreds[item.slot].tracker);
      Store(allShreds[item.slot := updated], slots[item.slot := EntryView(updated)]);
    }

    /** Tries to recover the FEC set of one work item. */
    method RecoverItem(codec: Codec, order: Order, item: WorkItem) returns (count: nat)
      requires Valid()
      modifies this`allShreds, this`slots, this`owner, owner.Keys
      ensures Valid() && forall o :: o in owner && o !in old(owner) ==> fresh(o)
      ensures highestSlotSeen == old(highestSlotSeen) && slotFecIndexesToIterate == old(slotFecIndexesToIterate)
      ensures var r := RecoverOne(codec, order, Recovering(old(View()), 0, 0), item);
              View() == r.st && count == r.count
    {
      ghost var st := View();
      EnsureEntry(item.slot);
      RecoverByParts(codec, order, st, item, slots);
      count := RecoverKnown(codec, order, item);
    }

    /** Tries to recover one work item after those before it. */
    method RecoverNext(codec: Codec, order: Order, i: nat, total: nat, ghost st: State) returns (more: nat)
      requires Valid() && i < |slotFecIndexesToIterate|
      requires var r := RecoverAll(codec, order, st, slotFecIndexesToIterate[..i]);
               View() == r.st && total == r.count
      modifies this`allShreds, this`slots, this`owner, owner.Keys
      ensures Valid() && forall o :: o in owner && o !in old(owner) ==> fresh(o)
      ensures slotFecIndexesToIterate == old(slotFecIndexesToIterate) && deshreddedEntries == old(deshreddedEntries)
      ensures var r := RecoverAll(codec, order, st, slotFecIndexesToIterate[..i + 1]);
              View() == r.st && more == r.count
    {
      RecoverAllStep(codec, order, st, slotFecIndexesToIterate, i);
      var count := RecoverItem(codec, order, slotFecIndexesToIterate[i]);
      more := total + count;
    }

    /** The second phase of a call: one recovery attempt for each work item. */
    method RecoverPhase(codec: Codec, order: Order) returns (total: nat)
      requires Valid()
      modifies this`allShreds, this`slots, this`owner, owner.Keys
      ensures Valid() && forall o :: o in owner && o !in old(owner) ==> fresh(o)
      ensures slotFecIndexesToIterate == old(slotFecIndexesToIterate) && deshreddedEntries == old(deshreddedEntries)
      ensures var r := RecoverAll(codec, order, old(View()), slotFecIndexesToIterate);
              View() == r.st && total == r.count
    {
      total := 0;
      ghost var st, work := View(), slotFecIndexesToIterate;
      for i := 0 to |slotFecIndexesToIterate|
        invariant Valid() && forall o :: o in owner && o !in old(owner) ==> fresh(o)
        invariant slotFecIndexesToIterate == work && deshreddedEntries == old(deshreddedEntries)
        invariant View() == RecoverAll(codec, order, st, work[..i]).st
        invariant total == RecoverAll(codec, order, st, work[..i]).count
      {
        total := RecoverNext(codec, order, i, total, st);
      }
      assert work[..|work|] == work;
    }

    /** Emits within the tracker of a slot. */
    method EmitHere(codec: Codec, item: WorkItem) returns (out: seq<Output>)
      requires Valid() && item.slot in allShreds && item.slot in slots && Agree(slots[item.slot].tracker)
      modifies owner.Keys
      ensures OthersMirror(allShreds, owner, slots, item.slot)
      ensures (EntryView(allShreds[item.slot]), out) == Emitted(codec, item.slot, slots[item.slot], item.fecSet)
    {
      out := EmitFrom(codec, item.slot, allShreds[item.slot], item.fecSet);
    }

    /** Emits the segment around one work item whose slot has an entry. */
    method EmitKnown(codec: Codec, item: WorkItem)
      requires Valid() && item.slot in allShreds && item.slot in slots && Agree(slots[item.slot].tracker)
      modifies this`allShreds, this`slots, this`deshreddedEntries, owner.Keys
      ensures Valid() && owner == old(owner)
      ensures highestSlotSeen == old(highestSlotSeen) && slotFecIndexesToIterate == old(slotFecIndexesToIterate)
      ensures var done := Emitted(codec, item.slot, old(slots)[item.slot], item.fecSet);
              slots == old(slots)[item.slot := done.0] && deshreddedEntries == old(deshreddedEntries) + done.1
    {
      var entry := allShreds[item.slot];
      var out := EmitHere(codec, item);
      MirrorsChange(allShreds, owner, slots, item.slot, entry.held);
      Store(allShreds[item.slot := entry], slots[item.slot := EntryView(entry)]);
      Push(out);
    }

    /** Empties the output vector. */
    method ClearOutput()
      requires Valid()
      modifies this`deshreddedEntries
      ensures Valid() && deshreddedEntries == []
      ensures View() == old(View()) && owner == old(owner) && recoveredCount == old(recoveredCount)
    {
      deshreddedEntries := [];
    }

    /** Adds to the recovery metric. */
    method CountRecovered(count: nat)
      requires Valid()
      modifies this`recoveredCount
      ensures Valid() && recoveredCount == old(recoveredCount) + count
      ensures View() == old(View()) && owner == old(owner) && deshreddedEntries == old(deshreddedEntries)
    {
      recoveredCount := recoveredCount + count;
    }

    /** Appends to the output vector. */
    method Push(out: seq<Output>)
      requires Valid()
      modifies this`deshreddedEntries
      ensures Valid() && deshreddedEntries == old(deshreddedEntries) + out
      ensures slots == old(slots) && highestSlotSeen == old(highestSlotSeen)
      ensures owner == old(owner) && slotFecIndexesToIterate == old(slotFecIndexesToIterate)
    {
      deshreddedEntries := deshreddedEntries + out;
    }

    /** Emits the segment around one work item, if there is one that decodes. */
    method EmitItem(codec: Codec, item: WorkItem)
      requires Valid() && StateOk(View())
      modifies this`allShreds, this`slots, this`deshreddedEntries, this`owner, owner.Keys
      ensures Valid() && forall o :: o in owner && o !in old(owner) ==> fresh(o)
      ensures slotFecIndexesToIterate == old(slotFecIndexesToIterate)
      ensures var e := EmitOne(codec, Emitting(old(View()), []), item);
              View() == e.st && deshreddedEntries == old(deshreddedEntries) + Outputs(e.out)
    {
      ghost var st := View();
      EnsureEntry(item.slot);
      EntryAgrees(st, item.slot, slots);
      EmitByParts(codec, st, item, slots);
      EmitKnown(codec, item);
    }

    /** Emits one work item after those before it. */
    method EmitNext(codec: Codec, i: nat, ghost st: State, ghost base: seq<Output>)
      requires Valid() && StateOk(st) && i < |slotFecIndexesToIterate|
      requires var e := EmitAll(codec, st, slotFecIndexesToIterate[..i]);
               View() == e.st && deshreddedEntries == base + Outputs(e.out)
      modifies this`allShreds, this`slots, this`deshreddedEntries, this`owner, owner.Keys
      ensures Valid() && forall o :: o in owner && o !in old(owner) ==> fresh(o)
      ensures slotFecIndexesToIterate == old(slotFecIndexesToIterate)
      ensures var e := EmitAll(codec, st, slotFecIndexesToIterate[..i + 1]);
              View() == e.st && deshreddedEntries == base + Outputs(e.out)
    {
      EmitPhaseStep(codec, st, slotFecIndexesToIterate, i, base);
      EmitItem(codec, slotFecIndexesToIterate[i]);
    }

    /** The third phase of a call: one scan for each work item. */
    method EmitPhase(codec: Codec)
      requires Valid() && StateOk(View())
      modifies this`allShreds, this`slots, this`deshreddedEntries, this`owner, owner.Keys
      ensures Valid() && forall o :: o in owner && o !in old(owner) ==> fresh(o)
      ensures var e := EmitAll(codec, old(View()), old(slotFecIndexesToIterate));
              View() == e.st && deshreddedEntries == old(deshreddedEntries) + Outputs(e.out)
    {
      ghost var st, work, base := View(), slotFecIndexesToIterate, deshreddedEntries;
      for i := 0 to |slotFecIndexesToIterate|
        invariant Valid() && forall o :: o in owner && o !in old(owner) ==> fresh(o)
        invariant slotFecIndexesToIterate == work
        invariant View() == EmitAll(codec, st, work[..i]).st
        invariant deshreddedEntries == base + Outputs(EmitAll(codec, st, work[..i]).out)
      {
        EmitNext(codec, i, st, base);
      }
      assert work[..|work|] == work;
    }

    /** The last phase of a call: when the map is too large, forgets the slots behind the window. */
    method PruneOld()
      requires Valid()
      modifies this`allShreds, this`slots
      ensures Valid() && owner == old(owner) && deshreddedEntries == old(deshreddedEntries)
      ensures View() == Prune(old(View()))
    {
      MirrorsPrune(allShreds, owner, View());
      if |allShreds| > MAX_PROCESSING_AGE {
        var low := Threshold(highestSlotSeen);
        Store(map n | n in allShreds && n >= low :: allShreds[n], Prune(View()).slots);
      }
    }

    /** The four phases of a call. */
    method RunPhases(codec: Codec, order: Order, batch: seq<Packet>) returns (count: nat)
      requires Valid() && StateOk(View())
      modifies this`allShreds, this`slots, this`slotFecIndexesToIterate, this`deshreddedEntries, this`highestSlotSeen
      modifies this`owner, owner.Keys
      ensures Valid() && forall o :: o in owner && o !in old(owner) ==> fresh(o)
      ensures var step := Step(codec, order, old(View()), batch);
              && View() == step.st && count == step.recovered
              && deshreddedEntries == old(deshreddedEntries) + Outputs(step.out)
      ensures recoveredCount == old(recoveredCount)
    {
      PhasesOk(codec, order, View(), batch);
      IngestBatch(batch);
      count := RecoverPhase(codec, order);
      EmitPhase(codec);
      PruneOld();
    }

    /**
     One call: ingests a batch, recovers what it can, emits what is complete and prunes. The
     new state, the output and the returned count are those of the value-level step.
     */
    method ReconstructShreds(codec: Codec, order: Order, batch: seq<Packet>) returns (count: nat)
      requires Valid() && StateOk(View())
      modifies this, owner.Keys
      ensures Valid() && StateOk(View()) && forall o :: o in owner && o !in old(owner) ==> fresh(o)
      ensures var step := Step(codec, order, old(View()), batch);
              && View() == step.st && count == step.recovered
              && deshreddedEntries == Outputs(step.out) && HandsOut(deshreddedEntries, step.out)
      ensures recoveredCount == old(recoveredCount) + count
    {
      StepOk(codec, order, View(), batch);
      OutputsHandOut(Step(codec, order, View(), batch).out);
      ClearOutput();
      count := RunPhases(codec, order, batch);
      CountRecovered(count);
    }
  }
}
