/**
 The reassembler as a state machine over values: one slot's state, the four phases
 of a batch (ingest, recover, emit, prune), and whole runs of batches.
 */
module Reassembly {
  import opened Options
  import opened Shreds
  import opened Trackers
  import opened FecSets

  // ----- one slot -----

  /** The shreds held per FEC set, and the tracker. */
  datatype SlotState = SlotState(held: map<Index, set<Shred>>, tracker: Tracker)

  function FreshSlot(): SlotState { SlotState(map[], Empty()) }

  function HeldOf(slot: SlotState, fecSet: Index): set<Shred> {
    if fecSet in slot.held then slot.held[fecSet] else {}
  }

  /** The slot after a received shred, or None when the shred is dropped. */
  function Accept(slot: SlotState, shred: Shred): (r: Option<SlotState>) {
    if slot.tracker.recovered[shred.fecSet] || slot.tracker.deshredded[shred.index] then None
    else
      var updated := Update(slot.tracker, shred);
      if updated.None? then None
      else
        var held := slot.held[shred.fecSet := HeldOf(slot, shred.fecSet) + {shred}];
        Some(SlotState(held, updated.value))
  }

  /** Recovery is tried: the set's size is known, enough shreds are held, and some data is missing. */
  predicate WorthRecovering(held: set<Shred>, info: FecInfo) {
    info.expectedData != 0 && |held| >= info.expectedData && info.data != info.expectedData
  }

  /** A slot after a recovery attempt, how many shreds it gave and how many of them were coding shreds. */
  datatype RecoveredSlot = RecoveredSlot(slot: SlotState, count: nat, code: nat)

  function RecoverSet(codec: Codec, iteration: seq<Shred>, slot: SlotState, fecSet: Index): RecoveredSlot {
    var held := HeldOf(slot, fecSet);
    var entered := SlotState(slot.held[fecSet := held], slot.tracker);
    if !WorthRecovering(held, InfoOf(iteration)) then RecoveredSlot(entered, 0, 0)
    else
      var recovered := codec.recover(SortForRecovery(iteration));
      if recovered.None? then RecoveredSlot(entered, 0, 0)
      else
        var absorbed := Absorb(slot.tracker, recovered.value);
        if absorbed.count == 0 then RecoveredSlot(entered.(tracker := absorbed.tracker), 0, 0)
        else
          var finished := absorbed.tracker.(recovered := absorbed.tracker.recovered[fecSet := true]);
          RecoveredSlot(SlotState(slot.held[fecSet := {}], finished), absorbed.count, absorbed.code)
  }

  /** A decoded segment. */
  datatype Decoded = Decoded(entries: seq<Entry>, bytes: Bytes)

  function Decode(codec: Codec, payloads: seq<Bytes>): Option<Decoded> {
    var bytes := codec.deshred(payloads);
    if bytes.None? then None
    else
      var entries := codec.deserialize(bytes.value);
      if entries.None? then None else Some(Decoded(entries.value, bytes.value))
  }

  function Payloads(shreds: seq<Option<Shred>>): seq<Bytes> {
    seq(|shreds|, i requires 0 <= i < |shreds| => if shreds[i].Some? then shreds[i].value.payload else [])
  }

  /** A segment handed to subscribers: where it lay in its slot, and its content. */
  datatype Emission = Emission(slot: nat, start: nat, end: nat, content: Decoded)

  /** The segment that scanning from `index` would emit. */
  ghost function Emittable(codec: Codec, number: nat, t: Tracker, index: Index): (r: Option<Emission>)
    ensures r.Some? ==> && Scan(t, index).Some?
                        && IsRange(t, index, Scan(t, index).value)
                        && r.value.slot == number
                        && r.value.start == Scan(t, index).value.start
                        && r.value.end == Scan(t, index).value.end
  {
    var range := Scan(t, index);
    if range.None? then None
    else
      var content := Decode(codec, Payloads(t.shreds[range.value.start..range.value.end + 1]));
      if content.None? then None
      else Some(Emission(number, range.value.start, range.value.end, content.value))
  }

  // ----- all slots -----

  datatype State = State(slots: map<nat, SlotState>, highest: nat)

  function InitialState(): State { State(map[], 0) }

  /** The state of a slot; a slot without an entry is as good as new. */
  function SlotAt(st: State, number: nat): SlotState {
    if number in st.slots then st.slots[number] else FreshSlot()
  }

  function Put(st: State, number: nat, slot: SlotState): State {
    st.(slots := st.slots[number := slot])
  }

  function Threshold(highest: nat): nat {
    if highest > SLOT_LOOKBACK then highest - SLOT_LOOKBACK else 0
  }

  predicate Stale(highest: nat, number: nat) { Threshold(highest) > number }

  function Max(a: nat, b: nat): nat { if a < b then b else a }

  datatype WorkItem = WorkItem(slot: nat, fecSet: Index)

  /** The state while a batch is ingested, the work list, and how many data shreds were accepted. */
  datatype Ingested = Ingested(st: State, work: seq<WorkItem>, data: nat)

  function AcceptAt(st: State, shred: Shred): Option<SlotState> {
    if Stale(st.highest, shred.slot) then None else Accept(SlotAt(st, shred.slot), shred)
  }

  function IngestOne(g: Ingested, packet: Packet): Ingested {
    if !packet.Parsed? then g
    else
      var shred := packet.shred;
      var accepted := AcceptAt(g.st, shred);
      if accepted.None? then g.(st := Put(g.st, shred.slot, SlotAt(g.st, shred.slot)))
      else Ingested(Put(g.st, shred.slot, accepted.value).(highest := Max(g.st.highest, shred.slot)),
                    g.work + [WorkItem(shred.slot, shred.fecSet)],
                    if shred.Data? then g.data + 1 else g.data)
  }

  function Ingest(st: State, batch: seq<Packet>): Ingested {
    if batch == [] then Ingested(st, [], 0)
    else IngestOne(Ingest(st, batch[..|batch| - 1]), batch[|batch| - 1])
  }

  datatype Recovering = Recovering(st: State, count: nat, code: nat)

  function RecoverOne(codec: Codec, order: Order, r: Recovering, item: WorkItem): Recovering {
    var slot := SlotAt(r.st, item.slot);
    var iteration := order(item.slot, item.fecSet, HeldOf(slot, item.fecSet));
    var recovered := RecoverSet(codec, iteration, slot, item.fecSet);
    Recovering(Put(r.st, item.slot, recovered.slot), r.count + recovered.count, r.code + recovered.code)
  }

  function RecoverAll(codec: Codec, order: Order, st: State, work: seq<WorkItem>): Recovering {
    if work == [] then Recovering(st, 0, 0)
    else RecoverOne(codec, order, RecoverAll(codec, order, st, work[..|work| - 1]), work[|work| - 1])
  }

  datatype Emitting = Emitting(st: State, out: seq<Emission>)

  ghost function EmitOne(codec: Codec, e: Emitting, item: WorkItem): Emitting {
    var slot := SlotAt(e.st, item.slot);
    var emission := Emittable(codec, item.slot, slot.tracker, item.fecSet);
    if emission.None? then e.(st := Put(e.st, item.slot, slot))
    else
      var marked := Mark(slot.tracker, emission.value.start, emission.value.end);
      Emitting(Put(e.st, item.slot, slot.(tracker := marked)), e.out + [emission.value])
  }

  ghost function EmitAll(codec: Codec, st: State, work: seq<WorkItem>): Emitting {
    if work == [] then Emitting(st, [])
    else EmitOne(codec, EmitAll(codec, st, work[..|work| - 1]), work[|work| - 1])
  }

  lemma RecoverAllStep(codec: Codec, order: Order, st: State, work: seq<WorkItem>, done: nat)
    requires done < |work|
    ensures RecoverAll(codec, order, st, work[..done + 1])
         == RecoverOne(codec, order, RecoverAll(codec, order, st, work[..done]), work[done])
  {
    assert work[..done + 1][..done] == work[..done];
  }

  lemma EmitAllStep(codec: Codec, st: State, work: seq<WorkItem>, done: nat)
    requires done < |work|
    ensures EmitAll(codec, st, work[..done + 1]) == EmitOne(codec, EmitAll(codec, st, work[..done]), work[done])
  {
    assert work[..done + 1][..done] == work[..done];
  }

  function Prune(st: State): State {
    if |st.slots| > MAX_PROCESSING_AGE
    then st.(slots := map number | number in st.slots && number >= Threshold(st.highest) :: st.slots[number])
    else st
  }

  // ----- the work list -----

  predicate ItemBefore(a: WorkItem, b: WorkItem) {
    a.slot < b.slot || (a.slot == b.slot && a.fecSet < b.fecSet)
  }

  ghost predicate StrictlyAscending(work: seq<WorkItem>) {
    forall i, j :: 0 <= i < j < |work| ==> ItemBefore(work[i], work[j])
  }

  function InsertItem(sorted: seq<WorkItem>, item: WorkItem): seq<WorkItem> {
    if sorted == [] then [item]
    else
      var last := sorted[|sorted| - 1];
      if item == last then sorted
      else if ItemBefore(item, last) then InsertItem(sorted[..|sorted| - 1], item) + [last]
      else sorted + [item]
  }

  /** Sort, then drop repeated items. */
  function SortDedup(work: seq<WorkItem>): seq<WorkItem> {
    if work == [] then []
    else InsertItem(SortDedup(work[..|work| - 1]), work[|work| - 1])
  }

  lemma {:induction false} InsertItemHas(sorted: seq<WorkItem>, item: WorkItem)
    ensures forall w :: w in InsertItem(sorted, item) <==> w in sorted || w == item
  {
    if sorted != [] {
      var rest, last := sorted[..|sorted| - 1], sorted[|sorted| - 1];
      assert sorted == rest + [last];
      if item != last && ItemBefore(item, last) {
        InsertItemHas(rest, item);
      }
    }
  }

  lemma {:induction false} InsertItemAscends(sorted: seq<WorkItem>, item: WorkItem)
    requires StrictlyAscending(sorted)
    ensures StrictlyAscending(InsertItem(sorted, item))
  {
    if sorted != [] {
      var rest, last := sorted[..|sorted| - 1], sorted[|sorted| - 1];
      if item != last && ItemBefore(item, last) {
        InsertItemAscends(rest, item);
        InsertItemHas(rest, item);
        var inserted := InsertItem(rest, item);
        forall i | 0 <= i < |inserted|
          ensures ItemBefore(inserted[i], last)
        {
          assert inserted[i] in rest || inserted[i] == item;
        }
      }
    }
  }

  /** The prepared work list is strictly ascending and holds exactly the collected items. */
  lemma {:induction false} SortDedupKeeps(work: seq<WorkItem>)
    ensures StrictlyAscending(SortDedup(work))
    ensures forall w :: w in SortDedup(work) <==> w in work
  {
    if work != [] {
      var rest, last := work[..|work| - 1], work[|work| - 1];
      SortDedupKeeps(rest);
      InsertItemAscends(SortDedup(rest), last);
      InsertItemHas(SortDedup(rest), last);
      assert work == rest + [last];
    }
  }

  // ----- one batch, and whole runs -----

  /** One call: the next state, the segments handed out and the number of shreds recovered. */
  datatype StepResult = StepResult(st: State, out: seq<Emission>, recovered: nat)

  function Work(st: State, batch: seq<Packet>): seq<WorkItem> { SortDedup(Ingest(st, batch).work) }

  function AfterRecovery(codec: Codec, order: Order, st: State, batch: seq<Packet>): Recovering {
    RecoverAll(codec, order, Ingest(st, batch).st, Work(st, batch))
  }

  ghost function AfterEmission(codec: Codec, order: Order, st: State, batch: seq<Packet>): Emitting {
    EmitAll(codec, AfterRecovery(codec, order, st, batch).st, Work(st, batch))
  }

  ghost function Step(codec: Codec, order: Order, st: State, batch: seq<Packet>): StepResult {
    var emitted := AfterEmission(codec, order, st, batch);
    StepResult(Prune(emitted.st), emitted.out, AfterRecovery(codec, order, st, batch).count)
  }

  /** One batch taken from the channel, and the hash-set iteration orders it met. */
  datatype Event = Event(order: Order, batch: seq<Packet>)

  /** Where a run stands: the reassembler's state, all it has handed out and its recovery metric. */
  datatype History = History(st: State, out: seq<Emission>, recovered: nat)

  ghost function Advance(codec: Codec, past: History, event: Event): History {
    var step := Step(codec, event.order, past.st, event.batch);
    History(step.st, past.out + step.out, past.recovered + step.recovered)
  }

  ghost function Run(codec: Codec, events: seq<Event>): History {
    if events == [] then History(InitialState(), [], 0)
    else Advance(codec, Run(codec, events[..|events| - 1]), events[|events| - 1])
  }
}
