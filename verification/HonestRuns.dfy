/**
 Whole runs over a live slot with an honest leader, in the presence of arbitrary
 traffic for other slots: the invariant carried through ingest, recovery, emission
 and pruning.
 */
module HonestRuns {
  import opened Shreds
  import opened Trackers
  import opened Reassembly
  import opened Bookkeeping
  import opened Truth
  import opened HonestSlots
  import opened HonestRecovery
  import opened HonestEmission

  ghost function OfSlot(shreds: set<Shred>, number: nat): set<Shred> {
    set shred | shred in shreds && shred.slot == number
  }

  /** The FEC sets of one slot on a work list. */
  ghost function PendingIn(work: seq<WorkItem>, number: nat): set<Index> {
    set item | item in work && item.slot == number :: item.fecSet
  }

  ghost predicate Unfinished(truth: SlotTruth, t: Tracker, pending: set<Index>) {
    forall fecSet :: fecSet in pending ==> fecSet in truth.fecs && !t.recovered[fecSet]
  }

  ghost predicate SetsOf(truth: SlotTruth, pending: set<Index>) {
    forall fecSet :: fecSet in pending ==> fecSet in truth.fecs
  }

  /** A live slot with the given recovery and emission work outstanding. */
  ghost predicate Outstanding(truth: SlotTruth, received: set<Shred>, slot: SlotState, unsettled: set<Index>,
      unemitted: set<Index>) {
    && Core(truth, received, slot)
    && SettledExcept(truth, slot, unsettled)
    && EmittedExcept(truth, slot.tracker, unemitted)
  }

  /** A live slot whose FEC sets left to recover are unfinished. */
  ghost predicate Repairing(truth: SlotTruth, received: set<Shred>, slot: SlotState, rest: set<Index>,
      all: set<Index>) {
    Outstanding(truth, received, slot, rest, all) && Unfinished(truth, slot.tracker, rest)
  }

  // ----- ingest -----

  lemma PendingGrows(work: seq<WorkItem>, item: WorkItem, number: nat)
    ensures PendingIn(work + [item], number)
         == PendingIn(work, number) + if item.slot == number then {item.fecSet} else {}
  {
    var longer := work + [item];
    forall fecSet | fecSet in PendingIn(longer, number)
      ensures fecSet in PendingIn(work, number) || (item.slot == number && fecSet == item.fecSet)
    {
      var w :| w in longer && w.slot == number && w.fecSet == fecSet;
      assert w in work || w == item;
    }
    forall fecSet | fecSet in PendingIn(work, number)
      ensures fecSet in PendingIn(longer, number)
    {
      var w :| w in work && w.slot == number && w.fecSet == fecSet;
      assert w in longer;
    }
    assert longer[|work|] == item;
  }

  lemma OfSlotGrows(shreds: set<Shred>, shred: Shred, number: nat)
    ensures OfSlot(shreds + {shred}, number)
         == OfSlot(shreds, number) + if shred.slot == number then {shred} else {}
  {
  }

  lemma IngestOneRepairing(truth: SlotTruth, g: Ingested, shred: Shred, received: set<Shred>)
    requires HonestLayout(truth) && Genuine(truth, shred) && !Stale(g.st.highest, truth.slot)
    requires var pending := PendingIn(g.work, truth.slot);
             Repairing(truth, received, SlotAt(g.st, truth.slot), pending, pending)
    ensures var after := IngestOne(g, Parsed(shred));
            var pending := PendingIn(after.work, truth.slot);
            Repairing(truth, received + {shred}, SlotAt(after.st, truth.slot), pending, pending)
  {
    var slot, pending := SlotAt(g.st, truth.slot), PendingIn(g.work, truth.slot);
    if Accept(slot, shred).None? {
      RejectKeepsCore(truth, received, slot, shred);
    } else {
      AcceptKeepsCore(truth, received, slot, shred);
      AcceptPends(truth, received, slot, shred, pending);
      PendingGrows(g.work, WorkItem(shred.slot, shred.fecSet), truth.slot);
    }
  }

  ghost predicate ArrivalsGenuine(truth: SlotTruth, shreds: set<Shred>) {
    forall shred :: shred in shreds && shred.slot == truth.slot ==> Genuine(truth, shred)
  }

  lemma IngestOneElsewhere(g: Ingested, packet: Packet, number: nat)
    requires packet.Parsed? ==> packet.shred.slot != number
    ensures var after := IngestOne(g, packet);
            && SlotAt(after.st, number) == SlotAt(g.st, number)
            && PendingIn(after.work, number) == PendingIn(g.work, number)
  {
    if packet.Parsed? {
      PendingGrows(g.work, WorkItem(packet.shred.slot, packet.shred.fecSet), number);
    }
  }

  lemma {:induction false} IngestRepairing(truth: SlotTruth, st: State, batch: seq<Packet>, received: set<Shred>)
    requires HonestLayout(truth) && Outstanding(truth, received, SlotAt(st, truth.slot), {}, {})
    requires ArrivalsGenuine(truth, ShredsOf(batch)) && !Stale(Ingest(st, batch).st.highest, truth.slot)
    ensures var g := Ingest(st, batch);
            var pending := PendingIn(g.work, truth.slot);
            Repairing(truth, received + OfSlot(ShredsOf(batch), truth.slot), SlotAt(g.st, truth.slot), pending, pending)
  {
    if batch == [] {
      assert received + OfSlot(ShredsOf(batch), truth.slot) == received;
      assert PendingIn([], truth.slot) == {};
    } else {
      var rest, packet := batch[..|batch| - 1], batch[|batch| - 1];
      var g := Ingest(st, rest);
      ShredsOfStep(batch);
      IngestRepairing(truth, st, rest, received);
      if packet.Parsed? {
        OfSlotGrows(ShredsOf(rest), packet.shred, truth.slot);
      }
      var before := received + OfSlot(ShredsOf(rest), truth.slot);
      if packet.Parsed? && packet.shred.slot == truth.slot {
        IngestOneRepairing(truth, g, packet.shred, before);
        assert received + OfSlot(ShredsOf(batch), truth.slot) == before + {packet.shred};
      } else {
        IngestOneElsewhere(g, packet, truth.slot);
        assert OfSlot(ShredsOf(batch), truth.slot) == OfSlot(ShredsOf(rest), truth.slot);
      }
    }
  }

  // ----- recovery -----

  /** Working through an item takes it, and only it, off the rest of the work list. */
  lemma PendingShrinks(work: seq<WorkItem>, done: nat, number: nat)
    requires StrictlyAscending(work) && done < |work|
    ensures var rest, item := PendingIn(work[done + 1..], number), work[done];
            && PendingIn(work[done..], number) == rest + (if item.slot == number then {item.fecSet} else {})
            && (item.slot == number ==> item.fecSet !in rest)
  {
    var tail, item := work[done + 1..], work[done];
    assert work[done..] == [item] + tail;
    forall fecSet | fecSet in PendingIn(work[done..], number)
      ensures fecSet in PendingIn(tail, number) || (item.slot == number && fecSet == item.fecSet)
    {
      var w :| w in work[done..] && w.slot == number && w.fecSet == fecSet;
      assert w in tail || w == item;
    }
    forall fecSet | fecSet in PendingIn(tail, number)
      ensures fecSet in PendingIn(work[done..], number)
    {
      var w :| w in tail && w.slot == number && w.fecSet == fecSet;
      assert w in work[done..];
    }
    assert work[done..][0] == item;
    if item.slot == number {
      forall w | w in tail && w.slot == number
        ensures w.fecSet != item.fecSet
      {
        var i :| 0 <= i < |tail| && tail[i] == w;
        assert ItemBefore(work[done], work[done + 1 + i]);
      }
    }
  }

  lemma RecoverOneRepairing(codec: Codec, order: Order, truth: SlotTruth, r: Recovering, item: WorkItem,
      received: set<Shred>, rest: set<Index>, all: set<Index>)
    requires Repairable(codec, truth) && EnumeratesSets(order) && item.slot == truth.slot
    requires item.fecSet in all && item.fecSet !in rest
    requires Repairing(truth, received, SlotAt(r.st, truth.slot), rest + {item.fecSet}, all)
    ensures Repairing(truth, received, SlotAt(RecoverOne(codec, order, r, item).st, truth.slot), rest, all)
  {
    var slot := SlotAt(r.st, truth.slot);
    var iteration := order(item.slot, item.fecSet, HeldOf(slot, item.fecSet));
    assert Enumerates(iteration, HeldOf(slot, item.fecSet));
    assert item.fecSet in rest + {item.fecSet};
    HeldMembers(truth, received, slot, item.fecSet);
    assert LiveAttempt(codec, truth, received, slot, item.fecSet, iteration);
    RecoverSetKeepsCore(codec, truth, received, slot, item.fecSet, iteration);
    RecoverSetPends(codec, truth, received, slot, item.fecSet, iteration, rest, all);
    RecoverSetLocal(codec, truth, slot, item.fecSet, iteration);
  }

  /** The slot once the first `done` items of the recovery phase are worked through. */
  ghost predicate RepairingAt(codec: Codec, order: Order, truth: SlotTruth, st: State, work: seq<WorkItem>,
      done: nat, received: set<Shred>)
    requires done <= |work|
  {
    Repairing(truth, received, SlotAt(RecoverAll(codec, order, st, work[..done]).st, truth.slot),
              PendingIn(work[done..], truth.slot), PendingIn(work, truth.slot))
  }

  lemma RecoverStepRepairing(codec: Codec, order: Order, truth: SlotTruth, st: State, work: seq<WorkItem>,
      done: nat, received: set<Shred>)
    requires Repairable(codec, truth) && EnumeratesSets(order) && StrictlyAscending(work) && done < |work|
    requires RepairingAt(codec, order, truth, st, work, done, received)
    ensures RepairingAt(codec, order, truth, st, work, done + 1, received)
  {
    var r := RecoverAll(codec, order, st, work[..done]);
    var item, before, rest := work[done], PendingIn(work[done..], truth.slot), PendingIn(work[done + 1..], truth.slot);
    RecoverAllStep(codec, order, st, work, done);
    PendingShrinks(work, done, truth.slot);
    if item.slot == truth.slot {
      assert item in work;
      assert before == rest + {item.fecSet};
      RecoverOneRepairing(codec, order, truth, r, item, received, rest, PendingIn(work, truth.slot));
    } else {
      assert before == rest;
      assert SlotAt(RecoverOne(codec, order, r, item).st, truth.slot) == SlotAt(r.st, truth.slot);
    }
  }

  lemma {:induction false} RecoverRepairing(codec: Codec, order: Order, truth: SlotTruth, st: State,
      work: seq<WorkItem>, done: nat, received: set<Shred>)
    requires Repairable(codec, truth) && EnumeratesSets(order) && StrictlyAscending(work) && done <= |work|
    requires RepairingAt(codec, order, truth, st, work, 0, received)
    ensures RepairingAt(codec, order, truth, st, work, done, received)
    decreases done
  {
    if done > 0 {
      RecoverRepairing(codec, order, truth, st, work, done - 1, received);
      RecoverStepRepairing(codec, order, truth, st, work, done - 1, received);
    }
  }

  // ----- emission -----

  /** The emissions of the slot are true segments with their true content, exactly those marked as emitted. */
  ghost predicate TrueHistory(codec: Codec, truth: SlotTruth, t: Tracker, out: seq<Emission>) {
    && (forall em :: em in out && em.slot == truth.slot ==>
          && TrueSegment(truth, em.start, em.end)
          && DecodesTo(codec, TruePayloads(truth, em.start, em.end), em.content)
          && EmittedThrough(t, em.start, em.end))
    && (forall start, end :: TrueSegment(truth, start, end) && EmittedThrough(t, start, end) ==>
          WasEmitted(truth, out, start, end))
  }

  ghost predicate WasEmitted(truth: SlotTruth, out: seq<Emission>, start: int, end: int) {
    exists em :: em in out && em.slot == truth.slot && em.start == start && em.end == end
  }

  lemma WasEmittedGrows(truth: SlotTruth, out: seq<Emission>, em: Emission, start: int, end: int)
    requires WasEmitted(truth, out, start, end)
             || (em.slot == truth.slot && em.start == start && em.end == end)
    ensures WasEmitted(truth, out + [em], start, end)
  {
    if WasEmitted(truth, out, start, end) {
      var old' :| old' in out && old'.slot == truth.slot && old'.start == start && old'.end == end;
      assert old' in out + [em];
    } else {
      assert em in out + [em];
    }
  }

  lemma HistoryGrows(codec: Codec, truth: SlotTruth, t: Tracker, out: seq<Emission>, em: Emission)
    requires Agree(t) && TrueHistory(codec, truth, t, out)
    requires em.slot == truth.slot && TrueSegment(truth, em.start, em.end) && OpenRun(t, em.start, em.end)
    requires DecodesTo(codec, TruePayloads(truth, em.start, em.end), em.content)
    ensures TrueHistory(codec, truth, Mark(t, em.start, em.end), out + [em])
  {
    var u := Mark(t, em.start, em.end);
    MarkExactly(t, em.start, em.end);
    forall other | other in out + [em] && other.slot == truth.slot
      ensures TrueSegment(truth, other.start, other.end)
      ensures DecodesTo(codec, TruePayloads(truth, other.start, other.end), other.content)
      ensures EmittedThrough(u, other.start, other.end)
    {
      if other in out {
        assert EmittedThrough(t, other.start, other.end);
      }
    }
    forall start, end | TrueSegment(truth, start, end) && EmittedThrough(u, start, end)
      ensures WasEmitted(truth, out + [em], start, end)
    {
      if em.start <= end && start <= em.end {
        SegmentsCoincide(truth, start, end, em.start, em.end);
      } else {
        assert EmittedThrough(t, start, end);
      }
      WasEmittedGrows(truth, out, em, start, end);
    }
  }

  lemma HistoryElsewhere(codec: Codec, truth: SlotTruth, t: Tracker, out: seq<Emission>, more: seq<Emission>)
    requires TrueHistory(codec, truth, t, out)
    requires forall em :: em in more ==> em.slot != truth.slot
    ensures TrueHistory(codec, truth, t, out + more)
  {
    forall start, end | TrueSegment(truth, start, end) && EmittedThrough(t, start, end)
      ensures WasEmitted(truth, out + more, start, end)
    {
      var em :| em in out && em.slot == truth.slot && em.start == start && em.end == end;
      assert em in out + more;
    }
  }

  /** A live slot, what is left to emit for it, and the run's output so far. */
  ghost predicate Emerging(codec: Codec, truth: SlotTruth, received: set<Shred>, slot: SlotState,
      unemitted: set<Index>, out: seq<Emission>) {
    Outstanding(truth, received, slot, {}, unemitted) && TrueHistory(codec, truth, slot.tracker, out)
  }

  /** Emitting a true segment keeps the books of a live slot. */
  lemma EmittedOutstanding(codec: Codec, truth: SlotTruth, received: set<Shred>, slot: SlotState, fecSet: Index,
      pending: set<Index>)
    requires Honest(codec, truth) && fecSet in truth.fecs && Outstanding(truth, received, slot, {}, pending)
    requires Emittable(codec, truth.slot, slot.tracker, fecSet).Some?
    ensures var em := Emittable(codec, truth.slot, slot.tracker, fecSet).value;
            Outstanding(truth, received, slot.(tracker := Mark(slot.tracker, em.start, em.end)), {}, pending - {fecSet})
  {
    var em := Emittable(codec, truth.slot, slot.tracker, fecSet).value;
    EmitsTrueSegment(codec, truth, slot.tracker, fecSet);
    EmissionClears(codec, truth, slot.tracker, fecSet, pending);
    MarkKeepsCore(truth, received, slot, em.start, em.end);
    MarkSettles(truth, slot, em.start, em.end, {});
  }

  lemma EmittedEmerging(codec: Codec, truth: SlotTruth, received: set<Shred>, slot: SlotState, fecSet: Index,
      pending: set<Index>, out: seq<Emission>)
    requires Honest(codec, truth) && fecSet in truth.fecs && Emerging(codec, truth, received, slot, pending, out)
    requires Emittable(codec, truth.slot, slot.tracker, fecSet).Some?
    ensures var em := Emittable(codec, truth.slot, slot.tracker, fecSet).value;
            var after := slot.(tracker := Mark(slot.tracker, em.start, em.end));
            Emerging(codec, truth, received, after, pending - {fecSet}, out + [em])
  {
    EmittedOutstanding(codec, truth, received, slot, fecSet, pending);
    EmitsTrueSegment(codec, truth, slot.tracker, fecSet);
    HistoryGrows(codec, truth, slot.tracker, out, Emittable(codec, truth.slot, slot.tracker, fecSet).value);
  }

  /** What scanning for a FEC set makes of a slot, and what it adds to the output. */
  ghost function Scanned(codec: Codec, number: nat, slot: SlotState, fecSet: Index): (SlotState, seq<Emission>) {
    var emission := Emittable(codec, number, slot.tracker, fecSet);
    if emission.None? then (slot, [])
    else (slot.(tracker := Mark(slot.tracker, emission.value.start, emission.value.end)), [emission.value])
  }

  lemma EmitOneScans(codec: Codec, e: Emitting, item: WorkItem)
    ensures var f, scanned := EmitOne(codec, e, item), Scanned(codec, item.slot, SlotAt(e.st, item.slot), item.fecSet);
            SlotAt(f.st, item.slot) == scanned.0 && f.out == e.out + scanned.1
  {
  }

  lemma ScannedEmerging(codec: Codec, truth: SlotTruth, received: set<Shred>, slot: SlotState, fecSet: Index,
      pending: set<Index>, out: seq<Emission>)
    requires Honest(codec, truth) && fecSet in truth.fecs && Emerging(codec, truth, received, slot, pending, out)
    ensures var scanned := Scanned(codec, truth.slot, slot, fecSet);
            Emerging(codec, truth, received, scanned.0, pending - {fecSet}, out + scanned.1)
  {
    if Emittable(codec, truth.slot, slot.tracker, fecSet).None? {
      NothingToEmit(codec, truth, slot.tracker, fecSet, pending);
      assert out + [] == out;
    } else {
      EmittedEmerging(codec, truth, received, slot, fecSet, pending, out);
    }
  }

  lemma EmitOneEmerging(codec: Codec, truth: SlotTruth, e: Emitting, item: WorkItem, received: set<Shred>,
      pending: set<Index>, past: seq<Emission>)
    requires Honest(codec, truth) && item.slot == truth.slot && item.fecSet in truth.fecs
    requires Emerging(codec, truth, received, SlotAt(e.st, truth.slot), pending, past + e.out)
    ensures var f := EmitOne(codec, e, item);
            Emerging(codec, truth, received, SlotAt(f.st, truth.slot), pending - {item.fecSet}, past + f.out)
  {
    var f, scanned := EmitOne(codec, e, item), Scanned(codec, item.slot, SlotAt(e.st, item.slot), item.fecSet);
    EmitOneScans(codec, e, item);
    ScannedEmerging(codec, truth, received, SlotAt(e.st, truth.slot), item.fecSet, pending, past + e.out);
    assert past + f.out == past + e.out + scanned.1;
  }

  lemma EmitOneElsewhere(codec: Codec, truth: SlotTruth, e: Emitting, item: WorkItem, received: set<Shred>,
      pending: set<Index>, past: seq<Emission>)
    requires item.slot != truth.slot
    requires Emerging(codec, truth, received, SlotAt(e.st, truth.slot), pending, past + e.out)
    ensures var f := EmitOne(codec, e, item);
            Emerging(codec, truth, received, SlotAt(f.st, truth.slot), pending, past + f.out)
  {
    var f := EmitOne(codec, e, item);
    assert SlotAt(f.st, truth.slot) == SlotAt(e.st, truth.slot);
    var emission := Emittable(codec, item.slot, SlotAt(e.st, item.slot).tracker, item.fecSet);
    if emission.Some? {
      HistoryElsewhere(codec, truth, SlotAt(e.st, truth.slot).tracker, past + e.out, [emission.value]);
      assert past + f.out == past + e.out + [emission.value];
    }
  }

  /** The slot and the output once the first `done` items of the emission phase are worked through. */
  ghost predicate EmergingAt(codec: Codec, truth: SlotTruth, st: State, work: seq<WorkItem>, done: nat,
      received: set<Shred>, past: seq<Emission>)
    requires done <= |work|
  {
    var e := EmitAll(codec, st, work[..done]);
    Emerging(codec, truth, received, SlotAt(e.st, truth.slot), PendingIn(work[done..], truth.slot), past + e.out)
  }

  lemma EmitStepEmerging(codec: Codec, truth: SlotTruth, st: State, work: seq<WorkItem>, done: nat,
      received: set<Shred>, past: seq<Emission>)
    requires Honest(codec, truth) && StrictlyAscending(work) && done < |work|
    requires SetsOf(truth, PendingIn(work, truth.slot))
    requires EmergingAt(codec, truth, st, work, done, received, past)
    ensures EmergingAt(codec, truth, st, work, done + 1, received, past)
  {
    var e := EmitAll(codec, st, work[..done]);
    var item, before, rest := work[done], PendingIn(work[done..], truth.slot), PendingIn(work[done + 1..], truth.slot);
    EmitAllStep(codec, st, work, done);
    PendingShrinks(work, done, truth.slot);
    if item.slot == truth.slot {
      assert item in work && item.fecSet in PendingIn(work, truth.slot);
      EmitOneEmerging(codec, truth, e, item, received, before, past);
      assert before - {item.fecSet} == rest;
    } else {
      EmitOneElsewhere(codec, truth, e, item, received, before, past);
      assert before == rest;
    }
  }

  lemma {:induction false} EmitEmerging(codec: Codec, truth: SlotTruth, st: State, work: seq<WorkItem>, done: nat,
      received: set<Shred>, past: seq<Emission>)
    requires Honest(codec, truth) && StrictlyAscending(work) && done <= |work|
    requires SetsOf(truth, PendingIn(work, truth.slot))
    requires EmergingAt(codec, truth, st, work, 0, received, past)
    ensures EmergingAt(codec, truth, st, work, done, received, past)
    decreases done
  {
    if done > 0 {
      EmitEmerging(codec, truth, st, work, done - 1, received, past);
      EmitStepEmerging(codec, truth, st, work, done - 1, received, past);
    }
  }
}
