/**
 Recovery under an honest leader: the accounting of a FEC set is exact, every
 recovery attempt succeeds, and afterwards nothing more can be recovered.
 */
module HonestRecovery {
  import opened Options
  import opened Shreds
  import opened Trackers
  import opened FecSets
  import opened Reassembly
  import opened Safety
  import opened Bookkeeping
  import opened Truth
  import opened HonestSlots

  /** The data shreds of positions `low` up to but not including `high`. */
  ghost function DataSlice(truth: SlotTruth, low: nat, high: nat): set<Shred>
    requires low <= high <= |truth.data|
  {
    set j | low <= j < high :: truth.data[j]
  }

  lemma {:induction false} DataSliceSize(truth: SlotTruth, low: nat, high: nat)
    requires low <= high <= |truth.data|
    ensures |DataSlice(truth, low, high)| <= high - low
    decreases high
  {
    if low < high {
      DataSliceSize(truth, low, high - 1);
      assert DataSlice(truth, low, high) == DataSlice(truth, low, high - 1) + {truth.data[high - 1]};
    } else {
      assert DataSlice(truth, low, high) == {};
    }
  }

  lemma FullSubset<T>(part: set<T>, whole: set<T>)
    requires part <= whole && |part| >= |whole|
    ensures part == whole
  {
    assert whole == part + (whole - part);
  }

  ghost predicate GenuineMembers(truth: SlotTruth, fecSet: Index, held: set<Shred>) {
    forall shred :: shred in held ==> Genuine(truth, shred) && shred.fecSet == fecSet
  }

  /** Genuine members of a FEC set are among its data slice and its coding shreds. */
  lemma MembersBounded(truth: SlotTruth, fecSet: Index, held: set<Shred>)
    requires Tiled(truth) && fecSet in truth.fecs && GenuineMembers(truth, fecSet, held)
    ensures FecInPlace(truth, fecSet)
    ensures DataIn(held) <= DataSlice(truth, fecSet, fecSet + truth.fecs[fecSet].k)
    ensures |DataSlice(truth, fecSet, fecSet + truth.fecs[fecSet].k)| <= truth.fecs[fecSet].k
    ensures |DataIn(held)| <= truth.fecs[fecSet].k
    ensures |CodeIn(held)| <= |truth.fecs[fecSet].code|
  {
    assert FecInPlace(truth, fecSet);
    var fec := truth.fecs[fecSet];
    forall shred | shred in DataIn(held)
      ensures shred in DataSlice(truth, fecSet, fecSet + fec.k)
    {
      assert DataInPlace(truth, shred.index);
    }
    DataSliceSize(truth, fecSet, fecSet + fec.k);
    SubsetSize(DataIn(held), DataSlice(truth, fecSet, fecSet + fec.k));
    SubsetSize(CodeIn(held), fec.code);
  }

  lemma MembersUniform(truth: SlotTruth, fecSet: Index, held: set<Shred>)
    requires Tiled(truth) && fecSet in truth.fecs && GenuineMembers(truth, fecSet, held)
    ensures Uniform(held, fecSet, truth.fecs[fecSet].k, |truth.fecs[fecSet].code|)
  {
    MembersBounded(truth, fecSet, held);
    forall shred | shred in held && shred.Code?
      ensures CodeInPlace(truth, fecSet, shred)
    {
      assert Genuine(truth, shred);
    }
    forall shred | shred in held && Closes(shred)
      ensures shred.index == fecSet + truth.fecs[fecSet].k - 1 && shred.fecSet == fecSet
    {
      assert DataInPlace(truth, shred.index);
    }
  }

  /**
   For a genuine FEC set, the accounting is exact in every iteration order: it names the
   set's true size or nothing, its counts add up to the held shreds, and whenever
   recovery is tried at least one coding shred stands in for each missing data shred.
   */
  lemma AccountingExact(truth: SlotTruth, fecSet: Index, held: set<Shred>, iteration: seq<Shred>)
    requires Tiled(truth) && fecSet in truth.fecs && GenuineMembers(truth, fecSet, held)
    requires Enumerates(iteration, held)
    ensures Uniform(held, fecSet, truth.fecs[fecSet].k, |truth.fecs[fecSet].code|)
    ensures var info, k := InfoOf(iteration), truth.fecs[fecSet].k;
            && info == UniformInfo(held, k, |truth.fecs[fecSet].code|)
            && (info.expectedData == 0 || info.expectedData == k)
            && info.data + info.coding == |held|
            && (WorthRecovering(held, info) ==> info.data < k && info.coding >= k - info.data)
  {
    MembersUniform(truth, fecSet, held);
    MembersBounded(truth, fecSet, held);
    InfoIgnoresOrder(iteration, held, fecSet, truth.fecs[fecSet].k, |truth.fecs[fecSet].code|);
    CountsAddUp(held);
  }

  /** A FEC set is known as soon as `k` of its data shreds are held. */
  lemma EnoughDataIsAll(truth: SlotTruth, slot: SlotState, fecSet: Index)
    requires Tiled(truth) && HeldIsStored(slot)
    requires fecSet in truth.fecs && GenuineMembers(truth, fecSet, HeldOf(slot, fecSet))
    requires !slot.tracker.recovered[fecSet]
    requires |DataIn(HeldOf(slot, fecSet))| >= truth.fecs[fecSet].k
    ensures SetKnown(truth, slot.tracker, fecSet)
  {
    var held, k := HeldOf(slot, fecSet), truth.fecs[fecSet].k;
    MembersBounded(truth, fecSet, held);
    FullSubset(DataIn(held), DataSlice(truth, fecSet, fecSet + k));
    forall i: Index | fecSet <= i <= fecSet + k - 1
      ensures slot.tracker.shreds[i].Some?
    {
      assert truth.data[i] in DataSlice(truth, fecSet, fecSet + k);
      assert DataInPlace(truth, i);
      assert slot.tracker.shreds[truth.data[i].index] == Some(truth.data[i]);
    }
  }

  /** When recovery is not tried although enough shreds are held, the set is already known. */
  lemma NotWorthMeansKnown(truth: SlotTruth, slot: SlotState, fecSet: Index, iteration: seq<Shred>)
    requires Tiled(truth) && HeldIsStored(slot)
    requires fecSet in truth.fecs && GenuineMembers(truth, fecSet, HeldOf(slot, fecSet))
    requires !slot.tracker.recovered[fecSet] && Enumerates(iteration, HeldOf(slot, fecSet))
    requires !WorthRecovering(HeldOf(slot, fecSet), InfoOf(iteration))
    requires |HeldOf(slot, fecSet)| >= truth.fecs[fecSet].k
    ensures SetKnown(truth, slot.tracker, fecSet)
  {
    var held, k := HeldOf(slot, fecSet), truth.fecs[fecSet].k;
    AccountingExact(truth, fecSet, held, iteration);
    CountsAddUp(held);
    MembersBounded(truth, fecSet, held);
    if CodeIn(held) != {} {
      var shred :| shred in CodeIn(held);
      assert shred in held && InfoOf(iteration).expectedData == k;
    }
    EnoughDataIsAll(truth, slot, fecSet);
  }

  /** Whenever recovery is tried, its input meets the library's conditions. */
  lemma RecoveryInput(truth: SlotTruth, fecSet: Index, held: set<Shred>, iteration: seq<Shred>)
    requires Tiled(truth) && fecSet in truth.fecs && GenuineMembers(truth, fecSet, held)
    requires Enumerates(iteration, held) && WorthRecovering(held, InfoOf(iteration))
    ensures Recoverable(truth, fecSet, SortForRecovery(iteration))
    ensures Enumerates(SortForRecovery(iteration), held)
  {
    var input := SortForRecovery(iteration);
    SortForRecoveryKeeps(iteration);
    EnumeratesFacts(input, held);
    AccountingExact(truth, fecSet, held, iteration);
    assert |CodeIn(held)| > 0;
    var shred :| shred in CodeIn(held);
    assert shred in input;
    forall s
      ensures multiset(input)[s] <= 1
    {
      assert multiset(held)[s] <= 1;
    }
  }

  ghost predicate OffersGenuine(truth: SlotTruth, offered: seq<Option<Shred>>) {
    forall offer :: offer in offered && offer.Some? ==> Genuine(truth, offer.value)
  }

  lemma {:induction false} AbsorbStoresTruth(truth: SlotTruth, t: Tracker, offered: seq<Option<Shred>>)
    requires StoresTruth(truth, t) && OffersGenuine(truth, offered)
    ensures StoresTruth(truth, Absorb(t, offered).tracker)
  {
    if offered != [] {
      var rest, offer := offered[..|offered| - 1], offered[|offered| - 1];
      assert offer in offered;
      assert forall o :: o in rest ==> o in offered;
      AbsorbStoresTruth(truth, t, rest);
    }
  }

  /** Every offered data shred of an unfinished set is stored afterwards. */
  lemma {:induction false} AbsorbTakes(t: Tracker, offered: seq<Option<Shred>>, shred: Shred)
    requires Agree(t) && ClosedRight(t)
    requires Some(shred) in offered && shred.Data? && !t.recovered[shred.fecSet]
    ensures Absorb(t, offered).tracker.shreds[shred.index].Some?
  {
    var rest, offer := offered[..|offered| - 1], offered[|offered| - 1];
    assert offered == rest + [offer];
    AbsorbKeeps(t, rest);
    var before := Absorb(t, rest);
    if Some(shred) in rest {
      AbsorbTakes(t, rest, shred);
    } else {
      assert offer == Some(shred);
    }
  }

  // ----- one recovery attempt -----

  /** An unfinished FEC set, whose held shreds are genuine, stored, and visited in some order. */
  ghost predicate Attempt(codec: Codec, truth: SlotTruth, slot: SlotState, fecSet: Index, iteration: seq<Shred>) {
    && Tiled(truth) && RecoveryWorks(codec, truth)
    && SlotOk(slot) && HeldIsStored(slot)
    && fecSet in truth.fecs && !slot.tracker.recovered[fecSet]
    && GenuineMembers(truth, fecSet, HeldOf(slot, fecSet)) && Enumerates(iteration, HeldOf(slot, fecSet))
  }

  /** An attempt on a live slot. */
  ghost predicate LiveAttempt(codec: Codec, truth: SlotTruth, received: set<Shred>, slot: SlotState, fecSet: Index,
      iteration: seq<Shred>) {
    Attempt(codec, truth, slot, fecSet, iteration) && Core(truth, received, slot)
  }

  lemma HeldMembers(truth: SlotTruth, received: set<Shred>, slot: SlotState, fecSet: Index)
    requires Core(truth, received, slot) && !slot.tracker.recovered[fecSet]
    ensures GenuineMembers(truth, fecSet, HeldOf(slot, fecSet))
    ensures HeldOf(slot, fecSet) == ReceivedIn(received, fecSet)
  {
  }

  /** Every attempt that reaches the library succeeds and makes the whole set known. */
  lemma AttemptSucceeds(codec: Codec, truth: SlotTruth, slot: SlotState, fecSet: Index, iteration: seq<Shred>)
    requires Attempt(codec, truth, slot, fecSet, iteration)
    requires WorthRecovering(HeldOf(slot, fecSet), InfoOf(iteration))
    ensures var recovered := codec.recover(SortForRecovery(iteration));
            && recovered.Some? && OffersGenuine(truth, recovered.value) && OffersOnly(recovered.value, fecSet)
            && SetKnown(truth, Absorb(slot.tracker, recovered.value).tracker, fecSet)
  {
    var held, t, k := HeldOf(slot, fecSet), slot.tracker, truth.fecs[fecSet].k;
    RecoveryInput(truth, fecSet, held, iteration);
    var input := SortForRecovery(iteration);
    var recovered := codec.recover(input);
    assert Recovers(truth, fecSet, input, recovered);
    EnumeratesFacts(input, held);
    AbsorbKeeps(t, recovered.value);
    var u := Absorb(t, recovered.value).tracker;
    assert FecInPlace(truth, fecSet);
    forall i: Index | fecSet <= i <= fecSet + k - 1
      ensures u.shreds[i].Some?
    {
      assert DataInPlace(truth, i);
      var shred := truth.data[i];
      if shred in input {
        assert t.shreds[shred.index] == Some(shred);
      } else {
        AbsorbTakes(t, recovered.value, shred);
      }
    }
  }

  /** Rewriting a held entry with itself changes nothing that matters. */
  lemma EnteredKeepsCore(truth: SlotTruth, received: set<Shred>, slot: SlotState, fecSet: Index)
    requires Core(truth, received, slot)
    ensures var entered := SlotState(slot.held[fecSet := HeldOf(slot, fecSet)], slot.tracker);
            Core(truth, received, entered) && forall f: Index :: HeldOf(entered, f) == HeldOf(slot, f)
  {
    var entered := SlotState(slot.held[fecSet := HeldOf(slot, fecSet)], slot.tracker);
    assert forall f: Index :: HeldOf(entered, f) == HeldOf(slot, f);
  }

  /** The slot once a FEC set has been recovered into its tracker and finished. */
  ghost function Finish(slot: SlotState, u: Tracker, fecSet: Index): SlotState {
    SlotState(slot.held[fecSet := {}], u.(recovered := u.recovered[fecSet := true]))
  }

  lemma FinishTruth(truth: SlotTruth, slot: SlotState, u: Tracker, fecSet: Index)
    requires Agree(slot.tracker) && Extends(u, slot.tracker) && SetKnown(truth, u, fecSet)
    requires FinishedMeansKnown(truth, slot.tracker) && EmitsWholeSegments(truth, slot.tracker)
    ensures FinishedMeansKnown(truth, Finish(slot, u, fecSet).tracker)
    ensures EmitsWholeSegments(truth, Finish(slot, u, fecSet).tracker)
  {
    var t, v := slot.tracker, Finish(slot, u, fecSet).tracker;
    forall f: Index | v.recovered[f]
      ensures SetKnown(truth, v, f)
    {
      assert f != fecSet ==> SetKnown(truth, t, f);
    }
    forall i: Index | v.deshredded[i]
      ensures exists start, end :: TrueSegment(truth, start, end) && start <= i <= end && EmittedThrough(v, start, end)
    {
      assert t.deshredded[i];
      var start, end :| TrueSegment(truth, start, end) && start <= i <= end && EmittedThrough(t, start, end);
      assert EmittedThrough(v, start, end);
    }
  }

  lemma FinishReceived(truth: SlotTruth, received: set<Shred>, slot: SlotState, u: Tracker, fecSet: Index)
    requires Core(truth, received, slot) && Extends(u, slot.tracker) && StoresTruth(truth, u)
    requires fecSet in truth.fecs && |ReceivedIn(received, fecSet)| >= truth.fecs[fecSet].k
    requires forall i: Index :: u.shreds[i] == slot.tracker.shreds[i]
               || (u.shreds[i].Some? && u.shreds[i].value.fecSet == fecSet)
    ensures var after := Finish(slot, u, fecSet);
            && HoldsReceived(received, after) && ReceivedIsKnown(received, after.tracker)
            && KnowsOnlyDetermined(truth, received, after.tracker)
  {
    var after := Finish(slot, u, fecSet);
    assert forall f: Index :: f != fecSet ==> HeldOf(after, f) == HeldOf(slot, f);
    forall i: Index | after.tracker.shreds[i].Some?
      ensures i < |truth.data| && Determined(truth, received, i)
    {
      assert u.shreds[i].Some?;
    }
  }

  /** A recovery attempt keeps the invariant of a live slot. */
  lemma RecoverSetKeepsCore(codec: Codec, truth: SlotTruth, received: set<Shred>, slot: SlotState, fecSet: Index,
      iteration: seq<Shred>)
    requires LiveAttempt(codec, truth, received, slot, fecSet, iteration)
    ensures Core(truth, received, RecoverSet(codec, iteration, slot, fecSet).slot)
  {
    var held, t := HeldOf(slot, fecSet), slot.tracker;
    EnteredKeepsCore(truth, received, slot, fecSet);
    if WorthRecovering(held, InfoOf(iteration)) {
      AttemptSucceeds(codec, truth, slot, fecSet, iteration);
      var recovered := codec.recover(SortForRecovery(iteration)).value;
      var absorbed := Absorb(t, recovered);
      if absorbed.count == 0 {
        AbsorbNothing(t, recovered);
      } else {
        HeldMembers(truth, received, slot, fecSet);
        AccountingExact(truth, fecSet, held, iteration);
        AbsorbKeeps(t, recovered);
        AbsorbLocal(t, recovered, fecSet);
        AbsorbStoresTruth(truth, t, recovered);
        RecoverSetOk(codec, iteration, slot, fecSet);
        RecoverSetHeld(codec, iteration, truth.slot, slot, fecSet);
        FinishTruth(truth, slot, absorbed.tracker, fecSet);
        FinishReceived(truth, received, slot, absorbed.tracker, fecSet);
        assert RecoverSet(codec, iteration, slot, fecSet).slot == Finish(slot, absorbed.tracker, fecSet);
      }
    }
  }

  /** `u` differs from `t` only in once unknown positions of one FEC set and in that set's flag. */
  ghost predicate ChangedOnlyIn(t: Tracker, u: Tracker, fecSet: Index) {
    && u.deshredded == t.deshredded
    && (forall i: Index :: u.shreds[i] == t.shreds[i]
          || (t.shreds[i].None? && u.shreds[i].Some? && u.shreds[i].value.fecSet == fecSet))
    && (forall f: Index :: f != fecSet ==> u.recovered[f] == t.recovered[f])
  }

  lemma AbsorbChangesOnlyIn(t: Tracker, offered: seq<Option<Shred>>, fecSet: Index)
    requires OffersOnly(offered, fecSet)
    ensures ChangedOnlyIn(t, Absorb(t, offered).tracker, fecSet)
  {
    AbsorbLocal(t, offered, fecSet);
    AbsorbLeavesMarks(t, offered);
  }

  /** What a recovery attempt changes in the tracker: unknown positions of its own FEC set, and its flag. */
  lemma RecoverSetLocal(codec: Codec, truth: SlotTruth, slot: SlotState, fecSet: Index, iteration: seq<Shred>)
    requires Attempt(codec, truth, slot, fecSet, iteration)
    ensures ChangedOnlyIn(slot.tracker, RecoverSet(codec, iteration, slot, fecSet).slot.tracker, fecSet)
  {
    if WorthRecovering(HeldOf(slot, fecSet), InfoOf(iteration)) {
      AttemptSucceeds(codec, truth, slot, fecSet, iteration);
      AbsorbChangesOnlyIn(slot.tracker, codec.recover(SortForRecovery(iteration)).value, fecSet);
    }
  }

  /** A recovery attempt leaves the shreds held for other FEC sets alone. */
  lemma RecoverSetHeldElsewhere(codec: Codec, slot: SlotState, fecSet: Index, iteration: seq<Shred>, f: Index)
    requires f != fecSet
    ensures HeldOf(RecoverSet(codec, iteration, slot, fecSet).slot, f) == HeldOf(slot, f)
  {
  }

  /** After an attempt nothing more can be recovered for the FEC set. */
  lemma RecoverSetSettles(codec: Codec, truth: SlotTruth, slot: SlotState, fecSet: Index, iteration: seq<Shred>)
    requires Attempt(codec, truth, slot, fecSet, iteration)
    ensures Settled(truth, RecoverSet(codec, iteration, slot, fecSet).slot, fecSet)
  {
    var held := HeldOf(slot, fecSet);
    if WorthRecovering(held, InfoOf(iteration)) {
      AttemptSucceeds(codec, truth, slot, fecSet, iteration);
      var after := RecoverSet(codec, iteration, slot, fecSet).slot;
      assert SetKnown(truth, after.tracker, fecSet);
    } else if |held| >= truth.fecs[fecSet].k {
      NotWorthMeansKnown(truth, slot, fecSet, iteration);
    }
  }

  lemma RecoverSetSettledExcept(codec: Codec, truth: SlotTruth, received: set<Shred>, slot: SlotState,
      fecSet: Index, iteration: seq<Shred>, unsettled: set<Index>)
    requires LiveAttempt(codec, truth, received, slot, fecSet, iteration)
    requires SettledExcept(truth, slot, unsettled + {fecSet})
    ensures SettledExcept(truth, RecoverSet(codec, iteration, slot, fecSet).slot, unsettled)
  {
    var after := RecoverSet(codec, iteration, slot, fecSet).slot;
    RecoverSetLocal(codec, truth, slot, fecSet, iteration);
    RecoverSetSettles(codec, truth, slot, fecSet, iteration);
    forall f: Index | f !in unsettled
      ensures Settled(truth, after, f)
    {
      if f != fecSet {
        RecoverSetHeldElsewhere(codec, slot, fecSet, iteration, f);
        SettledElsewhere(truth, slot, after, f);
      }
    }
  }

  /** A recovery attempt takes its FEC set off the unsettled list and keeps the rest of the books. */
  lemma RecoverSetPends(codec: Codec, truth: SlotTruth, received: set<Shred>, slot: SlotState, fecSet: Index,
      iteration: seq<Shred>, unsettled: set<Index>, unemitted: set<Index>)
    requires LiveAttempt(codec, truth, received, slot, fecSet, iteration)
    requires SettledExcept(truth, slot, unsettled + {fecSet}) && EmittedExcept(truth, slot.tracker, unemitted)
    requires fecSet in unemitted
    ensures var after := RecoverSet(codec, iteration, slot, fecSet).slot;
            SettledExcept(truth, after, unsettled) && EmittedExcept(truth, after.tracker, unemitted)
  {
    var after := RecoverSet(codec, iteration, slot, fecSet).slot;
    RecoverSetLocal(codec, truth, slot, fecSet, iteration);
    RecoverSetKeepsCore(codec, truth, received, slot, fecSet, iteration);
    RecoverSetSettledExcept(codec, truth, received, slot, fecSet, iteration, unsettled);
    forall i: Index | after.tracker.shreds[i].Some? && slot.tracker.shreds[i].None?
      ensures i < |truth.data| && truth.data[i].fecSet == fecSet
    {
    }
    GrowthPends(truth, slot.tracker, after.tracker, fecSet, unemitted);
    assert unemitted + {fecSet} == unemitted;
  }

  lemma SettledElsewhere(truth: SlotTruth, slot: SlotState, after: SlotState, f: Index)
    requires Settled(truth, slot, f)
    requires HeldOf(after, f) == HeldOf(slot, f) && after.tracker.recovered[f] == slot.tracker.recovered[f]
    requires forall i: Index :: slot.tracker.shreds[i].Some? ==> after.tracker.shreds[i].Some?
    ensures Settled(truth, after, f)
  {
  }
}
