/**
 One slot under an honest leader: what it knows is true, what it has finished is
 complete, and what is left to do is on the work list.
 */
module HonestSlots {
  import opened Options
  import opened Shreds
  import opened Trackers
  import opened Reassembly
  import opened Safety
  import opened Bookkeeping
  import opened Truth

  ghost predicate KnownThrough(t: Tracker, start: int, end: int) {
    forall i: Index :: start <= i <= end ==> t.shreds[i].Some?
  }

  ghost predicate EmittedThrough(t: Tracker, start: int, end: int) {
    forall i: Index :: start <= i <= end ==> t.deshredded[i]
  }

  /** Every stored shred is the true one. */
  ghost predicate StoresTruth(truth: SlotTruth, t: Tracker) {
    forall i: Index :: t.shreds[i].Some? ==> i < |truth.data| && t.shreds[i].value == truth.data[i]
  }

  ghost predicate SetKnown(truth: SlotTruth, t: Tracker, fecSet: nat) {
    fecSet in truth.fecs && KnownThrough(t, fecSet, fecSet + truth.fecs[fecSet].k - 1)
  }

  /** A finished FEC set has all its data known. */
  ghost predicate FinishedMeansKnown(truth: SlotTruth, t: Tracker) {
    forall fecSet: Index :: t.recovered[fecSet] ==> SetKnown(truth, t, fecSet)
  }

  /** Emitted positions form whole true segments. */
  ghost predicate EmitsWholeSegments(truth: SlotTruth, t: Tracker) {
    forall i: Index :: t.deshredded[i] ==>
      exists start, end :: TrueSegment(truth, start, end) && start <= i <= end && EmittedThrough(t, start, end)
  }

  ghost function ReceivedIn(received: set<Shred>, fecSet: nat): set<Shred> {
    set shred | shred in received && shred.fecSet == fecSet
  }

  ghost predicate AllGenuine(truth: SlotTruth, received: set<Shred>) {
    forall shred :: shred in received ==> Genuine(truth, shred)
  }

  /** An unfinished FEC set holds exactly what was received for it. */
  ghost predicate HoldsReceived(received: set<Shred>, slot: SlotState) {
    forall fecSet: Index :: !slot.tracker.recovered[fecSet] ==>
      HeldOf(slot, fecSet) == ReceivedIn(received, fecSet)
  }

  ghost predicate ReceivedIsKnown(received: set<Shred>, t: Tracker) {
    forall shred :: shred in received && shred.Data? ==> t.shreds[shred.index].Some?
  }

  /** The shreds received suffice to know the data position: it arrived, or its FEC set is recoverable. */
  ghost predicate Determined(truth: SlotTruth, received: set<Shred>, i: nat)
    requires i < |truth.data|
  {
    var fecSet := truth.data[i].fecSet;
    truth.data[i] in received
    || (fecSet in truth.fecs && |ReceivedIn(received, fecSet)| >= truth.fecs[fecSet].k)
  }

  ghost predicate KnowsOnlyDetermined(truth: SlotTruth, received: set<Shred>, t: Tracker) {
    forall i: Index :: t.shreds[i].Some? ==> i < |truth.data| && Determined(truth, received, i)
  }

  /** The invariant of a live slot at every moment of every batch. */
  ghost predicate Core(truth: SlotTruth, received: set<Shred>, slot: SlotState) {
    && SlotOk(slot) && HeldAgrees(truth.slot, slot)
    && StoresTruth(truth, slot.tracker)
    && FinishedMeansKnown(truth, slot.tracker)
    && EmitsWholeSegments(truth, slot.tracker)
    && AllGenuine(truth, received)
    && HoldsReceived(received, slot)
    && ReceivedIsKnown(received, slot.tracker)
    && KnowsOnlyDetermined(truth, received, slot.tracker)
  }

  /** Nothing more can be recovered for the FEC set from what is held. */
  ghost predicate Settled(truth: SlotTruth, slot: SlotState, fecSet: Index) {
    || fecSet !in truth.fecs
    || slot.tracker.recovered[fecSet]
    || |HeldOf(slot, fecSet)| < truth.fecs[fecSet].k
    || SetKnown(truth, slot.tracker, fecSet)
  }

  ghost predicate SettledExcept(truth: SlotTruth, slot: SlotState, pending: set<Index>) {
    forall fecSet: Index :: fecSet !in pending ==> Settled(truth, slot, fecSet)
  }

  ghost predicate Meets(pending: set<Index>, start: int, end: int) {
    exists fecSet :: fecSet in pending && start <= fecSet <= end
  }

  /** Every fully known segment has been emitted, or holds a pending FEC set. */
  ghost predicate EmittedExcept(truth: SlotTruth, t: Tracker, pending: set<Index>) {
    forall start, end :: TrueSegment(truth, start, end) && KnownThrough(t, start, end) ==>
      EmittedThrough(t, start, end) || Meets(pending, start, end)
  }

  lemma FreshCore(truth: SlotTruth)
    requires Tiled(truth)
    ensures Core(truth, {}, FreshSlot())
    ensures SettledExcept(truth, FreshSlot(), {}) && EmittedExcept(truth, FreshSlot().tracker, {})
  {
    var slot := FreshSlot();
    forall start, end | TrueSegment(truth, start, end)
      ensures !KnownThrough(slot.tracker, start, end)
    {
      var i: Index := start;
      assert slot.tracker.shreds[i].None?;
    }
    forall fecSet: Index | fecSet in truth.fecs
      ensures |HeldOf(slot, fecSet)| < truth.fecs[fecSet].k
    {
      assert FecInPlace(truth, fecSet);
    }
    assert forall fecSet: Index :: HeldOf(slot, fecSet) == ReceivedIn({}, fecSet);
  }

  // ----- a received shred -----

  /** A shred whose index was emitted belongs to a finished FEC set. */
  lemma EmittedMeansFinished(truth: SlotTruth, t: Tracker, shred: Shred)
    requires HonestLayout(truth) && Agree(t) && StoresTruth(truth, t) && EmitsWholeSegments(truth, t)
    requires Genuine(truth, shred) && t.deshredded[shred.index]
    ensures t.recovered[shred.fecSet]
  {
    if shred.Code? {
      var start, end :| TrueSegment(truth, start, end) && start <= shred.index <= end && EmittedThrough(t, start, end);
      assert FecInPlace(truth, shred.fecSet);
      assert start <= shred.fecSet <= end;
      assert t.deshredded[shred.fecSet] && t.shreds[shred.fecSet].value == truth.data[shred.fecSet];
    } else {
      assert t.shreds[shred.index].value == truth.data[shred.index];
    }
  }

  /** A shred is turned away only when its FEC set is finished or it was received before. */
  lemma RejectedIsRedundant(truth: SlotTruth, received: set<Shred>, slot: SlotState, shred: Shred)
    requires HonestLayout(truth) && Core(truth, received, slot)
    requires Genuine(truth, shred) && Accept(slot, shred).None?
    ensures slot.tracker.recovered[shred.fecSet] || shred in received
  {
    var t := slot.tracker;
    if t.deshredded[shred.index] {
      EmittedMeansFinished(truth, t, shred);
    } else if !t.recovered[shred.fecSet] {
      assert t.shreds[shred.index] == Some(shred);
      assert shred in HeldOf(slot, shred.fecSet);
    }
  }

  lemma ReceivedInGrows(received: set<Shred>, shred: Shred, fecSet: nat)
    ensures ReceivedIn(received + {shred}, fecSet)
         == ReceivedIn(received, fecSet) + if shred.fecSet == fecSet then {shred} else {}
  {
  }

  lemma DeterminedGrows(truth: SlotTruth, received: set<Shred>, shred: Shred, i: nat)
    requires i < |truth.data| && Determined(truth, received, i)
    ensures Determined(truth, received + {shred}, i)
  {
    var fecSet := truth.data[i].fecSet;
    ReceivedInGrows(received, shred, fecSet);
    assert ReceivedIn(received, fecSet) <= ReceivedIn(received + {shred}, fecSet);
    SubsetSize(ReceivedIn(received, fecSet), ReceivedIn(received + {shred}, fecSet));
  }

  lemma SubsetSize<T>(a: set<T>, b: set<T>)
    requires a <= b
    ensures |a| <= |b|
  {
    assert b == a + (b - a);
  }

  /** What is known stays determined when more arrives. */
  lemma KnowledgeStaysDetermined(truth: SlotTruth, received: set<Shred>, t: Tracker, shred: Shred)
    requires KnowsOnlyDetermined(truth, received, t)
    ensures KnowsOnlyDetermined(truth, received + {shred}, t)
  {
    forall i: Index | t.shreds[i].Some?
      ensures i < |truth.data| && Determined(truth, received + {shred}, i)
    {
      DeterminedGrows(truth, received, shred, i);
    }
  }

  /** A shred of a finished FEC set is not held, and need not be. */
  lemma FinishedHoldsReceived(received: set<Shred>, slot: SlotState, shred: Shred)
    requires HoldsReceived(received, slot) && slot.tracker.recovered[shred.fecSet]
    ensures HoldsReceived(received + {shred}, slot)
  {
    forall fecSet: Index | !slot.tracker.recovered[fecSet]
      ensures ReceivedIn(received + {shred}, fecSet) == ReceivedIn(received, fecSet)
    {
      ReceivedInGrows(received, shred, fecSet);
    }
  }

  lemma RejectKeepsCore(truth: SlotTruth, received: set<Shred>, slot: SlotState, shred: Shred)
    requires HonestLayout(truth) && Core(truth, received, slot)
    requires Genuine(truth, shred) && Accept(slot, shred).None?
    ensures Core(truth, received + {shred}, slot)
  {
    RejectedIsRedundant(truth, received, slot, shred);
    if shred in received {
      assert received + {shred} == received;
    } else {
      FinishedHoldsReceived(received, slot, shred);
      KnowledgeStaysDetermined(truth, received, slot.tracker, shred);
      assert SetKnown(truth, slot.tracker, shred.fecSet);
      if shred.Data? {
        assert DataInPlace(truth, shred.index);
      }
    }
  }

  lemma AcceptStores(truth: SlotTruth, slot: SlotState, shred: Shred)
    requires SlotOk(slot) && Genuine(truth, shred) && Accept(slot, shred).Some?
    requires StoresTruth(truth, slot.tracker) && FinishedMeansKnown(truth, slot.tracker)
    requires EmitsWholeSegments(truth, slot.tracker)
    ensures var t := Accept(slot, shred).value.tracker;
            StoresTruth(truth, t) && FinishedMeansKnown(truth, t) && EmitsWholeSegments(truth, t)
  {
    var t, u := slot.tracker, Accept(slot, shred).value.tracker;
    assert u.recovered == t.recovered && u.deshredded == t.deshredded;
    forall fecSet: Index | u.recovered[fecSet]
      ensures SetKnown(truth, u, fecSet)
    {
      assert SetKnown(truth, t, fecSet);
    }
    forall i: Index | u.deshredded[i]
      ensures exists start, end :: TrueSegment(truth, start, end) && start <= i <= end && EmittedThrough(u, start, end)
    {
      assert t.deshredded[i];
      var start, end :| TrueSegment(truth, start, end) && start <= i <= end && EmittedThrough(t, start, end);
      assert EmittedThrough(u, start, end);
    }
  }

  lemma AcceptHoldsReceived(received: set<Shred>, slot: SlotState, shred: Shred)
    requires HoldsReceived(received, slot) && Accept(slot, shred).Some?
    ensures HoldsReceived(received + {shred}, Accept(slot, shred).value)
  {
    var after := Accept(slot, shred).value;
    forall fecSet: Index | !after.tracker.recovered[fecSet]
      ensures HeldOf(after, fecSet) == ReceivedIn(received + {shred}, fecSet)
    {
      ReceivedInGrows(received, shred, fecSet);
    }
  }

  lemma AcceptKnowsDetermined(truth: SlotTruth, received: set<Shred>, slot: SlotState, shred: Shred)
    requires KnowsOnlyDetermined(truth, received, slot.tracker) && ReceivedIsKnown(received, slot.tracker)
    requires Genuine(truth, shred) && Accept(slot, shred).Some?
    ensures var t := Accept(slot, shred).value.tracker;
            KnowsOnlyDetermined(truth, received + {shred}, t) && ReceivedIsKnown(received + {shred}, t)
  {
    KnowledgeStaysDetermined(truth, received, slot.tracker, shred);
  }

  lemma AcceptKeepsCore(truth: SlotTruth, received: set<Shred>, slot: SlotState, shred: Shred)
    requires HonestLayout(truth) && Core(truth, received, slot)
    requires Genuine(truth, shred) && Accept(slot, shred).Some?
    ensures Core(truth, received + {shred}, Accept(slot, shred).value)
  {
    AcceptOk(slot, shred);
    AcceptHeld(truth.slot, slot, shred);
    AcceptStores(truth, slot, shred);
    AcceptHoldsReceived(received, slot, shred);
    AcceptKnowsDetermined(truth, received, slot, shred);
  }

  lemma MeetsMore(pending: set<Index>, fecSet: Index, start: int, end: int)
    requires Meets(pending, start, end) || start <= fecSet <= end
    ensures Meets(pending + {fecSet}, start, end)
  {
    if Meets(pending, start, end) {
      var f :| f in pending && start <= f <= end;
      assert f in pending + {fecSet};
    } else {
      assert fecSet in pending + {fecSet};
    }
  }

  /** Learning positions of one FEC set completes no segment that does not hold that set. */
  lemma GrowthPends(truth: SlotTruth, t: Tracker, u: Tracker, fecSet: Index, pending: set<Index>)
    requires Tiled(truth) && EmittedExcept(truth, t, pending) && u.deshredded == t.deshredded
    requires forall i: Index :: u.shreds[i].Some? && t.shreds[i].None? ==>
               i < |truth.data| && truth.data[i].fecSet == fecSet
    ensures EmittedExcept(truth, u, pending + {fecSet})
  {
    forall start, end | TrueSegment(truth, start, end) && KnownThrough(u, start, end)
      ensures EmittedThrough(u, start, end) || Meets(pending + {fecSet}, start, end)
    {
      if KnownThrough(t, start, end) {
        if Meets(pending, start, end) {
          MeetsMore(pending, fecSet, start, end);
        } else {
          assert EmittedThrough(t, start, end);
        }
      } else {
        var i: Index :| start <= i <= end && t.shreds[i].None?;
        SegmentHoldsSets(truth, start, end, i);
        MeetsMore(pending, fecSet, start, end);
      }
    }
  }

  /** Accepting a shred leaves nothing unsettled or unemitted outside its own FEC set. */
  lemma AcceptPends(truth: SlotTruth, received: set<Shred>, slot: SlotState, shred: Shred, pending: set<Index>)
    requires HonestLayout(truth) && Core(truth, received, slot)
    requires Genuine(truth, shred) && Accept(slot, shred).Some?
    requires SettledExcept(truth, slot, pending) && EmittedExcept(truth, slot.tracker, pending)
    ensures var after := Accept(slot, shred).value;
            && SettledExcept(truth, after, pending + {shred.fecSet})
            && EmittedExcept(truth, after.tracker, pending + {shred.fecSet})
  {
    var after := Accept(slot, shred).value;
    forall fecSet: Index | fecSet !in pending + {shred.fecSet}
      ensures Settled(truth, after, fecSet)
    {
      assert Settled(truth, slot, fecSet);
      assert HeldOf(after, fecSet) == HeldOf(slot, fecSet);
    }
    GrowthPends(truth, slot.tracker, after.tracker, shred.fecSet, pending);
  }
}
