/**
 Emission under an honest leader: scanned ranges are suffixes of true segments, only
 whole segments are emitted, and a fully known segment is emitted as soon as one of
 its FEC sets is scanned.
 */
module HonestEmission {
  import opened Options
  import opened Shreds
  import opened Trackers
  import opened Reassembly
  import opened Bookkeeping
  import opened Truth
  import opened HonestSlots

  /**
   A scanned range never crosses a segment boundary: it is a suffix of one true segment,
   and the whole of it when the start is not a guess.
   */
  lemma RangeWithinSegment(truth: SlotTruth, t: Tracker, index: int, r: Range) returns (start: nat)
    requires Agree(t) && StoresTruth(truth, t) && IsRange(t, index, r)
    ensures start <= r.start && r.end < |truth.data| && TrueSegment(truth, start, r.end)
    ensures !r.unknownStart ==> start == r.start
  {
    forall j: Index | r.start <= j <= r.end
      ensures j < |truth.data| && Closes(truth.data[j]) == (j == r.end)
    {
      assert t.status[j] != Unknown;
      assert t.shreds[j].Some?;
    }
    var last: Index := r.end;
    assert last < |truth.data|;
    start := SegmentEndingAt(truth, r.start, r.end);
    if !r.unknownStart && r.start > 0 {
      var left: Index := r.start - 1;
      assert t.status[left] == DataComplete && t.shreds[left].Some?;
      assert Closes(truth.data[left]);
    }
  }

  /** The payloads read for a range are the true ones. */
  lemma RangePayloads(truth: SlotTruth, t: Tracker, start: nat, end: nat)
    requires StoresTruth(truth, t) && start <= end < MAX_DATA_SHREDS_PER_SLOT
    requires KnownThrough(t, start, end)
    ensures end < |truth.data|
    ensures Payloads(t.shreds[start..end + 1]) == TruePayloads(truth, start, end)
  {
    var last: Index := end;
    assert t.shreds[last].Some?;
    var slice := t.shreds[start..end + 1];
    forall i | 0 <= i < end + 1 - start
      ensures Payloads(slice)[i] == TruePayloads(truth, start, end)[i]
    {
      var at: Index := start + i;
      assert slice[i] == t.shreds[at] && t.shreds[at].Some?;
    }
  }

  lemma OpenRunKnown(t: Tracker, start: int, end: int)
    requires Agree(t) && OpenRun(t, start, end)
    ensures KnownThrough(t, start, end)
  {
  }

  /** Whatever is emitted is one whole true segment with its true content. */
  lemma EmitsTrueSegment(codec: Codec, truth: SlotTruth, t: Tracker, index: Index)
    requires Tiled(truth) && SuffixesFail(codec, truth) && Agree(t) && StoresTruth(truth, t) && index in truth.fecs
    requires Emittable(codec, truth.slot, t, index).Some?
    ensures var em := Emittable(codec, truth.slot, t, index).value;
            && TrueSegment(truth, em.start, em.end)
            && codec.deshred(TruePayloads(truth, em.start, em.end)) == Some(em.content.bytes)
            && codec.deserialize(em.content.bytes) == Some(em.content.entries)
  {
    var em := Emittable(codec, truth.slot, t, index).value;
    var start := RangeWithinSegment(truth, t, index, Scan(t, index).value);
    OpenRunKnown(t, em.start, em.end);
    RangePayloads(truth, t, em.start, em.end);
    SetBeforeLast(truth, start, em.end, index);
    assert Decodable(codec, TruePayloads(truth, em.start, em.end));
  }

  /** An emitted position marks its whole segment, so a segment is emitted wholly or not at all. */
  lemma EmittedWhollyOrNot(truth: SlotTruth, t: Tracker, start: int, end: int, i: Index)
    requires EmitsWholeSegments(truth, t) && TrueSegment(truth, start, end)
    requires start <= i <= end && t.deshredded[i]
    ensures EmittedThrough(t, start, end)
  {
    var s, e :| TrueSegment(truth, s, e) && s <= i <= e && EmittedThrough(t, s, e);
    SegmentsCoincide(truth, start, end, s, e);
  }

  /** The positions of a fully known segment carry the true status, and none is emitted before all are. */
  lemma KnownSegmentIsOpen(truth: SlotTruth, t: Tracker, start: nat, end: nat)
    requires Tiled(truth) && Agree(t) && StoresTruth(truth, t) && EmitsWholeSegments(truth, t)
    requires TrueSegment(truth, start, end) && KnownThrough(t, start, end) && !EmittedThrough(t, start, end)
    ensures OpenRun(t, start, end)
  {
    forall j: Index | start <= j <= end
      ensures t.status[j] == StatusOf(truth.data[j]) && !t.deshredded[j]
    {
      assert t.shreds[j].Some?;
      if t.deshredded[j] {
        EmittedWhollyOrNot(truth, t, start, end, j);
      }
    }
    var last: Index := end;
    assert t.status[last] == DataComplete;
  }

  lemma LeftOfSegment(truth: SlotTruth, t: Tracker, start: nat, end: nat)
    requires Tiled(truth) && Agree(t) && StoresTruth(truth, t) && TrueSegment(truth, start, end) && start > 0
    ensures t.status[start - 1] != NotDataComplete
  {
    var left: Index := start - 1;
    assert t.shreds[left].Some? ==> t.status[left] == StatusOf(truth.data[left]);
  }

  lemma KnownSegmentScans(truth: SlotTruth, t: Tracker, start: nat, end: nat, index: Index)
    requires Tiled(truth) && Agree(t) && StoresTruth(truth, t) && EmitsWholeSegments(truth, t)
    requires TrueSegment(truth, start, end) && KnownThrough(t, start, end) && !EmittedThrough(t, start, end)
    requires start <= index <= end
    ensures Scan(t, index).Some? && Scan(t, index).value.start == start && Scan(t, index).value.end == end
  {
    KnownSegmentIsOpen(truth, t, start, end);
    if start > 0 {
      LeftOfSegment(truth, t, start, end);
    }
    ScanIs(t, index, Range(start, end, start > 0 && t.status[start - 1] == Unknown));
  }

  /** A fully known segment that is not emitted yet is emitted by scanning any of its positions. */
  lemma KnownSegmentIsEmittable(codec: Codec, truth: SlotTruth, t: Tracker, start: nat, end: nat, index: Index)
    requires Tiled(truth) && SegmentsDecode(codec, truth)
    requires Agree(t) && StoresTruth(truth, t) && EmitsWholeSegments(truth, t)
    requires TrueSegment(truth, start, end) && KnownThrough(t, start, end) && !EmittedThrough(t, start, end)
    requires start <= index <= end
    ensures var em := Emittable(codec, truth.slot, t, index);
            em.Some? && em.value.start == start && em.value.end == end
  {
    KnownSegmentScans(truth, t, start, end, index);
    RangePayloads(truth, t, start, end);
  }

  // ----- one scan on a live slot -----

  lemma MarkFinishes(truth: SlotTruth, t: Tracker, start: nat, end: nat)
    requires Tiled(truth) && Agree(t) && StoresTruth(truth, t) && FinishedMeansKnown(truth, t)
    requires TrueSegment(truth, start, end) && OpenRun(t, start, end)
    ensures FinishedMeansKnown(truth, Mark(t, start, end))
  {
    var u := Mark(t, start, end);
    OpenRunKnown(t, start, end);
    forall fecSet: Index | u.recovered[fecSet]
      ensures SetKnown(truth, u, fecSet)
    {
      if t.recovered[fecSet] {
        assert SetKnown(truth, t, fecSet);
      } else {
        assert Touches(t, start, end, fecSet);
        var j: Index :| start <= j <= end && t.shreds[j].Some? && t.shreds[j].value.fecSet == fecSet;
        SegmentHoldsSets(truth, start, end, j);
      }
    }
  }

  lemma MarkEmitsWhole(truth: SlotTruth, t: Tracker, start: nat, end: nat)
    requires Agree(t) && EmitsWholeSegments(truth, t)
    requires TrueSegment(truth, start, end) && OpenRun(t, start, end)
    ensures EmitsWholeSegments(truth, Mark(t, start, end))
  {
    var u := Mark(t, start, end);
    MarkExactly(t, start, end);
    forall i: Index | u.deshredded[i]
      ensures exists s, e :: TrueSegment(truth, s, e) && s <= i <= e && EmittedThrough(u, s, e)
    {
      if start <= i <= end {
        assert EmittedThrough(u, start, end);
      } else {
        assert t.deshredded[i];
        var s, e :| TrueSegment(truth, s, e) && s <= i <= e && EmittedThrough(t, s, e);
        assert EmittedThrough(u, s, e);
      }
    }
  }

  lemma MarkKeepsCore(truth: SlotTruth, received: set<Shred>, slot: SlotState, start: nat, end: nat)
    requires Tiled(truth) && Core(truth, received, slot)
    requires TrueSegment(truth, start, end) && OpenRun(slot.tracker, start, end)
    ensures Core(truth, received, slot.(tracker := Mark(slot.tracker, start, end)))
  {
    var after := slot.(tracker := Mark(slot.tracker, start, end));
    MarkKeeps(slot.tracker, start, end);
    MarkHeld(truth.slot, slot, start, end);
    MarkFinishes(truth, slot.tracker, start, end);
    MarkEmitsWhole(truth, slot.tracker, start, end);
    assert forall f: Index :: HeldOf(after, f) == HeldOf(slot, f);
    assert forall f: Index :: !after.tracker.recovered[f] ==> !slot.tracker.recovered[f];
  }

  lemma MarkSettles(truth: SlotTruth, slot: SlotState, start: int, end: int, pending: set<Index>)
    requires SettledExcept(truth, slot, pending)
    ensures SettledExcept(truth, slot.(tracker := Mark(slot.tracker, start, end)), pending)
  {
    var after := slot.(tracker := Mark(slot.tracker, start, end));
    forall f: Index | f !in pending
      ensures Settled(truth, after, f)
    {
      assert Settled(truth, slot, f);
      assert HeldOf(after, f) == HeldOf(slot, f);
    }
  }

  lemma MeetsFewer(pending: set<Index>, fecSet: Index, start: int, end: int)
    requires Meets(pending, start, end) && !(start <= fecSet <= end)
    ensures Meets(pending - {fecSet}, start, end)
  {
    var f :| f in pending && start <= f <= end;
    assert f in pending - {fecSet};
  }

  /** When a scan emits nothing, the segment it looked at is not fully known or already emitted. */
  lemma NothingToEmit(codec: Codec, truth: SlotTruth, t: Tracker, fecSet: Index, pending: set<Index>)
    requires Honest(codec, truth) && Agree(t) && StoresTruth(truth, t) && EmitsWholeSegments(truth, t)
    requires EmittedExcept(truth, t, pending) && Emittable(codec, truth.slot, t, fecSet).None?
    ensures EmittedExcept(truth, t, pending - {fecSet})
  {
    forall start, end | TrueSegment(truth, start, end) && KnownThrough(t, start, end)
      ensures EmittedThrough(t, start, end) || Meets(pending - {fecSet}, start, end)
    {
      if !EmittedThrough(t, start, end) {
        assert !(start <= fecSet <= end) by {
          if start <= fecSet <= end {
            KnownSegmentIsEmittable(codec, truth, t, start, end, fecSet);
          }
        }
        MeetsFewer(pending, fecSet, start, end);
      }
    }
  }

  /** When a scan emits, the segment it emits is the one its FEC set lies in. */
  lemma EmissionClears(codec: Codec, truth: SlotTruth, t: Tracker, fecSet: Index, pending: set<Index>)
    requires Honest(codec, truth) && Agree(t) && StoresTruth(truth, t) && fecSet in truth.fecs
    requires EmittedExcept(truth, t, pending) && Emittable(codec, truth.slot, t, fecSet).Some?
    ensures var em := Emittable(codec, truth.slot, t, fecSet).value;
            EmittedExcept(truth, Mark(t, em.start, em.end), pending - {fecSet})
  {
    var em := Emittable(codec, truth.slot, t, fecSet).value;
    var u := Mark(t, em.start, em.end);
    EmitsTrueSegment(codec, truth, t, fecSet);
    MarkExactly(t, em.start, em.end);
    forall start, end | TrueSegment(truth, start, end) && KnownThrough(u, start, end)
      ensures EmittedThrough(u, start, end) || Meets(pending - {fecSet}, start, end)
    {
      assert KnownThrough(t, start, end);
      if start <= fecSet <= end {
        SegmentsCoincide(truth, start, end, em.start, em.end);
      } else if EmittedThrough(t, start, end) {
        assert EmittedThrough(u, start, end);
      } else {
        MeetsFewer(pending, fecSet, start, end);
      }
    }
  }
}
