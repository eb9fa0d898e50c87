/**
 The tracker as the program keeps it: four vectors of fixed length, written in place
 by `update_state_tracker`, by recovery and by emission, and read by the boundary scan.
 */
module StateTracker {
  import opened Options
  import opened Shreds
  import opened Trackers

  // ----- why a walk of the scan may stop -----

  /** The right walk has passed `index` up to `end` and found neither an end nor a blocked position. */
  ghost predicate RightWalk(t: Tracker, index: int, end: int) {
    && 0 <= index <= end <= MAX_DATA_SHREDS_PER_SLOT
    && forall j: Index :: index <= j < end ==> t.status[j] == NotDataComplete && !t.deshredded[j]
  }

  lemma RightWalkBlocked(t: Tracker, index: int, end: int)
    requires RightWalk(t, index, end)
    requires end == MAX_DATA_SHREDS_PER_SLOT || t.deshredded[end] || t.status[end] == Unknown
    ensures Scan(t, index).None?
  {
    forall r | IsRange(t, index, r)
      ensures r.end >= end
    {
      var last: Index := r.end;
      assert t.status[last] == DataComplete;
    }
  }

  lemma LeftWalkBlocked(t: Tracker, index: int, left: int)
    requires 0 <= left < index < MAX_DATA_SHREDS_PER_SLOT && t.deshredded[left]
    requires forall j: Index :: left <= j < index ==> t.status[j] == NotDataComplete
    ensures Scan(t, index).None?
  {
    forall r | IsRange(t, index, r)
      ensures r.start <= left
    {
      assert r.start > 0 ==> t.status[r.start - 1] != NotDataComplete;
    }
  }

  // ----- marking, one position at a time -----

  lemma MarkNothing(t: Tracker, start: int)
    ensures Mark(t, start, start - 1) == t
  {
    var u := Mark(t, start, start - 1);
    assert u.deshredded == t.deshredded && u.recovered == t.recovered;
  }

  lemma MarkSkips(t: Tracker, start: int, at: Index)
    requires start <= at && t.shreds[at].None?
    ensures Mark(t, start, at) == Mark(t, start, at - 1)
  {
    var u, v := Mark(t, start, at), Mark(t, start, at - 1);
    forall i: Index
      ensures u.deshredded[i] == v.deshredded[i] && u.recovered[i] == v.recovered[i]
    {
      assert Covers(t, start, at, i) == Covers(t, start, at - 1, i);
      assert Touches(t, start, at, i) == Touches(t, start, at - 1, i);
    }
    assert u.deshredded == v.deshredded && u.recovered == v.recovered;
  }

  lemma MarkTakes(t: Tracker, start: int, at: Index)
    requires start <= at && t.shreds[at].Some?
    ensures var shred, v := t.shreds[at].value, Mark(t, start, at - 1);
            Mark(t, start, at) == v.(deshredded := v.deshredded[shred.index := true],
                                     recovered := v.recovered[shred.fecSet := true])
  {
    var shred, u, v := t.shreds[at].value, Mark(t, start, at), Mark(t, start, at - 1);
    forall i: Index
      ensures u.deshredded[i] == (v.deshredded[i] || i == shred.index)
      ensures u.recovered[i] == (v.recovered[i] || i == shred.fecSet)
    {
      assert Covers(t, start, at, i) == (Covers(t, start, at - 1, i) || i == shred.index);
      assert Touches(t, start, at, i) == (Touches(t, start, at - 1, i) || i == shred.fecSet);
    }
    assert u.deshredded == v.deshredded[shred.index := true];
    assert u.recovered == v.recovered[shred.fecSet := true];
  }

  class ShredsStateTracker {
    const dataStatus: array<ShredStatus>
    const dataShreds: array<Option<Shred>>
    const alreadyRecoveredFecSets: array<bool>
    const alreadyDeshredded: array<bool>

    ghost predicate Valid() {
      && dataStatus.Length == dataShreds.Length == MAX_DATA_SHREDS_PER_SLOT
      && alreadyRecoveredFecSets.Length == alreadyDeshredded.Length == MAX_DATA_SHREDS_PER_SLOT
      && alreadyRecoveredFecSets != alreadyDeshredded
    }

    ghost function View(): Tracker
      requires Valid()
      reads dataStatus, dataShreds, alreadyRecoveredFecSets, alreadyDeshredded
    {
      Vectors(dataStatus[..], dataShreds[..], alreadyRecoveredFecSets[..], alreadyDeshredded[..])
    }

    constructor ()
      ensures Valid()
      ensures fresh(dataStatus) && fresh(dataShreds) && fresh(alreadyRecoveredFecSets) && fresh(alreadyDeshredded)
      ensures View() == Empty()
      ensures dataStatus.Length == dataShreds.Length == 32768
      ensures alreadyRecoveredFecSets.Length == alreadyDeshredded.Length == 32768
    {
      dataStatus := new ShredStatus[MAX_DATA_SHREDS_PER_SLOT](_ => Unknown);
      dataShreds := new Option<Shred>[MAX_DATA_SHREDS_PER_SLOT](_ => None);
      alreadyRecoveredFecSets := new bool[MAX_DATA_SHREDS_PER_SLOT](_ => false);
      alreadyDeshredded := new bool[MAX_DATA_SHREDS_PER_SLOT](_ => false);
    }

    /** Takes a shred that is new, and answers its index; answers None and changes nothing otherwise. */
    method UpdateStateTracker(shred: Shred) returns (r: Option<Index>)
      requires Valid()
      modifies dataStatus, dataShreds
      ensures r == if Update(old(View()), shred).Some? then Some(shred.index) else None
      ensures View() == if Update(old(View()), shred).Some? then Update(old(View()), shred).value else old(View())
      ensures r.Some? && shred.Data? ==>
                && View().shreds[shred.index] == Some(shred)
                && View().status[shred.index]
                   == if shred.dataComplete || shred.lastInSlot then DataComplete else NotDataComplete
    {
      var index := shred.index;
      if alreadyRecoveredFecSets[shred.fecSet] {
        return None;
      }
      if shred.Data? && (dataShreds[index].Some? || dataStatus[index] != Unknown) {
        return None;
      }
      if shred.Data? {
        dataShreds[index] := Some(shred);
        if shred.dataComplete || shred.lastInSlot {
          dataStatus[index] := DataComplete;
        } else {
          dataStatus[index] := NotDataComplete;
        }
      }
      r := Some(index);
    }

    /** Offers recovered shreds one by one and counts those that were new. */
    method AbsorbRecovered(offered: seq<Option<Shred>>) returns (count: nat)
      requires Valid()
      modifies dataStatus, dataShreds
      ensures View() == Absorb(old(View()), offered).tracker
      ensures count == Absorb(old(View()), offered).count
    {
      count := 0;
      for i := 0 to |offered|
        invariant View() == Absorb(old(View()), offered[..i]).tracker
        invariant count == Absorb(old(View()), offered[..i]).count
      {
        assert offered[..i + 1][..i] == offered[..i];
        if offered[i].Some? {
          var index := UpdateStateTracker(offered[i].value);
          if index.Some? {
            count := count + 1;
          }
        }
      }
      assert offered[..|offered|] == offered;
    }

    /** The inclusive range around `index` that makes one segment, found by walking right and then left. */
    method GetIndexes(index: nat) returns (r: Option<Range>)
      requires Valid()
      ensures r == Scan(View(), index)
    {
      ghost var t := View();
      if index >= dataStatus.Length {
        return None;
      }
      var end := index;
      while end < dataStatus.Length
        invariant RightWalk(t, index, end)
      {
        if alreadyDeshredded[end] {
          RightWalkBlocked(t, index, end);
          return None;
        }
        match dataStatus[end]
        case Unknown =>
          RightWalkBlocked(t, index, end);
          return None;
        case DataComplete =>
          break;
        case NotDataComplete =>
          end := end + 1;
      }
      if end == dataStatus.Length {
        RightWalkBlocked(t, index, end);
        return None;
      }
      r := FindStart(index, end);
    }

    /** The left walk, once the right boundary is known. */
    method FindStart(index: nat, end: nat) returns (r: Option<Range>)
      requires Valid() && OpenRun(View(), index, end)
      ensures r == Scan(View(), index)
    {
      ghost var t := View();
      if end == 0 {
        ScanIs(t, index, Range(0, 0, false));
        return Some(Range(0, 0, false));
      }
      if index == 0 {
        ScanIs(t, index, Range(0, end, false));
        return Some(Range(0, end, false));
      }
      var start := index;
      var next := start - 1;
      while true
        invariant 0 < start <= index && next == start - 1 && OpenRun(t, start, end)
        decreases start
      {
        match dataStatus[next]
        case NotDataComplete =>
          if alreadyDeshredded[next] {
            LeftWalkBlocked(t, index, next);
            return None;
          }
          if next == 0 {
            ScanIs(t, index, Range(0, end, false));
            return Some(Range(0, end, false));
          }
          start := next;
          next := next - 1;
        case DataComplete =>
          ScanIs(t, index, Range(start, end, false));
          return Some(Range(start, end, false));
        case Unknown =>
          ScanIs(t, index, Range(start, end, true));
          return Some(Range(start, end, true));
      }
    }

    /** Marks the shreds stored at an emitted range, and their FEC sets, as done. */
    method MarkDeshredded(start: nat, end: nat)
      requires Valid() && start <= end < MAX_DATA_SHREDS_PER_SLOT
      modifies alreadyRecoveredFecSets, alreadyDeshredded
      ensures View() == Mark(old(View()), start, end)
    {
      ghost var t := View();
      MarkNothing(t, start);
      for at := start to end + 1
        invariant View() == Mark(t, start, at - 1)
      {
        var stored := dataShreds[at];
        if stored.Some? {
          MarkTakes(t, start, at);
          alreadyRecoveredFecSets[stored.value.fecSet] := true;
          alreadyDeshredded[stored.value.index] := true;
        } else {
          MarkSkips(t, start, at);
        }
      }
    }
  }
}
