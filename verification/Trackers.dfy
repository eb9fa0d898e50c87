/**
 The per-slot tracker as a value: which data positions are known, which FEC sets
 are finished and which positions have been emitted. It gives the meaning of
 `update_state_tracker`, `get_indexes` and the marking of an emitted range.
 */
module Trackers {
  import opened Options
  import opened Shreds

  datatype ShredStatus = Unknown | NotDataComplete | DataComplete

  datatype Vectors = Vectors(
    status: seq<ShredStatus>,
    shreds: seq<Option<Shred>>,
    recovered: seq<bool>,
    deshredded: seq<bool>)
  {
    predicate FullLength() {
      |status| == |shreds| == |recovered| == |deshredded| == MAX_DATA_SHREDS_PER_SLOT
    }
  }

  type Tracker = v: Vectors | v.FullLength() ghost witness EmptyVectors()

  function EmptyVectors(): (v: Vectors)
    ensures v.FullLength()
  {
    var n := MAX_DATA_SHREDS_PER_SLOT;
    Vectors(seq(n, _ => Unknown), seq(n, _ => None), seq(n, _ => false), seq(n, _ => false))
  }

  function Empty(): (t: Tracker) { EmptyVectors() }

  ghost predicate Known(t: Tracker, i: int) {
    0 <= i < MAX_DATA_SHREDS_PER_SLOT && t.status[i] != Unknown
  }

  function StatusOf(shred: Shred): ShredStatus {
    if shred.EndsSegment() then DataComplete else NotDataComplete
  }

  /** The redundant vectors agree, position by position. */
  ghost predicate Agree(t: Tracker) {
    && (forall i: Index :: t.status[i] == Unknown <==> t.shreds[i] == None)
    && (forall i: Index :: t.shreds[i].Some? ==>
          t.shreds[i].value.Data? && t.shreds[i].value.index == i
          && t.status[i] == StatusOf(t.shreds[i].value))
    && (forall i: Index :: t.deshredded[i] ==>
          t.shreds[i].Some? && t.recovered[t.shreds[i].value.fecSet])
  }

  /** An emitted position that does not close its segment has an emitted right neighbour. */
  ghost predicate ClosedRight(t: Tracker) {
    forall i: Index :: t.deshredded[i] && t.status[i] == NotDataComplete ==>
      i + 1 < MAX_DATA_SHREDS_PER_SLOT && t.deshredded[i + 1]
  }

  /** The tracker after taking a shred, or None when the shred is turned away. */
  function Update(t: Tracker, shred: Shred): (r: Option<Tracker>) {
    if t.recovered[shred.fecSet] then None
    else if shred.Data? && (t.shreds[shred.index].Some? || t.status[shred.index] != Unknown) then None
    else if shred.Data? then
      Some(t.(shreds := t.shreds[shred.index := Some(shred)],
              status := t.status[shred.index := StatusOf(shred)]))
    else Some(t)
  }

  /** A data shred that is taken is stored, and its flags alone decide whether it closes a segment. */
  lemma TakenStatus(t: Tracker, shred: Shred)
    requires shred.Data? && Update(t, shred).Some?
    ensures var u := Update(t, shred).value;
            && u.shreds[shred.index] == Some(shred)
            && u.status[shred.index] == if shred.dataComplete || shred.lastInSlot then DataComplete else NotDataComplete
  {
  }

  // ----- the boundary scan -----

  /** An inclusive range of positions, and whether its left neighbour is unknown. */
  datatype Range = Range(start: nat, end: nat, unknownStart: bool)

  /** No position of the range is unknown or emitted, and only the last one closes a segment. */
  ghost predicate OpenRun(t: Tracker, start: int, end: int) {
    && 0 <= start <= end < MAX_DATA_SHREDS_PER_SLOT
    && t.status[end] == DataComplete
    && (forall j: Index :: start <= j < end ==> t.status[j] == NotDataComplete)
    && (forall j: Index :: start <= j <= end ==> !t.deshredded[j])
  }

  /**
   The declarative scan rule: the range around `index` ends at the first
   DataComplete at or after it, holds no unknown or emitted position, and reaches
   as far left as NotDataComplete positions go.
   */
  ghost predicate IsRange(t: Tracker, index: int, r: Range) {
    && r.start <= index <= r.end
    && OpenRun(t, r.start, r.end)
    && (r.start > 0 ==> t.status[r.start - 1] != NotDataComplete)
    && r.unknownStart == (r.start > 0 && t.status[r.start - 1] == Unknown)
  }

  ghost function Scan(t: Tracker, index: int): (r: Option<Range>)
    ensures r.Some? ==> IsRange(t, index, r.value)
    ensures r.None? ==> forall other :: !IsRange(t, index, other)
  {
    if range :| IsRange(t, index, range) then Some(range) else None
  }

  /** Two ranges of one tracker that share a position are the same range. */
  lemma RangesCoincide(t: Tracker, i: int, j: int, p: Range, q: Range)
    requires IsRange(t, i, p) && IsRange(t, j, q)
    requires p.start <= q.end && q.start <= p.end
    ensures p == q
  {
    assert p.end >= q.end && q.end >= p.end;
    assert p.start > 0 ==> t.status[p.start - 1] != NotDataComplete;
    assert q.start > 0 ==> t.status[q.start - 1] != NotDataComplete;
    assert p.start >= q.start && q.start >= p.start;
  }

  lemma ScanIs(t: Tracker, index: int, r: Range)
    requires IsRange(t, index, r)
    ensures Scan(t, index) == Some(r)
  {
    RangesCoincide(t, index, index, Scan(t, index).value, r);
  }

  /** Every position of a scanned range scans to that same range. */
  lemma SegmentCoherence(t: Tracker, i: int, j: int)
    requires Scan(t, i).Some?
    requires Scan(t, i).value.start <= j <= Scan(t, i).value.end
    ensures Scan(t, j) == Scan(t, i)
  {
    ScanIs(t, j, Scan(t, i).value);
  }

  /** Any two successful scans of one tracker are equal or disjoint. */
  lemma ScansEqualOrDisjoint(t: Tracker, i: int, j: int)
    requires Scan(t, i).Some? && Scan(t, j).Some?
    ensures var p, q := Scan(t, i).value, Scan(t, j).value;
            p == q || p.end < q.start || q.end < p.start
  {
    var p, q := Scan(t, i).value, Scan(t, j).value;
    if p.start <= q.end && q.start <= p.end {
      RangesCoincide(t, i, j, p, q);
    }
  }

  // ----- taking shreds -----

  lemma UpdateKeeps(t: Tracker, shred: Shred)
    requires Agree(t) && ClosedRight(t) && Update(t, shred).Some?
    ensures Agree(Update(t, shred).value) && ClosedRight(Update(t, shred).value)
  {
    var u := Update(t, shred).value;
    forall i: Index | u.deshredded[i] && u.status[i] == NotDataComplete
      ensures i + 1 < MAX_DATA_SHREDS_PER_SLOT && u.deshredded[i + 1]
    {
      assert t.deshredded[i] && t.shreds[i].Some?;
    }
  }

  /** The tracker, how many shreds it took and how many of them were coding shreds. */
  datatype Absorbed = Absorbed(tracker: Tracker, count: nat, code: nat)

  function Absorb(t: Tracker, offered: seq<Option<Shred>>): (r: Absorbed)
  {
    if offered == [] then Absorbed(t, 0, 0)
    else
      var before := Absorb(t, offered[..|offered| - 1]);
      AbsorbOne(before, offered[|offered| - 1])
  }

  function AbsorbOne(a: Absorbed, offer: Option<Shred>): (r: Absorbed) {
    if offer.None? || Update(a.tracker, offer.value).None? then a
    else Absorbed(Update(a.tracker, offer.value).value, a.count + 1,
                  if offer.value.Code? then a.code + 1 else a.code)
  }

  /** `u` knows at least what `t` knows, and differs from it only in knowing more. */
  ghost predicate Extends(u: Tracker, t: Tracker) {
    && u.deshredded == t.deshredded
    && u.recovered == t.recovered
    && (forall i: Index :: t.status[i] != Unknown ==> u.status[i] == t.status[i] && u.shreds[i] == t.shreds[i])
  }

  /** Entries are write-once, and taking shreds keeps the vectors in agreement. */
  lemma {:induction false} AbsorbKeeps(t: Tracker, offered: seq<Option<Shred>>)
    requires Agree(t) && ClosedRight(t)
    ensures var u := Absorb(t, offered).tracker;
            Agree(u) && ClosedRight(u) && Extends(u, t)
  {
    if offered != [] {
      var rest, offer := offered[..|offered| - 1], offered[|offered| - 1];
      AbsorbKeeps(t, rest);
      var before := Absorb(t, rest);
      if offer.Some? && Update(before.tracker, offer.value).Some? {
        UpdateKeeps(before.tracker, offer.value);
      }
    }
  }

  // ----- reachable scans -----

  /** With closed trackers, an open run always grows left into a range with the same end. */
  lemma {:induction false} GrowLeft(t: Tracker, start: int, end: int) returns (r: Range)
    requires ClosedRight(t) && OpenRun(t, start, end)
    ensures IsRange(t, start, r) && r.end == end
  {
    if start == 0 || t.status[start - 1] != NotDataComplete {
      r := Range(start, end, start > 0 && t.status[start - 1] == Unknown);
    } else {
      var left: Index, here: Index := start - 1, start;
      assert !t.deshredded[here];
      assert here == left + 1 && !t.deshredded[left];
      r := GrowLeft(t, left, end);
    }
  }

  /**
   In a closed tracker the scan fails only by its right walk: the left walk never
   meets a position that was already emitted.
   */
  lemma ScanFailsOnlyRight(t: Tracker, index: int)
    requires ClosedRight(t)
    ensures Scan(t, index).Some? <==> exists end :: OpenRun(t, index, end)
  {
    if end :| OpenRun(t, index, end) {
      var r := GrowLeft(t, index, end);
    }
    if Scan(t, index).Some? {
      assert OpenRun(t, index, Scan(t, index).value.end);
    }
  }

  /** `u` stores at least what `t` stores. */
  ghost predicate StoresMore(t: Tracker, u: Tracker) {
    forall i: Index :: t.shreds[i].Some? ==> u.shreds[i] == t.shreds[i]
  }

  /** The scan from `index` found in `t` is kept in `u`, or grown to the left if its start was a guess. */
  ghost predicate ScanKept(t: Tracker, u: Tracker, index: int)
    requires Scan(t, index).Some?
  {
    var before, after := Scan(t, index).value, Scan(u, index);
    && after.Some?
    && after.value.end == before.end && after.value.start <= before.start
    && (!before.unknownStart ==> after.value == before)
  }

  /** A range stays open as long as its shreds stay and none of it is emitted. */
  lemma StaysOpen(t: Tracker, u: Tracker, start: int, end: int)
    requires Agree(t) && Agree(u) && StoresMore(t, u) && OpenRun(t, start, end)
    requires forall j: Index :: start <= j <= end ==> !u.deshredded[j]
    ensures OpenRun(u, start, end)
  {
    forall j: Index | start <= j <= end
      ensures u.status[j] == t.status[j]
    {
      assert t.shreds[j].Some?;
    }
    var last: Index := end;
    assert u.status[last] == DataComplete;
  }

  /** Storing more never takes a scan result back while the range is not emitted. */
  lemma ScanGrows(t: Tracker, u: Tracker, index: int)
    requires Agree(t) && Agree(u) && ClosedRight(u) && StoresMore(t, u) && Scan(t, index).Some?
    requires forall j: Index :: Scan(t, index).value.start <= j <= Scan(t, index).value.end ==> !u.deshredded[j]
    ensures ScanKept(t, u, index)
  {
    var before := Scan(t, index).value;
    StaysOpen(t, u, before.start, before.end);
    var r := GrowLeft(u, before.start, before.end);
    ScanIs(u, index, r);
    if !before.unknownStart {
      if before.start > 0 {
        var left: Index := before.start - 1;
        assert t.status[left] == DataComplete && t.shreds[left].Some?;
        assert u.status[left] == DataComplete;
      }
      assert IsRange(u, index, before);
      ScanIs(u, index, before);
    }
  }

  /**
   Taking more shreds never takes a scan result back: a range whose start was certain
   stays as it is, and a guessed one keeps its end and can only grow to the left.
   */
  lemma ScanMonotone(t: Tracker, offered: seq<Option<Shred>>, index: int)
    requires Agree(t) && ClosedRight(t) && Scan(t, index).Some?
    ensures ScanKept(t, Absorb(t, offered).tracker, index)
  {
    AbsorbKeeps(t, offered);
    ScanGrows(t, Absorb(t, offered).tracker, index);
  }

  /** In a closed tracker an emitted position of a range has the rest of the range emitted too. */
  lemma {:induction false} EmittedToEnd(t: Tracker, u: Tracker, start: int, i: Index, end: int)
    requires Agree(t) && Agree(u) && ClosedRight(u) && StoresMore(t, u) && OpenRun(t, start, end)
    requires start <= i <= end && u.deshredded[i]
    ensures u.deshredded[end]
    decreases end - i
  {
    if i < end {
      assert t.shreds[i].Some? && u.status[i] == NotDataComplete;
      EmittedToEnd(t, u, start, i + 1, end);
    }
  }

  // ----- marking an emitted range -----

  ghost predicate Covers(t: Tracker, start: int, end: int, i: int) {
    exists j: Index :: start <= j <= end && t.shreds[j].Some? && t.shreds[j].value.index == i
  }

  ghost predicate Touches(t: Tracker, start: int, end: int, fecSet: int) {
    exists j: Index :: start <= j <= end && t.shreds[j].Some? && t.shreds[j].value.fecSet == fecSet
  }

  /** The tracker after the shreds stored at a range are emitted. */
  ghost function Mark(t: Tracker, start: int, end: int): Tracker {
    var n := MAX_DATA_SHREDS_PER_SLOT;
    t.(deshredded := seq(n, i requires 0 <= i < n => t.deshredded[i] || Covers(t, start, end, i)),
       recovered := seq(n, f requires 0 <= f < n => t.recovered[f] || Touches(t, start, end, f)))
  }

  /** On an agreeing tracker, marking an open run marks exactly its positions and finishes its FEC sets. */
  lemma MarkExactly(t: Tracker, start: int, end: int)
    requires Agree(t) && OpenRun(t, start, end)
    ensures forall i: Index :: Mark(t, start, end).deshredded[i] <==> t.deshredded[i] || start <= i <= end
    ensures forall i: Index :: start <= i <= end ==>
              t.shreds[i].Some? && Mark(t, start, end).recovered[t.shreds[i].value.fecSet]
  {
    forall i: Index | start <= i <= end
      ensures t.shreds[i].Some?
      ensures Covers(t, start, end, i) && Touches(t, start, end, t.shreds[i].value.fecSet)
    {
      assert t.status[i] != Unknown;
    }
  }

  lemma MarkKeeps(t: Tracker, start: int, end: int)
    requires Agree(t) && ClosedRight(t) && OpenRun(t, start, end)
    ensures Agree(Mark(t, start, end)) && ClosedRight(Mark(t, start, end))
  {
    MarkExactly(t, start, end);
    var u := Mark(t, start, end);
    forall i: Index | u.deshredded[i]
      ensures u.shreds[i].Some? && u.recovered[u.shreds[i].value.fecSet]
    {
      assert t.deshredded[i] || start <= i <= end;
    }
    forall i: Index | u.deshredded[i] && u.status[i] == NotDataComplete
      ensures i + 1 < MAX_DATA_SHREDS_PER_SLOT && u.deshredded[i + 1]
    {
      if start <= i <= end {
        assert i < end;
        var next: Index := i + 1;
        assert u.deshredded[next];
      } else {
        var next: Index := i + 1;
        assert t.deshredded[next];
      }
    }
  }
}
