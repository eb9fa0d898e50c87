/**
 Accounting for one FEC set: the fold over the hash set of held shreds that decides
 whether recovery is worth trying, and the order in which shreds are handed to it.
 */
module FecSets {
  import opened Shreds

  /** What a pass over the held shreds of a FEC set learns. */
  datatype FecInfo = FecInfo(expectedData: U16, expectedCoding: U16, data: U16, coding: U16)

  /** One step of the pass, in 16-bit arithmetic. */
  function Count(info: FecInfo, shred: Shred): FecInfo {
    match shred
    case Code(_, _, _, numData, numCoding, _) =>
      info.(coding := (info.coding + 1) % 0x1_0000, expectedData := numData, expectedCoding := numCoding)
    case Data(_, index, fecSet, _, _, _) =>
      var counted := info.(data := (info.data + 1) % 0x1_0000);
      if info.expectedData == 0 && shred.EndsSegment()
      then counted.(expectedData := ((index - fecSet) % 0x1_0000 + 1) % 0x1_0000)
      else counted
  }

  function InfoOf(shreds: seq<Shred>): FecInfo {
    if shreds == [] then FecInfo(0, 0, 0, 0)
    else Count(InfoOf(shreds[..|shreds| - 1]), shreds[|shreds| - 1])
  }

  ghost function DataIn(held: set<Shred>): set<Shred> { set shred | shred in held && shred.Data? }

  ghost function CodeIn(held: set<Shred>): set<Shred> { set shred | shred in held && shred.Code? }

  /** The pass computes the fold over the iteration order it is given. */
  method GetDataShredInfo(shreds: seq<Shred>)
    returns (expectedData: U16, expectedCoding: U16, data: U16, coding: U16)
    ensures FecInfo(expectedData, expectedCoding, data, coding) == InfoOf(shreds)
  {
    expectedData, expectedCoding, data, coding := 0, 0, 0, 0;
    for i := 0 to |shreds|
      invariant FecInfo(expectedData, expectedCoding, data, coding) == InfoOf(shreds[..i])
    {
      assert shreds[..i + 1][..i] == shreds[..i];
      match shreds[i] {
        case Code(_, _, _, numData, numCoding, _) =>
          coding := (coding + 1) % 0x1_0000;
          expectedData := numData;
          expectedCoding := numCoding;
        case Data(_, index, fecSet, _, _, _) =>
          data := (data + 1) % 0x1_0000;
          if expectedData == 0 && shreds[i].EndsSegment() {
            expectedData := ((index - fecSet) % 0x1_0000 + 1) % 0x1_0000;
          }
      }
    }
    assert shreds[..|shreds|] == shreds;
  }

  /**
   The shreds are genuine members of one FEC set with `k` data and `m` coding shreds:
   coding headers agree, and a data shred that closes a segment is the last of the set.
   */
  ghost predicate Uniform(held: set<Shred>, fecSet: Index, k: nat, m: nat) {
    && 0 < k < 0x1_0000 && m < 0x1_0000
    && |DataIn(held)| < 0x1_0000 && |CodeIn(held)| < 0x1_0000
    && (forall shred :: shred in held && shred.Code? ==> shred.numData == k && shred.numCoding == m)
    && (forall shred :: shred in held && shred.Data? && (shred.dataComplete || shred.lastInSlot) ==>
          shred.index == fecSet + k - 1 && shred.fecSet == fecSet)
  }

  /** The answer the pass ought to give, with no reference to an iteration order. */
  ghost function UniformInfo(held: set<Shred>, k: nat, m: nat): FecInfo
    requires k < 0x1_0000 && m < 0x1_0000
    requires |DataIn(held)| < 0x1_0000 && |CodeIn(held)| < 0x1_0000
  {
    FecInfo(
      if exists shred :: shred in held && (shred.Code? || shred.dataComplete || shred.lastInSlot) then k else 0,
      if CodeIn(held) != {} then m else 0,
      |DataIn(held)|,
      |CodeIn(held)|)
  }

  lemma EnumeratesPrefix(shreds: seq<Shred>, held: set<Shred>)
    requires Enumerates(shreds, held) && shreds != []
    ensures var last := shreds[|shreds| - 1];
            last in held && Enumerates(shreds[..|shreds| - 1], held - {last})
  {
    var rest, last := shreds[..|shreds| - 1], shreds[|shreds| - 1];
    assert shreds == rest + [last];
    assert multiset(shreds)[last] >= 1;
    assert multiset(rest) == multiset(shreds) - multiset{last};
    assert multiset(held - {last}) == multiset(held) - multiset{last};
  }

  lemma PartsWithout(held: set<Shred>, last: Shred)
    requires last in held
    ensures last.Data? ==> |DataIn(held)| == |DataIn(held - {last})| + 1 && CodeIn(held) == CodeIn(held - {last})
    ensures last.Code? ==> |CodeIn(held)| == |CodeIn(held - {last})| + 1 && DataIn(held) == DataIn(held - {last})
  {
    if last.Data? {
      assert DataIn(held) == DataIn(held - {last}) + {last};
      assert CodeIn(held) == CodeIn(held - {last});
    } else {
      assert CodeIn(held) == CodeIn(held - {last}) + {last};
      assert DataIn(held) == DataIn(held - {last});
    }
  }

  /** Counting one more coding shred of a genuine set. */
  lemma CountCode(held: set<Shred>, last: Shred, fecSet: Index, k: nat, m: nat)
    requires last in held && last.Code? && Uniform(held, fecSet, k, m) && Uniform(held - {last}, fecSet, k, m)
    ensures Count(UniformInfo(held - {last}, k, m), last) == UniformInfo(held, k, m)
  {
    PartsWithout(held, last);
    assert last in CodeIn(held);
  }

  /** Counting one more data shred of a genuine set. */
  lemma CountData(held: set<Shred>, last: Shred, fecSet: Index, k: nat, m: nat)
    requires last in held && last.Data? && Uniform(held, fecSet, k, m) && Uniform(held - {last}, fecSet, k, m)
    ensures Count(UniformInfo(held - {last}, k, m), last) == UniformInfo(held, k, m)
  {
    PartsWithout(held, last);
    var rest := held - {last};
    assert forall shred :: shred in held <==> shred in rest || shred == last;
  }

  lemma UniformPart(held: set<Shred>, last: Shred, fecSet: Index, k: nat, m: nat)
    requires last in held && Uniform(held, fecSet, k, m)
    ensures Uniform(held - {last}, fecSet, k, m)
  {
    PartsWithout(held, last);
  }

  /**
   For a genuine FEC set the order-sensitive fold does not depend on the order: every
   iteration of the hash set gives the same answer, which names `k` or nothing.
   */
  lemma {:induction false} InfoIgnoresOrder(shreds: seq<Shred>, held: set<Shred>, fecSet: Index, k: nat, m: nat)
    requires Enumerates(shreds, held) && Uniform(held, fecSet, k, m)
    ensures InfoOf(shreds) == UniformInfo(held, k, m)
    decreases |shreds|
  {
    if shreds == [] {
      EnumeratesFacts(shreds, held);
      assert held == {};
      assert DataIn(held) == {} && CodeIn(held) == {};
    } else {
      var rest, last := shreds[..|shreds| - 1], shreds[|shreds| - 1];
      EnumeratesPrefix(shreds, held);
      UniformPart(held, last, fecSet, k, m);
      InfoIgnoresOrder(rest, held - {last}, fecSet, k, m);
      if last.Code? {
        CountCode(held, last, fecSet, k, m);
      } else {
        CountData(held, last, fecSet, k, m);
      }
    }
  }

  // ----- the pass on any shreds whatever -----

  ghost function DataAt(shreds: seq<Shred>): set<int> { set i | 0 <= i < |shreds| && shreds[i].Data? }

  ghost function CodeAt(shreds: seq<Shred>): set<int> { set i | 0 <= i < |shreds| && shreds[i].Code? }

  lemma CountNext(n: nat)
    ensures (n % 0x1_0000 + 1) % 0x1_0000 == (n + 1) % 0x1_0000
  {
  }

  lemma PositionsStep(shreds: seq<Shred>)
    requires shreds != []
    ensures var rest, last := shreds[..|shreds| - 1], shreds[|shreds| - 1];
            && |DataAt(shreds)| == |DataAt(rest)| + (if last.Data? then 1 else 0)
            && |CodeAt(shreds)| == |CodeAt(rest)| + (if last.Code? then 1 else 0)
  {
    var rest, last := shreds[..|shreds| - 1], |shreds| - 1;
    if shreds[last].Data? {
      assert DataAt(shreds) == DataAt(rest) + {last} && CodeAt(shreds) == CodeAt(rest);
    } else {
      assert CodeAt(shreds) == CodeAt(rest) + {last} && DataAt(shreds) == DataAt(rest);
    }
  }

  /** One more shred brings both counters up to date. */
  lemma CountedNext(info: FecInfo, shred: Shred, data: nat, coding: nat)
    requires info.data == data % 0x1_0000 && info.coding == coding % 0x1_0000
    ensures Count(info, shred).data == (if shred.Data? then data + 1 else data) % 0x1_0000
    ensures Count(info, shred).coding == (if shred.Code? then coding + 1 else coding) % 0x1_0000
  {
    CountNext(data);
    CountNext(coding);
  }

  /** Every shred is counted, as data or as coding, up to the width of the counters. */
  lemma {:induction false} InfoCounts(shreds: seq<Shred>)
    ensures InfoOf(shreds).data == |DataAt(shreds)| % 0x1_0000
    ensures InfoOf(shreds).coding == |CodeAt(shreds)| % 0x1_0000
  {
    if shreds == [] {
      assert DataAt(shreds) == {} && CodeAt(shreds) == {};
    } else {
      var rest, last := shreds[..|shreds| - 1], shreds[|shreds| - 1];
      InfoCounts(rest);
      PositionsStep(shreds);
      CountedNext(InfoOf(rest), last, |DataAt(rest)|, |CodeAt(rest)|);
    }
  }

  /** The coding shred met last decides both sizes, whatever else was met. */
  lemma {:induction false} LastCodeDecides(shreds: seq<Shred>, i: nat)
    requires i < |shreds| && shreds[i].Code? && forall j :: i < j < |shreds| ==> shreds[j].Data?
    ensures InfoOf(shreds).expectedCoding == shreds[i].numCoding
    ensures shreds[i].numData != 0 ==> InfoOf(shreds).expectedData == shreds[i].numData
    decreases |shreds|
  {
    var rest := shreds[..|shreds| - 1];
    if i < |rest| {
      LastCodeDecides(rest, i);
    }
  }

  /** Without coding shreds, the closing shred met first decides the number of data shreds. */
  lemma {:induction false} FirstCloserDecides(shreds: seq<Shred>, i: nat)
    requires i < |shreds| && forall j :: 0 <= j < |shreds| ==> shreds[j].Data?
    requires shreds[i].dataComplete || shreds[i].lastInSlot
    requires forall j :: 0 <= j < i ==> !shreds[j].dataComplete && !shreds[j].lastInSlot
    requires shreds[i].index >= shreds[i].fecSet
    ensures InfoOf(shreds).expectedData == shreds[i].index - shreds[i].fecSet + 1
    decreases |shreds|
  {
    var rest := shreds[..|shreds| - 1];
    if i < |rest| {
      FirstCloserDecides(rest, i);
    } else {
      NothingDecides(rest);
    }
  }

  lemma {:induction false} NothingDecides(shreds: seq<Shred>)
    requires forall j :: 0 <= j < |shreds| ==> shreds[j].Data? && !shreds[j].dataComplete && !shreds[j].lastInSlot
    ensures InfoOf(shreds).expectedData == 0
  {
    if shreds != [] {
      NothingDecides(shreds[..|shreds| - 1]);
    }
  }

  // ----- the counts of a held set -----

  /** Every held shred is counted once, as data or as coding. */
  lemma CountsAddUp(held: set<Shred>)
    ensures |DataIn(held)| + |CodeIn(held)| == |held|
  {
    assert held == DataIn(held) + CodeIn(held);
    assert DataIn(held) !! CodeIn(held);
  }

  // ----- the order in which shreds are handed to recovery -----

  /** Data shreds come first; within a kind, lower indexes come first. */
  predicate Before(a: Shred, b: Shred) {
    (a.Data? && b.Code?) || (a.Data? == b.Data? && a.index < b.index)
  }

  function InsertSorted(sorted: seq<Shred>, shred: Shred): seq<Shred> {
    if sorted == [] then [shred]
    else if Before(shred, sorted[|sorted| - 1])
    then InsertSorted(sorted[..|sorted| - 1], shred) + [sorted[|sorted| - 1]]
    else sorted + [shred]
  }

  /** A stable sort by kind and index. */
  function SortForRecovery(shreds: seq<Shred>): seq<Shred> {
    if shreds == [] then []
    else InsertSorted(SortForRecovery(shreds[..|shreds| - 1]), shreds[|shreds| - 1])
  }

  ghost predicate Ascending(shreds: seq<Shred>) {
    forall i, j :: 0 <= i < j < |shreds| ==> !Before(shreds[j], shreds[i])
  }

  lemma {:induction false} InsertSortedPermutes(sorted: seq<Shred>, shred: Shred)
    ensures multiset(InsertSorted(sorted, shred)) == multiset(sorted) + multiset{shred}
  {
    if sorted != [] && Before(shred, sorted[|sorted| - 1]) {
      InsertSortedPermutes(sorted[..|sorted| - 1], shred);
      assert sorted == sorted[..|sorted| - 1] + [sorted[|sorted| - 1]];
    }
  }

  lemma {:induction false} InsertSortedAscends(sorted: seq<Shred>, shred: Shred)
    requires Ascending(sorted)
    ensures Ascending(InsertSorted(sorted, shred))
  {
    if sorted != [] && Before(shred, sorted[|sorted| - 1]) {
      var rest, last := sorted[..|sorted| - 1], sorted[|sorted| - 1];
      InsertSortedAscends(rest, shred);
      InsertSortedPermutes(rest, shred);
      var inserted := InsertSorted(rest, shred);
      forall i | 0 <= i < |inserted|
        ensures !Before(last, inserted[i])
      {
        assert inserted[i] in multiset(rest) + multiset{shred};
      }
    }
  }

  lemma AscendingByKind(shreds: seq<Shred>, i: nat, j: nat)
    requires Ascending(shreds) && i < j < |shreds|
    ensures shreds[i].Code? ==> shreds[j].Code?
    ensures shreds[i].Data? == shreds[j].Data? ==> shreds[i].index <= shreds[j].index
  {
    assert !Before(shreds[j], shreds[i]);
  }

  /** Recovery is handed exactly the held shreds: data before coding, and each kind by index. */
  lemma {:induction false} SortForRecoveryKeeps(shreds: seq<Shred>)
    ensures Ascending(SortForRecovery(shreds))
    ensures multiset(SortForRecovery(shreds)) == multiset(shreds)
    ensures var sorted := SortForRecovery(shreds);
            forall i, j :: 0 <= i < j < |sorted| ==>
              && (sorted[i].Code? ==> sorted[j].Code?)
              && (sorted[i].Data? == sorted[j].Data? ==> sorted[i].index <= sorted[j].index)
  {
    if shreds != [] {
      var rest, last := shreds[..|shreds| - 1], shreds[|shreds| - 1];
      SortForRecoveryKeeps(rest);
      InsertSortedAscends(SortForRecovery(rest), last);
      InsertSortedPermutes(SortForRecovery(rest), last);
      assert shreds == rest + [last];
      var sorted := SortForRecovery(shreds);
      forall i, j | 0 <= i < j < |sorted|
        ensures sorted[i].Code? ==> sorted[j].Code?
        ensures sorted[i].Data? == sorted[j].Data? ==> sorted[i].index <= sorted[j].index
      {
        AscendingByKind(sorted, i, j);
      }
    }
  }
}
