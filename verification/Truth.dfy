/**
 What a well-behaved leader sends: the true layout of a slot, and what the erasure
 and decoding libraries promise about genuine shreds.
 */
module Truth {
  import opened Options
  import opened Shreds
  import opened Reassembly

  /** A FEC set: how many data shreds it spans, and its coding shreds. */
  datatype FecTruth = FecTruth(k: nat, code: set<Shred>)

  /** The one true content of a slot: its data shreds in order, and its FEC sets by first index. */
  datatype SlotTruth = SlotTruth(slot: nat, data: seq<Shred>, fecs: map<nat, FecTruth>)

  /** The header of a data shred says that it is the last of a segment, or of the slot. */
  ghost predicate Closes(shred: Shred) {
    shred.Data? && (shred.dataComplete || shred.lastInSlot)
  }

  /** The data shred at a position lies in its FEC set, and closes a segment only as the set's last. */
  ghost predicate DataInPlace(truth: SlotTruth, i: nat)
    requires i < |truth.data|
  {
    var shred := truth.data[i];
    && shred.Data? && shred.slot == truth.slot && shred.index == i && shred.fecSet in truth.fecs
    && shred.fecSet <= i < shred.fecSet + truth.fecs[shred.fecSet].k
    && (Closes(shred) ==> i + 1 == shred.fecSet + truth.fecs[shred.fecSet].k)
  }

  /** A coding shred states the size of its set. */
  ghost predicate CodeInPlace(truth: SlotTruth, fecSet: nat, shred: Shred)
    requires fecSet in truth.fecs
  {
    && shred.Code? && shred.slot == truth.slot && shred.fecSet == fecSet
    && shred.numData == truth.fecs[fecSet].k && shred.numCoding == |truth.fecs[fecSet].code|
  }

  ghost predicate FecInPlace(truth: SlotTruth, fecSet: nat)
    requires fecSet in truth.fecs
  {
    var fec := truth.fecs[fecSet];
    && 0 < fec.k && fecSet + fec.k <= |truth.data| && |fec.code| < 0x1_0000
    && (forall j :: fecSet <= j < fecSet + fec.k ==> truth.data[j].fecSet == fecSet)
    && (forall shred :: shred in fec.code ==> CodeInPlace(truth, fecSet, shred))
  }

  /** FEC sets tile the data positions of the slot. */
  ghost predicate Tiled(truth: SlotTruth) {
    && |truth.data| <= MAX_DATA_SHREDS_PER_SLOT
    && (forall i: nat :: i < |truth.data| ==> DataInPlace(truth, i))
    && (forall fecSet :: fecSet in truth.fecs ==> FecInPlace(truth, fecSet))
  }

  /**
   The index of a coding shred, read as a data index, falls in no segment but that of its own
   FEC set. The reassembler looks coding indexes up among the emitted data indexes.
   */
  ghost predicate IndexSpacesFit(truth: SlotTruth) {
    forall fecSet, shred, start, end ::
      fecSet in truth.fecs && shred in truth.fecs[fecSet].code
      && TrueSegment(truth, start, end) && start <= shred.index <= end ==>
        start <= fecSet <= end
  }

  ghost predicate HonestLayout(truth: SlotTruth) {
    Tiled(truth) && IndexSpacesFit(truth)
  }

  /** The shred is one the leader made for this slot. */
  ghost predicate Genuine(truth: SlotTruth, shred: Shred) {
    && shred.slot == truth.slot && shred.fecSet in truth.fecs
    && (shred.Data? ==> shred.index < |truth.data| && shred == truth.data[shred.index])
    && (shred.Code? ==> shred in truth.fecs[shred.fecSet].code)
  }

  /** A true segment: it starts after the previous closing shred and ends at the next one. */
  ghost predicate TrueSegment(truth: SlotTruth, start: int, end: int) {
    && 0 <= start <= end < |truth.data|
    && Closes(truth.data[end])
    && (forall j :: start <= j < end ==> !Closes(truth.data[j]))
    && (start > 0 ==> Closes(truth.data[start - 1]))
  }

  /** Data shreds come before coding shreds, and each kind comes by index. */
  ghost predicate DataFirst(input: seq<Shred>) {
    forall i, j :: 0 <= i < j < |input| ==>
      && (input[i].Code? ==> input[j].Code?)
      && (input[i].Data? == input[j].Data? ==> input[i].index <= input[j].index)
  }

  /** Enough distinct genuine shreds of one FEC set to recover it, a coding shred among them, in order. */
  ghost predicate Recoverable(truth: SlotTruth, fecSet: nat, input: seq<Shred>) {
    && fecSet in truth.fecs
    && |input| >= truth.fecs[fecSet].k && DataFirst(input)
    && (forall shred :: multiset(input)[shred] <= 1)
    && (forall shred :: shred in input ==> Genuine(truth, shred) && shred.fecSet == fecSet)
    && (exists shred :: shred in input && shred.Code?)
  }

  /** Recovery gives every missing data shred, and nothing but genuine shreds of the set. */
  ghost predicate Recovers(truth: SlotTruth, fecSet: nat, input: seq<Shred>, result: Option<seq<Option<Shred>>>)
    requires Tiled(truth) && fecSet in truth.fecs
  {
    && result.Some?
    && (forall j :: fecSet <= j < fecSet + truth.fecs[fecSet].k && truth.data[j] !in input ==>
          Some(truth.data[j]) in result.value)
    && (forall offer :: offer in result.value && offer.Some? ==>
          Genuine(truth, offer.value) && offer.value.fecSet == fecSet)
  }

  ghost predicate RecoveryWorks(codec: Codec, truth: SlotTruth)
    requires Tiled(truth)
  {
    forall fecSet, input :: Recoverable(truth, fecSet, input) ==>
      Recovers(truth, fecSet, input, codec.recover(input))
  }

  ghost function TruePayloads(truth: SlotTruth, start: nat, end: nat): seq<Bytes>
    requires start <= end < |truth.data|
  {
    seq(end + 1 - start, i requires 0 <= i < end + 1 - start => truth.data[start + i].payload)
  }

  /** The payloads deshred to bytes, and the bytes deserialize to entries. */
  ghost predicate Decodable(codec: Codec, payloads: seq<Bytes>) {
    codec.deshred(payloads).Some? && codec.deserialize(codec.deshred(payloads).value).Some?
  }

  /** The content is what the libraries make of the payloads: all of the bytes, and all of their entries. */
  ghost predicate DecodesTo(codec: Codec, payloads: seq<Bytes>, content: Decoded) {
    && codec.deshred(payloads) == Some(content.bytes)
    && codec.deserialize(content.bytes) == Some(content.entries)
  }

  /** Decoding succeeds on a whole true segment. */
  ghost predicate SegmentsDecode(codec: Codec, truth: SlotTruth) {
    forall start: nat, end: nat :: TrueSegment(truth, start, end) ==>
      Decodable(codec, TruePayloads(truth, start, end))
  }

  /** Decoding fails on a proper suffix of a true segment that still holds the segment's last FEC set. */
  ghost predicate SuffixesFail(codec: Codec, truth: SlotTruth) {
    forall start: nat, end: nat, from: nat ::
      TrueSegment(truth, start, end) && start < from <= end && from <= truth.data[end].fecSet ==>
        !Decodable(codec, TruePayloads(truth, from, end))
  }

  /** What ingest and recovery rely on. */
  ghost predicate Repairable(codec: Codec, truth: SlotTruth) {
    HonestLayout(truth) && RecoveryWorks(codec, truth)
  }

  ghost predicate Honest(codec: Codec, truth: SlotTruth) {
    Repairable(codec, truth) && SegmentsDecode(codec, truth) && SuffixesFail(codec, truth)
  }

  // ----- segments against FEC sets -----

  /** A segment starts where a FEC set starts. */
  lemma SegmentStartsSet(truth: SlotTruth, start: int, end: int)
    requires Tiled(truth) && TrueSegment(truth, start, end)
    ensures truth.data[start].fecSet == start
  {
    assert DataInPlace(truth, start);
    assert FecInPlace(truth, truth.data[start].fecSet);
    assert start > 0 ==> DataInPlace(truth, start - 1);
  }

  /** A segment is a union of whole FEC sets: the set of each of its positions lies within it. */
  lemma SegmentHoldsSets(truth: SlotTruth, start: int, end: int, i: int)
    requires Tiled(truth) && TrueSegment(truth, start, end) && start <= i <= end
    ensures truth.data[i].fecSet in truth.fecs
    ensures start <= truth.data[i].fecSet
    ensures truth.data[i].fecSet + truth.fecs[truth.data[i].fecSet].k <= end + 1
  {
    assert DataInPlace(truth, i) && DataInPlace(truth, end) && DataInPlace(truth, start);
    SegmentStartsSet(truth, start, end);
    var fecSet := truth.data[i].fecSet;
    assert FecInPlace(truth, fecSet);
    assert fecSet <= start ==> truth.data[start].fecSet == fecSet;
    assert end < fecSet + truth.fecs[fecSet].k ==> truth.data[end].fecSet == fecSet;
  }

  /** No FEC set of a segment starts after its last one. */
  lemma SetBeforeLast(truth: SlotTruth, start: int, end: int, fecSet: nat)
    requires Tiled(truth) && TrueSegment(truth, start, end) && start <= fecSet <= end && fecSet in truth.fecs
    ensures fecSet <= truth.data[end].fecSet <= end
  {
    assert FecInPlace(truth, fecSet) && DataInPlace(truth, end);
    assert FecInPlace(truth, truth.data[end].fecSet);
    assert truth.data[fecSet].fecSet == fecSet;
  }

  /** Segments do not overlap. */
  lemma SegmentsCoincide(truth: SlotTruth, s: int, e: int, t: int, f: int)
    requires TrueSegment(truth, s, e) && TrueSegment(truth, t, f)
    requires s <= f && t <= e
    ensures s == t && e == f
  {
    assert e >= f && f >= e;
    assert s > 0 ==> Closes(truth.data[s - 1]);
    assert t > 0 ==> Closes(truth.data[t - 1]);
  }

  /** Every closing shred ends exactly one segment. */
  lemma {:induction false} SegmentEndingAt(truth: SlotTruth, from: int, end: int) returns (start: int)
    requires 0 <= from <= end < |truth.data| && Closes(truth.data[end])
    requires forall j :: from <= j < end ==> !Closes(truth.data[j])
    ensures start <= from && TrueSegment(truth, start, end)
    decreases from
  {
    if from == 0 || Closes(truth.data[from - 1]) {
      start := from;
    } else {
      start := SegmentEndingAt(truth, from - 1, end);
    }
  }
}
