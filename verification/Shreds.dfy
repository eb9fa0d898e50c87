/**
 The vocabulary of shred reassembly: shreds, packets, the constants of the slot
 window, and the library calls the reassembler depends on.
 */
module Shreds {
  import opened Options

  /** Number of data positions a slot can have, and the length of every tracker vector. */
  const MAX_DATA_SHREDS_PER_SLOT: nat := 32768

  /** The slot map is pruned once it holds more entries than this. */
  const MAX_PROCESSING_AGE: nat := 150

  /** A slot this far behind the highest accepted slot no longer receives shreds. */
  const SLOT_LOOKBACK: nat := 50

  /** A position within a slot: every parsed or recovered shred stays below the vector length. */
  type Index = i: nat | i < MAX_DATA_SHREDS_PER_SLOT

  type U16 = n: nat | n < 0x1_0000

  newtype Byte = n: int | 0 <= n < 0x100

  type Bytes = seq<Byte>

  datatype Entry = Entry(body: Bytes)

  /** A parsed shred. Coding shreds carry the size of their FEC set in their header. */
  datatype Shred =
    | Data(slot: nat, index: Index, fecSet: Index, dataComplete: bool, lastInSlot: bool, payload: Bytes)
    | Code(slot: nat, index: Index, fecSet: Index, numData: U16, numCoding: U16, payload: Bytes)
  {
    /** The shred closes a segment. */
    predicate EndsSegment() {
      Data? && (dataComplete || lastInSlot)
    }
  }

  /** One packet of a batch: no readable data, bytes that are not a shred, or a shred. */
  datatype Packet = NoData | NotAShred | Parsed(shred: Shred)

  /** The library calls the reassembler makes: erasure recovery, deshredding, bincode decoding. */
  datatype Codec = Codec(
    recover: seq<Shred> -> Option<seq<Option<Shred>>>,
    deshred: seq<Bytes> -> Option<Bytes>,
    deserialize: Bytes -> Option<seq<Entry>>)

  /** The order in which the hash set held for a slot and FEC set is iterated during one batch. */
  type Order = (nat, Index, set<Shred>) -> seq<Shred>

  /** The sequence visits every member of the set exactly once. */
  ghost predicate Enumerates(shreds: seq<Shred>, members: set<Shred>) {
    multiset(shreds) == multiset(members)
  }

  ghost predicate EnumeratesSets(order: Order) {
    forall slot, fecSet, members ::
      Enumerates(order(slot, fecSet, members), members)
  }

  lemma EnumeratesFacts(shreds: seq<Shred>, members: set<Shred>)
    requires Enumerates(shreds, members)
    ensures |shreds| == |members|
    ensures forall shred :: shred in shreds <==> shred in members
  {
    assert |multiset(shreds)| == |multiset(members)|;
    forall shred
      ensures shred in shreds <==> shred in members
    {
      assert shred in shreds <==> shred in multiset(shreds);
    }
  }

  /** Some enumeration of a set. */
  ghost function Listed(members: set<Shred>): (r: seq<Shred>)
    ensures Enumerates(r, members)
  {
    if members == {} then []
    else
      var shred :| shred in members;
      assert multiset(members) == multiset(members - {shred}) + multiset{shred};
      Listed(members - {shred}) + [shred]
  }

  /** Hash sets can be iterated: an order that enumerates every set. */
  ghost function SomeOrder(): (order: Order)
    ensures EnumeratesSets(order)
  {
    (_, _, members) => Listed(members)
  }
}
