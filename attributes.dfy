/** The per-segment attribute store. A segment id is either absent from the store, or maps to
    a live (mutable) map, a sealed (unmodifiable) map, or a tombstone (Java's null value). */
module Attributes {
  import opened Common

  newtype int64 = x: int | -0x8000_0000_0000_0000 <= x < 0x8000_0000_0000_0000

  /** The sentinel value that asks persistAttributes to remove an attribute (Long.MIN_VALUE). */
  const NullAttributeValue: int64 := -0x8000_0000_0000_0000

  /** java.util.UUID: two 64-bit halves. */
  datatype Uuid = Uuid(mostSignificantBits: int64, leastSignificantBits: int64)

  datatype AttributeState =
    | Live(attributes: map<Uuid, int64>)
    | Sealed(attributes: map<Uuid, int64>)
    | Tombstoned

  /** What a reader of the segment's attributes sees: nothing for an absent or tombstoned
      segment, the map itself otherwise. */
  function Visible(s: Option<AttributeState>): map<Uuid, int64>
  {
    if s.None? || s.value.Tombstoned? then map[] else s.value.attributes
  }

  /** The merge-update rule: a delta of NullAttributeValue removes its key, any other delta
      sets it, keys without a delta keep their value. */
  function Merge(current: map<Uuid, int64>, deltas: map<Uuid, int64>): (r: map<Uuid, int64>)
    ensures forall k :: k in deltas && deltas[k] == NullAttributeValue ==> k !in r
    ensures forall k :: k in deltas && deltas[k] != NullAttributeValue ==> k in r && r[k] == deltas[k]
    ensures forall k :: k !in deltas ==> (k in r <==> k in current) && (k in r ==> r[k] == current[k])
  {
    map k | k in current.Keys + deltas.Keys && (k in deltas ==> deltas[k] != NullAttributeValue)
      :: if k in deltas then deltas[k] else current[k]
  }

  /** Merging nothing changes nothing. */
  lemma MergeNothing(current: map<Uuid, int64>)
    ensures Merge(current, map[]) == current
  {
    assert Merge(current, map[]).Keys == current.Keys;
  }

  /** Applying one more delta entry to a partial merge extends the merge by that entry: the
      step of persistAttributes' loop over the delta entries. */
  lemma MergeOneMore(current: map<Uuid, int64>, deltas: map<Uuid, int64>, pending: set<Uuid>, k: Uuid)
    requires k in pending && pending <= deltas.Keys
    ensures Merge(current, deltas - (pending - {k})) ==
      if deltas[k] == NullAttributeValue then Merge(current, deltas - pending) - {k}
      else Merge(current, deltas - pending)[k := deltas[k]]
  {
    var after := Merge(current, deltas - (pending - {k}));
    var before := Merge(current, deltas - pending);
    if deltas[k] == NullAttributeValue {
      assert after.Keys == before.Keys - {k};
    } else {
      assert after.Keys == before.Keys + {k};
    }
  }

  /** persistAttributes on the state of one segment: the new state, or the failure. A missing
      map is created live; a tombstone fails as not-exists; a sealed map refuses any delta
      (the unmodifiable map throws on the first put or remove) but accepts an empty one. */
  function Persist(s: Option<AttributeState>, deltas: map<Uuid, int64>): (r: Result<AttributeState>)
    ensures r == Failure(StreamSegmentNotExists) <==> s == Some(Tombstoned)
    ensures r == Failure(StreamSegmentSealed) <==> s.Some? && s.value.Sealed? && deltas != map[]
    ensures r.Failure? ==> r.error in {StreamSegmentNotExists, StreamSegmentSealed}
    ensures r.Success? ==> Visible(Some(r.value)) == Merge(Visible(s), deltas)
    ensures r.Success? ==> (r.value.Sealed? <==> s.Some? && s.value.Sealed?) && !r.value.Tombstoned?
  {
    match s
    case None => Success(Live(Merge(map[], deltas)))
    case Some(Tombstoned) => Failure(StreamSegmentNotExists)
    case Some(Live(m)) => Success(Live(Merge(m, deltas)))
    case Some(Sealed(m)) =>
      if deltas == map[] then MergeNothing(m); Success(Sealed(m)) else Failure(StreamSegmentSealed)
  }

  /** sealAttributes on one segment: computeIfAbsent treats both an absent key and a null
      (tombstone) value as missing, so either becomes a sealed empty map; otherwise the current
      map is frozen with every key and value it holds. */
  function Seal(s: Option<AttributeState>): (r: AttributeState)
    ensures r.Sealed? && Visible(Some(r)) == Visible(s)
  {
    var current := if s.None? || s.value.Tombstoned? then map[] else s.value.attributes;
    Sealed(current)
  }

  /** Once sealed, a segment refuses every non-empty delta until it is deleted, and sealing
      again keeps its contents. */
  lemma SealedRefusesUpdates(s: Option<AttributeState>, deltas: map<Uuid, int64>)
    ensures Persist(Some(Seal(s)), deltas) == if deltas == map[] then Success(Seal(s)) else Failure(StreamSegmentSealed)
    ensures Seal(Some(Seal(s))) == Seal(s)
  {
  }

  /** After deleteAllAttributes every persist fails as not-exists, whatever the deltas, and a
      later seal revives the segment as sealed and empty. */
  lemma TombstoneRefusesUpdates(deltas: map<Uuid, int64>)
    ensures Persist(Some(Tombstoned), deltas) == Failure(StreamSegmentNotExists)
    ensures Seal(Some(Tombstoned)) == Sealed(map[])
  {
  }
}
