/** The part of the container metadata the data source consumes: sequence-number
    allocation, truncation bookkeeping and per-segment metadata lookup. Only what the data
    source's call sites rely on is modelled. */
module Metadata {
  import opened Common

  /** Length, storage length and start offset of a segment, as read by getAppendData. */
  datatype SegmentMetadata = SegmentMetadata(length: int, storageLength: int, startOffset: int)

  /** The truncation markers that survive removal up to `upTo`: those numbered after it. */
  function MarkersAfter(markers: map<int, int>, upTo: int): map<int, int>
  {
    map k | k in markers && upTo < k :: markers[k]
  }

  /** Removing the markers up to the same point twice removes nothing more. */
  lemma MarkersAfterIdempotent(markers: map<int, int>, upTo: int)
    ensures MarkersAfter(MarkersAfter(markers, upTo), upTo) == MarkersAfter(markers, upTo)
  {
    var once := MarkersAfter(markers, upTo);
    assert MarkersAfter(once, upTo).Keys == once.Keys;
  }

  class ContainerMetadata {
    /** The last sequence number handed out. */
    var operationSequenceNumber: int
    /** Sequence numbers acknowledge may truncate up to. */
    var validTruncationPoints: set<int>
    /** Truncation markers: sequence number to log address. */
    var truncationMarkers: map<int, int>
    /** Segment metadata by segment id; segments are created and changed by the metadata's owner. */
    var segments: map<int, SegmentMetadata>

    constructor (operationSequenceNumber: int, segments: map<int, SegmentMetadata>)
      ensures this.operationSequenceNumber == operationSequenceNumber && this.segments == segments
      ensures validTruncationPoints == {} && truncationMarkers == map[]
    {
      this.operationSequenceNumber := operationSequenceNumber;
      this.segments := segments;
      validTruncationPoints := {};
      truncationMarkers := map[];
    }

    /** Allocates the next sequence number. */
    method NextOperationSequenceNumber() returns (n: int)
      modifies this
      ensures n == old(operationSequenceNumber) + 1 && operationSequenceNumber == n
      ensures validTruncationPoints == old(validTruncationPoints)
      ensures truncationMarkers == old(truncationMarkers) && segments == old(segments)
    {
      operationSequenceNumber := operationSequenceNumber + 1;
      n := operationSequenceNumber;
    }

    method RecordTruncationMarker(sequenceNumber: int, address: int)
      modifies this
      ensures truncationMarkers == old(truncationMarkers)[sequenceNumber := address]
      ensures operationSequenceNumber == old(operationSequenceNumber)
      ensures validTruncationPoints == old(validTruncationPoints) && segments == old(segments)
    {
      truncationMarkers := truncationMarkers[sequenceNumber := address];
    }

    method SetValidTruncationPoint(sequenceNumber: int)
      modifies this
      ensures validTruncationPoints == old(validTruncationPoints) + {sequenceNumber}
      ensures operationSequenceNumber == old(operationSequenceNumber)
      ensures truncationMarkers == old(truncationMarkers) && segments == old(segments)
    {
      validTruncationPoints := validTruncationPoints + {sequenceNumber};
    }

    /** Drops every truncation marker at or before `upTo`; later markers are kept. */
    method RemoveTruncationMarkers(upTo: int)
      modifies this
      ensures truncationMarkers == MarkersAfter(old(truncationMarkers), upTo)
      ensures operationSequenceNumber == old(operationSequenceNumber)
      ensures validTruncationPoints == old(validTruncationPoints) && segments == old(segments)
    {
      truncationMarkers := MarkersAfter(truncationMarkers, upTo);
    }

    predicate IsValidTruncationPoint(sequenceNumber: int)
      reads this
    {
      sequenceNumber in validTruncationPoints
    }

    /** getStreamSegmentMetadata: None stands for Java's null. */
    function GetStreamSegmentMetadata(segmentId: int): Option<SegmentMetadata>
      reads this
    {
      Lookup(segments, segmentId)
    }
  }
}
