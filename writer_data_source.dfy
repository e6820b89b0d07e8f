/** The in-memory Writer data source: a sequenced operation log with checkpoint bookkeeping,
    two single-slot waiters, the per-segment attribute store, the per-segment append
    reconstruction stores, and an open/closed lifecycle. Asynchronous completions are modelled
    as taking effect when the call is made. */
module Writer {
  import opened Common
  import opened OperationLog
  import opened Metadata
  import opened Attributes
  import opened AppendStore

  /** DataSourceConfig.NO_METADATA_CHECKPOINT: automatic checkpoints are off. */
  const NoMetadataCheckpoint: int := -1

  /** A future handed to a waiter: one already completed, or the pending one of a slot,
      identified by the number it was created with. */
  datatype WaitHandle = AlreadyCompleted | Pending(futureId: nat)

  /** One attempt of read: the entries found, or the handle to wait on before trying again. */
  datatype ReadAttempt = Available(operations: seq<Operation>) | Wait(handle: WaitHandle)

  /** Whether add inserts a checkpoint before `op`: only for a non-checkpoint operation, only
      when automatic checkpoints are on, and only once the current sequence number has moved
      at least `frequency` past the last automatic checkpoint. */
  predicate CheckpointDue(op: Operation, frequency: int, currentSequenceNumber: int, lastAddedCheckpoint: int)
  {
    !op.kind.MetadataCheckpoint? && frequency != NoMetadataCheckpoint
    && currentSequenceNumber - lastAddedCheckpoint >= frequency
  }

  /** What add and acknowledge read and write: the log, the last number the metadata handed
      out, the last automatic checkpoint, and the metadata's truncation bookkeeping. */
  datatype Sequencing = Sequencing(
    log: seq<Operation>,
    lastSequenceNumber: int,
    lastAddedCheckpoint: int,
    validTruncationPoints: set<int>,
    truncationMarkers: map<int, int>)

  /** The outcome of add: the number given to the operation (or the failure) and the new state. */
  datatype Added = Added(result: Result<int>, state: Sequencing)

  /** The state the data source keeps consistent: the log strictly increases, and every
      checkpoint in it has its truncation marker and is a valid truncation point. */
  ghost predicate WellSequenced(s: Sequencing)
  {
    && Increasing(s.log)
    && forall op :: op in s.log && op.kind.MetadataCheckpoint? ==>
         op.sequenceNumber in s.validTruncationPoints && op.sequenceNumber in s.truncationMarkers
  }

  /** Sequencing one operation: it takes the next number; a checkpoint then gets its truncation
      marker (whose address is the number itself) and becomes a valid truncation point; then
      the log takes the operation, unless it refuses the number. */
  function SequenceOne(s: Sequencing, op: Operation): Added
  {
    var n := s.lastSequenceNumber + 1;
    var marked := if op.kind.MetadataCheckpoint?
      then s.(truncationMarkers := s.truncationMarkers[n := n], validTruncationPoints := s.validTruncationPoints + {n})
      else s;
    if Accepts(s.log, n) then Added(Success(n), marked.(log := s.log + [op.(sequenceNumber := n)], lastSequenceNumber := n))
    else Added(Failure(SequenceNumbersOutOfOrder), marked.(lastSequenceNumber := n))
  }

  /** add on an open data source, for an operation without a number: the checkpoint that may
      be due is sequenced first, then the operation itself. The log refuses a number only when
      it is not above the last logged one; the number is spent all the same. */
  function AddEffect(s: Sequencing, frequency: int, op: Operation): (a: Added)
    ensures a.result.Failure? <==> !Accepts(s.log, s.lastSequenceNumber + 1)
    ensures a.result.Failure? ==>
      && a.result.error == SequenceNumbersOutOfOrder && a.state.log == s.log
      && a.state.lastSequenceNumber == s.lastSequenceNumber + 1
      && a.state.lastAddedCheckpoint == s.lastAddedCheckpoint
    ensures a.result.Success? ==>
      && a.result.value == a.state.lastSequenceNumber
      && s.lastSequenceNumber < a.result.value <= s.lastSequenceNumber + 2
      && a.state.log != [] && a.state.log[|a.state.log| - 1] == op.(sequenceNumber := a.result.value)
  {
    if CheckpointDue(op, frequency, s.lastSequenceNumber, s.lastAddedCheckpoint) then
      var checkpoint := SequenceOne(s, Operation(-1, MetadataCheckpoint));
      if checkpoint.result.Failure? then checkpoint
      else SequenceOne(checkpoint.state.(lastAddedCheckpoint := checkpoint.result.value), op)
    else SequenceOne(s, op)
  }

  /** When the log takes the next number, add logs either the operation alone or, exactly when
      a checkpoint is due, a checkpoint just before it: the checkpoint has the smaller number,
      is a valid truncation point with a marker, and becomes the last automatic checkpoint. */
  lemma AutomaticCheckpoint(s: Sequencing, frequency: int, op: Operation)
    requires Accepts(s.log, s.lastSequenceNumber + 1)
    ensures var a := AddEffect(s, frequency, op);
      var n := a.result.value;
      && a.result.Success?
      && (CheckpointDue(op, frequency, s.lastSequenceNumber, s.lastAddedCheckpoint) ==>
            && n == s.lastSequenceNumber + 2
            && a.state.log == s.log + [Operation(n - 1, MetadataCheckpoint), op.(sequenceNumber := n)]
            && a.state.lastAddedCheckpoint == n - 1
            && n - 1 in a.state.validTruncationPoints && n - 1 in a.state.truncationMarkers)
      && (!CheckpointDue(op, frequency, s.lastSequenceNumber, s.lastAddedCheckpoint) ==>
            && n == s.lastSequenceNumber + 1
            && a.state.log == s.log + [op.(sequenceNumber := n)]
            && a.state.lastAddedCheckpoint == s.lastAddedCheckpoint)
  {
  }

  /** add keeps the data source well sequenced, and the number it gives exceeds every number
      already in the log. In particular a checkpoint is a valid truncation point by the time
      it is in the log. */
  lemma AddKeepsWellSequenced(s: Sequencing, frequency: int, op: Operation)
    requires WellSequenced(s)
    ensures WellSequenced(AddEffect(s, frequency, op).state)
    ensures var a := AddEffect(s, frequency, op);
      a.result.Success? ==> forall e :: e in s.log ==> e.sequenceNumber < a.result.value
  {
    if CheckpointDue(op, frequency, s.lastSequenceNumber, s.lastAddedCheckpoint) {
      var checkpoint := SequenceOne(s, Operation(-1, MetadataCheckpoint));
      if checkpoint.result.Success? {
        SequenceOneKeepsWellSequenced(s, Operation(-1, MetadataCheckpoint));
        SequenceOneKeepsWellSequenced(checkpoint.state.(lastAddedCheckpoint := checkpoint.result.value), op);
      } else {
        SequenceOneKeepsWellSequenced(s, Operation(-1, MetadataCheckpoint));
      }
    } else {
      SequenceOneKeepsWellSequenced(s, op);
    }
  }

  /** Sequencing one operation keeps the data source well sequenced; a logged operation's
      number exceeds every number already in the log. */
  lemma SequenceOneKeepsWellSequenced(s: Sequencing, op: Operation)
    requires WellSequenced(s)
    ensures WellSequenced(SequenceOne(s, op).state)
    ensures var a := SequenceOne(s, op);
      a.result.Success? ==> forall e :: e in s.log ==> e.sequenceNumber < a.result.value
  {
    var n := s.lastSequenceNumber + 1;
    AcceptsAboveAll(s.log, op.(sequenceNumber := n));
  }

  /** Numbers given by consecutive adds strictly increase. */
  lemma ConsecutiveAddsIncrease(s: Sequencing, frequency: int, first: Operation, second: Operation)
    ensures var a := AddEffect(s, frequency, first);
      var b := AddEffect(a.state, frequency, second);
      a.result.Success? && b.result.Success? ==> a.result.value < b.result.value
  {
  }

  /** acknowledge(upTo) when acknowledgements are effective: the log loses its entries up to
      `upTo` and the metadata its truncation markers up to it. */
  function AcknowledgeEffect(s: Sequencing, upTo: int): (t: Sequencing)
    ensures t.lastSequenceNumber == s.lastSequenceNumber && t.lastAddedCheckpoint == s.lastAddedCheckpoint
    ensures t.validTruncationPoints == s.validTruncationPoints
    ensures forall k :: k in t.truncationMarkers <==> k in s.truncationMarkers && upTo < k
  {
    s.(log := Truncate(s.log, upTo), truncationMarkers := MarkersAfter(s.truncationMarkers, upTo))
  }

  /** An effective acknowledgement keeps the data source well sequenced, and leaves the log
      drained up to `upTo` only by emptying it. */
  lemma AcknowledgeKeepsWellSequenced(s: Sequencing, upTo: int)
    requires WellSequenced(s)
    ensures WellSequenced(AcknowledgeEffect(s, upTo))
    ensures DrainedUpTo(AcknowledgeEffect(s, upTo).log, upTo) <==> AcknowledgeEffect(s, upTo).log == []
  {
  }

  /** Repeating an effective acknowledgement changes nothing. */
  lemma AcknowledgeIdempotent(s: Sequencing, upTo: int)
    ensures AcknowledgeEffect(AcknowledgeEffect(s, upTo), upTo) == AcknowledgeEffect(s, upTo)
  {
    TruncateIdempotent(s.log, upTo);
    MarkersAfterIdempotent(s.truncationMarkers, upTo);
  }

  class TestWriterDataSource {
    const metadata: ContainerMetadata
    const autoInsertCheckpointFrequency: int
    /** SequencedItemList<Operation>. */
    var log: seq<Operation>
    var appendData: map<int, AppendData>
    var attributeData: map<int, AttributeState>
    /** The slot of the "log fully acknowledged" future. */
    var waitFullyAcked: Option<nat>
    /** The slot of the "an add was processed" future. */
    var addProcessed: Option<nat>
    /** Number given to the next future created. */
    var nextFutureId: nat
    var lastAddedCheckpoint: int
    var ackEffective: bool
    var closed: bool

    /** The data source's invariant: the log and the truncation bookkeeping are well
        sequenced; each segment has its own append store; the slots hold futures already
        issued. */
    ghost predicate Valid()
      reads this, metadata
    {
      && WellSequenced(SequencingState())
      && (forall i, j :: i in appendData && j in appendData && i != j ==> appendData[i] != appendData[j])
      && (addProcessed.Some? ==> addProcessed.value < nextFutureId)
      && (waitFullyAcked.Some? ==> waitFullyAcked.value < nextFutureId)
    }

    ghost function SequencingState(): Sequencing
      reads this, metadata
    {
      Sequencing(log, metadata.operationSequenceNumber, lastAddedCheckpoint,
                 metadata.validTruncationPoints, metadata.truncationMarkers)
    }

    /** The fragments recorded for each segment. */
    ghost function Fragments(): map<int, map<int, seq<byte>>>
      reads this, appendData.Values
    {
      map id | id in appendData :: appendData[id].data
    }

    constructor (metadata: ContainerMetadata, autoInsertCheckpointFrequency: int)
      ensures Valid()
      ensures this.metadata == metadata && this.autoInsertCheckpointFrequency == autoInsertCheckpointFrequency
      ensures log == [] && appendData == map[] && attributeData == map[]
      ensures waitFullyAcked.None? && addProcessed.None? && nextFutureId == 0
      ensures lastAddedCheckpoint == 0 && ackEffective && !closed
    {
      this.metadata := metadata;
      this.autoInsertCheckpointFrequency := autoInsertCheckpointFrequency;
      log := [];
      appendData := map[];
      attributeData := map[];
      waitFullyAcked := None;
      addProcessed := None;
      nextFutureId := 0;
      lastAddedCheckpoint := 0;
      ackEffective := true;
      closed := false;
    }

    /** Closes the source once: the pending add future is taken out of its slot and cancelled.
        A second close does nothing. */
    method Close() returns (cancelled: Option<nat>)
      requires Valid()
      modifies this
      ensures Valid() && closed
      ensures old(closed) ==> cancelled.None? && unchanged(this)
      ensures !old(closed) ==> cancelled == old(addProcessed) && addProcessed.None?
      ensures log == old(log) && appendData == old(appendData) && attributeData == old(attributeData)
      ensures waitFullyAcked == old(waitFullyAcked) && nextFutureId == old(nextFutureId)
      ensures lastAddedCheckpoint == old(lastAddedCheckpoint) && ackEffective == old(ackEffective)
    {
      cancelled := None;
      if !closed {
        closed := true;
        cancelled := addProcessed;
        addProcessed := None;
      }
    }

    /** Sequences and logs an operation, first inserting a checkpoint when one is due (see
        AddEffect). On success the add waiter is completed and cleared. */
    method Add(op: Operation) returns (r: Result<int>)
      requires Valid()
      modifies this, metadata
      decreases if op.kind.MetadataCheckpoint? then 0 else 1
      ensures Valid()
      ensures old(closed) ==> r == Failure(ObjectClosed) && unchanged(this, metadata)
      ensures !old(closed) && op.sequenceNumber >= 0 ==>
        r == Failure(OperationAlreadySequenced) && unchanged(this, metadata)
      ensures !old(closed) && op.sequenceNumber < 0 ==>
        var a := AddEffect(old(SequencingState()), autoInsertCheckpointFrequency, op);
        && r == a.result && SequencingState() == a.state
        && addProcessed == (if r.Success? then None else old(addProcessed))
      ensures metadata.segments == old(metadata.segments)
      ensures appendData == old(appendData) && attributeData == old(attributeData)
      ensures waitFullyAcked == old(waitFullyAcked) && nextFutureId == old(nextFutureId)
      ensures ackEffective == old(ackEffective) && closed == old(closed)
    {
      if closed {
        return Failure(ObjectClosed);
      }
      if op.sequenceNumber >= 0 {
        return Failure(OperationAlreadySequenced);
      }
      if !op.kind.MetadataCheckpoint? {
        if autoInsertCheckpointFrequency != NoMetadataCheckpoint
          && metadata.operationSequenceNumber - lastAddedCheckpoint >= autoInsertCheckpointFrequency
        {
          var checkpoint := Add(Operation(-1, MetadataCheckpoint));
          if checkpoint.Failure? {
            return checkpoint;
          }
          lastAddedCheckpoint := checkpoint.value;
        }
      }
      r := SequenceAndLog(op);
    }

    /** The second half of add: takes the next number, records the truncation marker and the
        valid truncation point of a checkpoint, then logs the operation under its number (see
        SequenceOne); a logged operation completes the add waiter. */
    method SequenceAndLog(op: Operation) returns (r: Result<int>)
      requires Valid()
      modifies this, metadata
      ensures Valid()
      ensures var a := SequenceOne(old(SequencingState()), op);
        && r == a.result && SequencingState() == a.state
        && addProcessed == (if r.Success? then None else old(addProcessed))
      ensures metadata.segments == old(metadata.segments)
      ensures appendData == old(appendData) && attributeData == old(attributeData)
      ensures waitFullyAcked == old(waitFullyAcked) && nextFutureId == old(nextFutureId)
      ensures ackEffective == old(ackEffective) && closed == old(closed)
    {
      SequenceOneKeepsWellSequenced(SequencingState(), op);
      ghost var after := SequenceOne(SequencingState(), op);
      var n := metadata.NextOperationSequenceNumber();
      if op.kind.MetadataCheckpoint? {
        metadata.RecordTruncationMarker(n, n);
        metadata.SetValidTruncationPoint(n);
      }
      if !Accepts(log, n) {
        assert SequencingState() == after.state;
        return Failure(SequenceNumbersOutOfOrder);
      }
      log := log + [op.(sequenceNumber := n)];
      assert SequencingState() == after.state;
      var _ := NotifyAddProcessed();
      return Success(n);
    }

    /** Completes and clears the add waiter, if there is one. */
    method NotifyAddProcessed() returns (completed: Option<nat>)
      requires Valid()
      modifies this
      ensures Valid()
      ensures completed == old(addProcessed) && addProcessed.None?
      ensures log == old(log) && appendData == old(appendData) && attributeData == old(attributeData)
      ensures waitFullyAcked == old(waitFullyAcked) && nextFutureId == old(nextFutureId)
      ensures lastAddedCheckpoint == old(lastAddedCheckpoint) && ackEffective == old(ackEffective)
      ensures closed == old(closed)
    {
      completed := addProcessed;
      addProcessed := None;
    }

    /** Records the bytes of an append at its segment offset, creating the segment's store on
        first use; an earlier fragment at the same offset is replaced. */
    method RecordAppend(segmentId: int, offset: int, bytes: seq<byte>)
      requires Valid()
      modifies this, appendData.Values
      ensures Valid()
      ensures Fragments() == old(Fragments())[segmentId :=
        (if segmentId in old(Fragments()) then old(Fragments())[segmentId] else map[])[offset := bytes]]
      ensures log == old(log) && attributeData == old(attributeData)
      ensures waitFullyAcked == old(waitFullyAcked) && addProcessed == old(addProcessed)
      ensures nextFutureId == old(nextFutureId) && lastAddedCheckpoint == old(lastAddedCheckpoint)
      ensures ackEffective == old(ackEffective) && closed == old(closed)
    {
      ghost var before := Fragments();
      var ad: AppendData;
      if segmentId in appendData {
        ad := appendData[segmentId];
      } else {
        ad := new AppendData();
        appendData := appendData[segmentId := ad];
      }
      ghost var previous := ad.data;
      ad.Append(offset, bytes);
      ghost var expected := before[segmentId := previous[offset := bytes]];
      forall id | id in appendData
        ensures appendData[id].data == expected[id]
      {
        if id != segmentId {
          assert appendData[id] != ad;
        }
      }
      assert Fragments().Keys == expected.Keys;
    }

    /** Discards the fragments of every segment. */
    method ClearAppendData()
      requires Valid()
      modifies this
      ensures Valid() && Fragments() == map[]
      ensures log == old(log) && attributeData == old(attributeData)
      ensures waitFullyAcked == old(waitFullyAcked) && addProcessed == old(addProcessed)
      ensures nextFutureId == old(nextFutureId) && lastAddedCheckpoint == old(lastAddedCheckpoint)
      ensures ackEffective == old(ackEffective) && closed == old(closed)
    {
      appendData := map[];
    }

    /** Acknowledges the log up to a valid truncation point. When acknowledgements are
        effective the log and the truncation markers lose everything up to
        `upToSequenceNumber` (see AcknowledgeEffect); otherwise nothing is removed. The drain
        waiter is then completed and cleared exactly when it exists and the log is empty or
        ends at or before `upToSequenceNumber`; the completed future is returned. */
    method Acknowledge(upToSequenceNumber: int) returns (r: Result<Option<nat>>)
      requires Valid()
      modifies this, metadata
      ensures Valid()
      ensures old(closed) ==> r == Failure(ObjectClosed) && unchanged(this, metadata)
      ensures !old(closed) && !old(metadata.IsValidTruncationPoint(upToSequenceNumber)) ==>
        r == Failure(InvalidTruncationPoint) && unchanged(this, metadata)
      ensures !old(closed) && old(metadata.IsValidTruncationPoint(upToSequenceNumber)) ==>
        && SequencingState() == (if old(ackEffective) then AcknowledgeEffect(old(SequencingState()), upToSequenceNumber)
                                 else old(SequencingState()))
        && (old(waitFullyAcked).Some? && DrainedUpTo(log, upToSequenceNumber) ==>
              r == Success(old(waitFullyAcked)) && waitFullyAcked.None?)
        && (!(old(waitFullyAcked).Some? && DrainedUpTo(log, upToSequenceNumber)) ==>
              r == Success(None) && waitFullyAcked == old(waitFullyAcked))
      ensures metadata.segments == old(metadata.segments)
      ensures appendData == old(appendData) && attributeData == old(attributeData)
      ensures addProcessed == old(addProcessed) && nextFutureId == old(nextFutureId)
      ensures ackEffective == old(ackEffective) && closed == old(closed)
    {
      if closed {
        return Failure(ObjectClosed);
      }
      if !metadata.IsValidTruncationPoint(upToSequenceNumber) {
        return Failure(InvalidTruncationPoint);
      }
      if ackEffective {
        TrimAcknowledged(upToSequenceNumber);
      }
      var callback := CompleteFullyAcked(upToSequenceNumber);
      return Success(callback);
    }

    /** The effect of an acknowledgement that counts: the log and the truncation markers lose
        everything up to `upToSequenceNumber`. */
    method TrimAcknowledged(upToSequenceNumber: int)
      requires Valid()
      modifies this, metadata
      ensures Valid()
      ensures SequencingState() == AcknowledgeEffect(old(SequencingState()), upToSequenceNumber)
      ensures metadata.segments == old(metadata.segments)
      ensures appendData == old(appendData) && attributeData == old(attributeData)
      ensures waitFullyAcked == old(waitFullyAcked) && addProcessed == old(addProcessed)
      ensures nextFutureId == old(nextFutureId)
      ensures ackEffective == old(ackEffective) && closed == old(closed)
    {
      ghost var before := SequencingState();
      AcknowledgeKeepsWellSequenced(before, upToSequenceNumber);
      log := Truncate(log, upToSequenceNumber);
      metadata.RemoveTruncationMarkers(upToSequenceNumber);
      assert SequencingState() == AcknowledgeEffect(before, upToSequenceNumber);
    }

    /** Completes and clears the drain waiter when there is one and the log is empty or ends at
        or before `upToSequenceNumber`; returns the completed future. */
    method CompleteFullyAcked(upToSequenceNumber: int) returns (callback: Option<nat>)
      requires Valid()
      modifies this
      ensures Valid()
      ensures old(waitFullyAcked).Some? && DrainedUpTo(log, upToSequenceNumber) ==>
        callback == old(waitFullyAcked) && waitFullyAcked.None?
      ensures !(old(waitFullyAcked).Some? && DrainedUpTo(log, upToSequenceNumber)) ==>
        callback.None? && waitFullyAcked == old(waitFullyAcked)
      ensures log == old(log) && appendData == old(appendData) && attributeData == old(attributeData)
      ensures addProcessed == old(addProcessed) && nextFutureId == old(nextFutureId)
      ensures lastAddedCheckpoint == old(lastAddedCheckpoint)
      ensures ackEffective == old(ackEffective) && closed == old(closed)
    {
      callback := None;
      if waitFullyAcked.Some? && DrainedUpTo(log, upToSequenceNumber) {
        callback := waitFullyAcked;
        waitFullyAcked := None;
      }
    }

    /** Merge-updates the attributes of one segment (see Attributes.Persist): a missing map is
        created live, a tombstone fails as not-exists, a sealed map fails as sealed unless
        there is nothing to apply. A failure leaves the store unchanged. */
    method PersistAttributes(segmentId: int, attributes: map<Uuid, int64>) returns (r: Result<()>)
      requires Valid()
      modifies this
      ensures Valid()
      ensures old(closed) ==> r == Failure(ObjectClosed) && unchanged(this)
      ensures !old(closed) ==>
        var p := Persist(Lookup(old(attributeData), segmentId), attributes);
        && (p.Success? ==> r == Success(()) && attributeData == old(attributeData)[segmentId := p.value])
        && (p.Failure? ==> r == Failure(p.error) && attributeData == old(attributeData))
      ensures log == old(log) && appendData == old(appendData)
      ensures waitFullyAcked == old(waitFullyAcked) && addProcessed == old(addProcessed)
      ensures nextFutureId == old(nextFutureId) && lastAddedCheckpoint == old(lastAddedCheckpoint)
      ensures ackEffective == old(ackEffective) && closed == old(closed)
    {
      if closed {
        return Failure(ObjectClosed);
      }
      var current: map<Uuid, int64>;
      if segmentId in attributeData {
        match attributeData[segmentId]
        case Tombstoned =>
          return Failure(StreamSegmentNotExists);
        case Sealed(m) =>
          // An unmodifiable map throws on the first put or remove.
          if attributes != map[] {
            return Failure(StreamSegmentSealed);
          }
          return Success(());
        case Live(m) =>
          current := m;
      } else {
        current := map[];
      }
      var segmentAttributes := ApplyDeltas(current, attributes);
      attributeData := attributeData[segmentId := Live(segmentAttributes)];
      return Success(());
    }

    /** The loop of persistAttributes over the delta entries: NullAttributeValue removes the
        key, any other value puts it. */
    method ApplyDeltas(current: map<Uuid, int64>, attributes: map<Uuid, int64>) returns (merged: map<Uuid, int64>)
      ensures merged == Merge(current, attributes)
    {
      merged := current;
      var pending := attributes.Keys;
      MergeNothing(current);
      assert attributes - pending == map[];
      while pending != {}
        invariant pending <= attributes.Keys
        invariant merged == Merge(current, attributes - pending)
        decreases pending
      {
        var k :| k in pending;
        MergeOneMore(current, attributes, pending, k);
        if attributes[k] == NullAttributeValue {
          merged := merged - {k};
        } else {
          merged := merged[k := attributes[k]];
        }
        pending := pending - {k};
      }
      assert attributes - pending == attributes;
    }

    /** Freezes the attributes of a segment, keeping every key and value it has; an absent or
        deleted segment becomes sealed and empty. */
    method SealAttributes(segmentId: int)
      requires Valid()
      modifies this
      ensures Valid()
      ensures attributeData == old(attributeData)[segmentId := Seal(Lookup(old(attributeData), segmentId))]
      ensures log == old(log) && appendData == old(appendData)
      ensures waitFullyAcked == old(waitFullyAcked) && addProcessed == old(addProcessed)
      ensures nextFutureId == old(nextFutureId) && lastAddedCheckpoint == old(lastAddedCheckpoint)
      ensures ackEffective == old(ackEffective) && closed == old(closed)
    {
      var current: map<Uuid, int64>;
      if segmentId in attributeData && !attributeData[segmentId].Tombstoned? {
        current := attributeData[segmentId].attributes;
      } else {
        current := map[];
      }
      attributeData := attributeData[segmentId := Sealed(current)];
    }

    /** Replaces the attributes of a segment by a tombstone. */
    method DeleteAllAttributes(segmentId: int)
      requires Valid()
      modifies this
      ensures Valid()
      ensures attributeData == old(attributeData)[segmentId := Tombstoned]
      ensures log == old(log) && appendData == old(appendData)
      ensures waitFullyAcked == old(waitFullyAcked) && addProcessed == old(addProcessed)
      ensures nextFutureId == old(nextFutureId) && lastAddedCheckpoint == old(lastAddedCheckpoint)
      ensures ackEffective == old(ackEffective) && closed == old(closed)
    {
      attributeData := attributeData[segmentId := Tombstoned];
    }

    /** A copy of the attributes of a segment: empty for a segment never written and for a
        deleted one, the live or sealed map otherwise. */
    method GetPersistedAttributes(segmentId: int) returns (r: map<Uuid, int64>)
      requires Valid()
      ensures r == Visible(Lookup(attributeData, segmentId))
    {
      if segmentId in attributeData && !attributeData[segmentId].Tombstoned? {
        r := attributeData[segmentId].attributes;
      } else {
        r := map[];
      }
    }

    /** The future that completes when the log is fully acknowledged: an already completed one
        when nobody waits yet and the log is empty; otherwise the slot's future, created on
        first demand and shared by every later caller. */
    method WaitFullyAcked() returns (h: WaitHandle)
      requires Valid()
      modifies this
      ensures Valid()
      ensures old(waitFullyAcked).None? && old(log) == [] ==> h == AlreadyCompleted && unchanged(this)
      ensures old(waitFullyAcked).Some? ==> h == Pending(old(waitFullyAcked).value) && unchanged(this)
      ensures old(waitFullyAcked).None? && old(log) != [] ==>
        && h == Pending(old(nextFutureId)) && waitFullyAcked == Some(old(nextFutureId))
        && nextFutureId == old(nextFutureId) + 1
      ensures log == old(log) && appendData == old(appendData) && attributeData == old(attributeData)
      ensures addProcessed == old(addProcessed) && lastAddedCheckpoint == old(lastAddedCheckpoint)
      ensures ackEffective == old(ackEffective) && closed == old(closed)
    {
      if waitFullyAcked.None? {
        if log == [] {
          return AlreadyCompleted;
        }
        waitFullyAcked := Some(nextFutureId);
        nextFutureId := nextFutureId + 1;
      }
      return Pending(waitFullyAcked.value);
    }

    /** The future that completes on the next add: an already completed one when the log
        already holds an entry after `currentSequenceNumber`; otherwise the slot's future,
        created on first demand and shared by every later caller. */
    method WaitForAdd(currentSequenceNumber: int) returns (h: WaitHandle)
      requires Valid()
      modifies this
      ensures Valid()
      ensures !DrainedUpTo(old(log), currentSequenceNumber) ==> h == AlreadyCompleted && unchanged(this)
      ensures DrainedUpTo(old(log), currentSequenceNumber) && old(addProcessed).Some? ==>
        h == Pending(old(addProcessed).value) && unchanged(this)
      ensures DrainedUpTo(old(log), currentSequenceNumber) && old(addProcessed).None? ==>
        && h == Pending(old(nextFutureId)) && addProcessed == Some(old(nextFutureId))
        && nextFutureId == old(nextFutureId) + 1
      ensures log == old(log) && appendData == old(appendData) && attributeData == old(attributeData)
      ensures waitFullyAcked == old(waitFullyAcked) && lastAddedCheckpoint == old(lastAddedCheckpoint)
      ensures ackEffective == old(ackEffective) && closed == old(closed)
    {
      if !DrainedUpTo(log, currentSequenceNumber) {
        return AlreadyCompleted;
      }
      if addProcessed.None? {
        addProcessed := Some(nextFutureId);
        nextFutureId := nextFutureId + 1;
      }
      return Pending(addProcessed.value);
    }

    /** One attempt of read: the entries after `afterSequenceNumber` (at most `maxCount`) when
        there are any, otherwise the handle of WaitForAdd to retry on. */
    method Read(afterSequenceNumber: int, maxCount: int) returns (r: Result<ReadAttempt>)
      requires Valid()
      modifies this
      ensures Valid()
      ensures old(closed) ==> r == Failure(ObjectClosed) && unchanged(this)
      ensures !old(closed) && ReadRange(old(log), afterSequenceNumber, maxCount) != [] ==>
        r == Success(Available(ReadRange(old(log), afterSequenceNumber, maxCount))) && unchanged(this)
      ensures !old(closed) && ReadRange(old(log), afterSequenceNumber, maxCount) == [] ==>
        && r.Success? && r.value.Wait?
        && (!DrainedUpTo(old(log), afterSequenceNumber) ==> r.value.handle == AlreadyCompleted && unchanged(this))
        && (DrainedUpTo(old(log), afterSequenceNumber) && old(addProcessed).Some? ==>
              r.value.handle == Pending(old(addProcessed).value) && unchanged(this))
        && (DrainedUpTo(old(log), afterSequenceNumber) && old(addProcessed).None? ==>
              r.value.handle == Pending(old(nextFutureId)) && addProcessed == Some(old(nextFutureId))
              && nextFutureId == old(nextFutureId) + 1)
      ensures log == old(log) && appendData == old(appendData) && attributeData == old(attributeData)
      ensures waitFullyAcked == old(waitFullyAcked) && lastAddedCheckpoint == old(lastAddedCheckpoint)
      ensures ackEffective == old(ackEffective) && closed == old(closed)
    {
      if closed {
        return Failure(ObjectClosed);
      }
      var entries := ReadRange(log, afterSequenceNumber, maxCount);
      if entries != [] {
        return Success(Available(entries));
      }
      var h := WaitForAdd(afterSequenceNumber);
      return Success(Wait(h));
    }

    /** The bytes [startOffset, startOffset + length) of a segment from the recorded fragments,
        after the bounds checks against the segment's metadata: None when the segment has no
        fragments or the bytes are not all there. */
    method GetAppendData(segmentId: int, startOffset: int, length: int) returns (r: Result<Option<seq<byte>>>)
      requires Valid()
      ensures var check := CheckAppendBounds(metadata.GetStreamSegmentMetadata(segmentId), startOffset, length);
        && (check.Some? ==> r == Failure(check.value))
        && (check.None? && segmentId !in appendData ==> r == Success(None))
        && (check.None? && segmentId in appendData ==>
              r == Success(Reconstruct(appendData[segmentId].data, startOffset, length)))
    {
      var check := CheckAppendBounds(metadata.GetStreamSegmentMetadata(segmentId), startOffset, length);
      if check.Some? {
        return Failure(check.value);
      }
      if segmentId !in appendData {
        return Success(None);
      }
      var bytes := appendData[segmentId].Read(startOffset, length);
      return Success(bytes);
    }

    /** Sets whether acknowledgements truncate the log. */
    method SetAckEffective(value: bool)
      requires Valid()
      modifies this
      ensures Valid() && ackEffective == value
      ensures log == old(log) && appendData == old(appendData) && attributeData == old(attributeData)
      ensures waitFullyAcked == old(waitFullyAcked) && addProcessed == old(addProcessed)
      ensures nextFutureId == old(nextFutureId) && lastAddedCheckpoint == old(lastAddedCheckpoint)
      ensures closed == old(closed)
    {
      ackEffective := value;
    }
  }

  /** The bounds checks of the Java `getAppendData`, in its order; the first
      that fails is reported. The last one compares with min(StartOffset, StorageLength), so
      it never fails once the storage-length check has passed. */
  function CheckAppendBounds(sm: Option<SegmentMetadata>, startOffset: int, length: int): (e: Option<Error>)
    ensures e.None? <==> length >= 0 && sm.Some? && startOffset >= sm.value.storageLength
                         && startOffset + length <= sm.value.length
    ensures e.Some? ==> e.value in {NegativeLength, SegmentMetadataMissing, BeforeStorageLength, BeyondSegmentLength}
    ensures length < 0 ==> e == Some(NegativeLength)
  {
    if length < 0 then Some(NegativeLength)
    else if sm.None? then Some(SegmentMetadataMissing)
    else if startOffset < sm.value.storageLength then Some(BeforeStorageLength)
    else if startOffset + length > sm.value.length then Some(BeyondSegmentLength)
    else if startOffset < Min(sm.value.startOffset, sm.value.storageLength) then Some(BeforeStartOffset)
    else None
  }

  /** The segment's start offset is not enforced: a request below it but at or above the
      storage length passes the checks. */
  lemma StartOffsetNotEnforced()
    ensures CheckAppendBounds(Some(SegmentMetadata(100, 10, 50)), 20, 30).None?
  {
  }
}
