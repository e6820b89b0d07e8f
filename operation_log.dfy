/** The sequenced operation log (SequencedItemList<Operation>) as the data source uses it:
    append with an ordering check, prefix truncation, range read and the last entry. */
module OperationLog {
  import opened Common

  /** Only one kind of operation is treated specially: the metadata checkpoint. */
  datatype OperationKind = MetadataCheckpoint | Other(tag: int)

  /** An operation; a negative sequence number means "not yet sequenced". */
  datatype Operation = Operation(sequenceNumber: int, kind: OperationKind)

  /** The log's own invariant: sequence numbers strictly increase in insertion order. */
  ghost predicate Increasing(log: seq<Operation>)
  {
    forall i, j :: 0 <= i < j < |log| ==> log[i].sequenceNumber < log[j].sequenceNumber
  }

  /** SequencedItemList.add accepts an item only when its number exceeds the last one's. */
  predicate Accepts(log: seq<Operation>, n: int)
  {
    log == [] || log[|log| - 1].sequenceNumber < n
  }

  /** The log is drained up to `upTo` when it is empty or its last entry is at or before `upTo`. */
  predicate DrainedUpTo(log: seq<Operation>, upTo: int)
  {
    log == [] || log[|log| - 1].sequenceNumber <= upTo
  }

  /** On an increasing log, acceptance means the number exceeds every logged number, and
      appending it keeps the log increasing. */
  lemma AcceptsAboveAll(log: seq<Operation>, op: Operation)
    requires Increasing(log)
    ensures Accepts(log, op.sequenceNumber) <==> forall e :: e in log ==> e.sequenceNumber < op.sequenceNumber
    ensures Accepts(log, op.sequenceNumber) ==> Increasing(log + [op])
  {
    if Accepts(log, op.sequenceNumber) && log != [] {
      forall e | e in log ensures e.sequenceNumber < op.sequenceNumber {
        var i :| 0 <= i < |log| && log[i] == e;
        assert i == |log| - 1 || log[i].sequenceNumber < log[|log| - 1].sequenceNumber;
      }
    }
  }

  /** SequencedItemList.truncate(upTo): removes entries from the head while their number is at
      most `upTo`. The result is a suffix, only entries at most `upTo` are dropped, and on an
      increasing log no entry at most `upTo` is left while every later entry is kept. */
  function Truncate(log: seq<Operation>, upTo: int): (r: seq<Operation>)
    ensures |r| <= |log| && forall j :: 0 <= j < |r| ==> r[j] == log[|log| - |r| + j]
    ensures forall i :: 0 <= i < |log| - |r| ==> log[i].sequenceNumber <= upTo
    ensures r != [] ==> upTo < r[0].sequenceNumber
    ensures Increasing(log) ==> Increasing(r) && forall e :: e in r ==> upTo < e.sequenceNumber
    ensures Increasing(log) ==> forall i :: 0 <= i < |log| && upTo < log[i].sequenceNumber ==> |log| - |r| <= i
  {
    if log == [] || upTo < log[0].sequenceNumber then log
    else
      Truncate(log[1..], upTo)
  }

  /** Truncating twice at the same point is the same as truncating once. */
  lemma {:induction false} TruncateIdempotent(log: seq<Operation>, upTo: int)
    ensures Truncate(Truncate(log, upTo), upTo) == Truncate(log, upTo)
  {
    var r := Truncate(log, upTo);
    assert r == [] || upTo < r[0].sequenceNumber;
  }

  /** SequencedItemList.read(afterSequenceNumber, count): the entries numbered after
      `afterSequenceNumber`, in log order, at most `maxCount` of them. */
  function ReadRange(log: seq<Operation>, afterSequenceNumber: int, maxCount: int): (r: seq<Operation>)
    requires Increasing(log)
    ensures |r| <= Max(maxCount, 0)
    ensures forall e :: e in r ==> e in log && afterSequenceNumber < e.sequenceNumber
    ensures r == [] <==> maxCount <= 0 || DrainedUpTo(log, afterSequenceNumber)
  {
    var tail := Truncate(log, afterSequenceNumber);
    assert tail == [] <==> DrainedUpTo(log, afterSequenceNumber) by {
      if log != [] && tail == [] {
        assert log[|log| - 1].sequenceNumber <= afterSequenceNumber;
      }
      if tail != [] {
        assert tail[|tail| - 1] == log[|log| - 1];
      }
    }
    if maxCount <= 0 then [] else tail[..Min(maxCount, |tail|)]
  }

  /** A log read returns exactly the next min(maxCount, available) entries after the given
      number, in log order, starting at the first entry above it and skipping none. */
  lemma ReadRangeExact(log: seq<Operation>, after: int, maxCount: int)
    requires Increasing(log)
    ensures ReadsFrom(log, after, maxCount, |log| - |Truncate(log, after)|, ReadRange(log, after, maxCount))
  {
    ReadFromSuffix(log, Truncate(log, after), after, maxCount);
  }

  /** The first min(maxCount, available) entries of a suffix that starts after `after` are
      the read from the index where the suffix starts. */
  lemma ReadFromSuffix(log: seq<Operation>, tail: seq<Operation>, after: int, maxCount: int)
    requires |tail| <= |log| && forall j :: 0 <= j < |tail| ==> tail[j] == log[|log| - |tail| + j]
    requires forall i :: 0 <= i < |log| - |tail| ==> log[i].sequenceNumber <= after
    requires tail != [] ==> after < tail[0].sequenceNumber
    ensures ReadsFrom(log, after, maxCount, |log| - |tail|, if maxCount <= 0 then [] else tail[..Min(maxCount, |tail|)])
  {
    var k := |log| - |tail|;
    var r := if maxCount <= 0 then [] else tail[..Min(maxCount, |tail|)];
    assert r == log[k..k + |r|];
  }

  /** `r` is the read of `log` after `after` when the entries after `after` begin at index `k`:
      every entry before `k` is at most `after`, the entry at `k` is above it, and `r` is the
      next min(maxCount, available) entries from `k` on, in log order, with none skipped. */
  ghost predicate ReadsFrom(log: seq<Operation>, after: int, maxCount: int, k: int, r: seq<Operation>)
    requires 0 <= k <= |log|
  {
    && (forall i :: 0 <= i < k ==> log[i].sequenceNumber <= after)
    && (k < |log| ==> after < log[k].sequenceNumber)
    && |r| == Min(Max(maxCount, 0), |log| - k)
    && r == log[k..k + |r|]
  }
}
