/** Shared value types of the Writer data source model: optional values, results, and the
    exceptions the data source raises, one constructor per distinct failure. */
module Common {

  datatype Option<+T> = None | Some(value: T)

  datatype Result<+T> = Success(value: T) | Failure(error: Error)

  /** The failures the data source reports. Java signals all argument checks with
      IllegalArgumentException; they are told apart here by the check that failed. */
  datatype Error =
    | ObjectClosed                  // Exceptions.checkNotClosed
    | OperationAlreadySequenced     // add: the operation already carries a sequence number
    | SequenceNumbersOutOfOrder     // add: the log refused the assigned number (IllegalStateException)
    | InvalidTruncationPoint        // acknowledge: not a valid truncation point
    | NegativeLength                // getAppendData: length < 0
    | SegmentMetadataMissing        // getAppendData: no metadata for the segment (a null dereference)
    | BeforeStorageLength           // getAppendData: startOffset < StorageLength
    | BeyondSegmentLength           // getAppendData: startOffset + length > Length
    | BeforeStartOffset             // getAppendData: startOffset < min(StartOffset, StorageLength)
    | StreamSegmentNotExists        // persistAttributes on a deleted attribute map
    | StreamSegmentSealed           // persistAttributes mutating a sealed attribute map

  function Min(a: int, b: int): int
  {
    if a <= b then a else b
  }

  function Max(a: int, b: int): int
  {
    if a <= b then b else a
  }

  function Lookup<K, V>(m: map<K, V>, k: K): (r: Option<V>)
  {
    if k in m then Some(m[k]) else None
  }
}
