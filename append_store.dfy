/** The append reconstruction store of one segment (TestWriterDataSource.AppendData): a sorted
    map from segment offset to the bytes of an append recorded at that offset. A read starts in
    the fragment at or before the requested offset and continues only through fragments that
    begin exactly where the previous one ended; any gap makes the data unavailable. */
module AppendStore {
  import opened Common

  /** A Java byte. */
  newtype byte = b: int | -128 <= b < 128

  /** Every set of integers that has an element has a largest element. */
  lemma {:induction false} MaxExists(s: set<int>)
    requires exists y :: y in s
    ensures exists m :: m in s && forall k :: k in s ==> k <= m
    decreases s
  {
    var x :| x in s;
    var rest := s - {x};
    var top := x;
    if exists y :: y in rest {
      MaxExists(rest);
      var m :| m in rest && forall k :: k in rest ==> k <= m;
      top := if m < x then x else m;
    }
    forall k | k in s ensures k <= top {
      assert k == x || k in rest;
    }
  }

  /** TreeMap.floorKey: the greatest key at or before `offset`, if any. */
  function FloorKey(keys: set<int>, offset: int): (r: Option<int>)
    ensures r.Some? ==> r.value in keys && r.value <= offset
    ensures r.Some? ==> forall k :: k in keys && k <= offset ==> k <= r.value
    ensures r.None? ==> forall k :: k in keys ==> offset < k
  {
    if exists k :: k in keys && k <= offset then
      var below := set k | k in keys && k <= offset;
      assert exists y :: y in below by {
        var w :| w in keys && w <= offset;
        assert w in below;
      }
      MaxExists(below);
      var m :| m in below && forall k :: k in below ==> k <= m;
      assert forall k :: k in keys && k <= offset ==> k in below;
      Some(m)
    else None
  }

  /** Prepends `prefix` to an available result; unavailability propagates. */
  function Glue(prefix: seq<byte>, rest: Option<seq<byte>>): Option<seq<byte>>
  {
    if rest.None? then None else Some(prefix + rest.value)
  }

  lemma GlueEmpty(rest: Option<seq<byte>>)
    ensures Glue([], rest) == rest
  {
    if rest.Some? {
      assert [] + rest.value == rest.value;
    }
  }

  lemma GlueAssoc(a: seq<byte>, b: seq<byte>, rest: Option<seq<byte>>)
    ensures Glue(a, Glue(b, rest)) == Glue(a + b, rest)
  {
    if rest.Some? {
      assert a + (b + rest.value) == (a + b) + rest.value;
    }
  }

  /** The walk along the fragment chain, from byte `entryOffset` of the fragment `entry`, which
      sits at segment offset `currentOffset`, still needing `remaining` bytes. An absent entry
      is a gap; an entry with nothing left to give ends the chain as well. */
  function Walk(data: map<int, seq<byte>>, entry: Option<seq<byte>>, entryOffset: nat, currentOffset: int, remaining: int): Option<seq<byte>>
    decreases Max(remaining, 0)
  {
    if remaining <= 0 then Some([])
    else if entry.None? || |entry.value| <= entryOffset then None
    else
      var n := Min(remaining, |entry.value| - entryOffset);
      var next := currentOffset + n;
      Glue(entry.value[entryOffset..entryOffset + n], Walk(data, Lookup(data, next), 0, next, remaining - n))
  }

  /** The bytes [offset, offset + length) reconstructed from the fragments, or None when they
      are not all resident. */
  function Reconstruct(data: map<int, seq<byte>>, offset: int, length: int): Option<seq<byte>>
  {
    match FloorKey(data.Keys, offset)
    case None => None
    case Some(k) =>
      if k + |data[k]| <= offset then None
      else Walk(data, Some(data[k]), offset - k, offset, length)
  }

  /** `b` is the byte some recorded fragment holds at segment offset `p`. */
  ghost predicate Recorded(data: map<int, seq<byte>>, p: int, b: byte)
  {
    exists k :: k in data && k <= p < k + |data[k]| && data[k][p - k] == b
  }

  /** Some recorded fragment holds a byte at segment offset `p`. */
  ghost predicate Covers(data: map<int, seq<byte>>, p: int)
  {
    exists k :: k in data && k <= p < k + |data[k]|
  }

  /** No two fragments share a segment offset. */
  ghost predicate NonOverlapping(data: map<int, seq<byte>>)
  {
    forall a, b :: a in data && b in data && a < b ==> a + |data[a]| <= b
  }

  /** The byte at segment offset `p` of a store whose fragments do not overlap. */
  ghost function ByteAt(data: map<int, seq<byte>>, p: int): byte
    requires Covers(data, p)
  {
    var k :| k in data && k <= p < k + |data[k]|; data[k][p - k]
  }

  /** Everything the walk returns has the requested length and comes byte for byte from the
      recorded fragments. */
  lemma {:induction false} WalkSound(data: map<int, seq<byte>>, entry: Option<seq<byte>>, entryOffset: nat, currentOffset: int, remaining: int)
    requires entry.Some? ==> currentOffset - entryOffset in data && data[currentOffset - entryOffset] == entry.value
    requires Walk(data, entry, entryOffset, currentOffset, remaining).Some?
    ensures var r := Walk(data, entry, entryOffset, currentOffset, remaining).value;
      |r| == Max(remaining, 0) && forall i :: 0 <= i < |r| ==> Recorded(data, currentOffset + i, r[i])
    decreases Max(remaining, 0)
  {
    if remaining > 0 {
      var e := entry.value;
      var n := Min(remaining, |e| - entryOffset);
      var next := currentOffset + n;
      WalkSound(data, Lookup(data, next), 0, next, remaining - n);
      var rest := Walk(data, Lookup(data, next), 0, next, remaining - n).value;
      var r := Walk(data, entry, entryOffset, currentOffset, remaining).value;
      assert r == e[entryOffset..entryOffset + n] + rest;
      forall i | 0 <= i < |r| ensures Recorded(data, currentOffset + i, r[i]) {
        if i < n {
          var k := currentOffset - entryOffset;
          assert data[k][currentOffset + i - k] == r[i];
        } else {
          assert Recorded(data, next + (i - n), rest[i - n]);
          assert next + (i - n) == currentOffset + i;
        }
      }
    }
  }

  /** Soundness of a read: an available result has exactly the requested length (none for a
      negative one) and each of its bytes is recorded at its offset. */
  lemma ReconstructSound(data: map<int, seq<byte>>, offset: int, length: int)
    requires Reconstruct(data, offset, length).Some?
    ensures Covers(data, offset)
    ensures var r := Reconstruct(data, offset, length).value;
      |r| == Max(length, 0) && forall i :: 0 <= i < |r| ==> Recorded(data, offset + i, r[i])
  {
    var k := FloorKey(data.Keys, offset).value;
    WalkSound(data, Some(data[k]), offset - k, offset, length);
  }

  /** In a non-overlapping store the fragment covering an offset is unique. */
  lemma CoverUnique(data: map<int, seq<byte>>, a: int, b: int, p: int)
    requires NonOverlapping(data)
    requires a in data && a <= p < a + |data[a]|
    requires b in data && b <= p < b + |data[b]|
    ensures a == b
  {
  }

  /** In a non-overlapping store, an offset that is covered and where a fragment ends is the
      start of a non-empty fragment. */
  lemma CoverAtBoundary(data: map<int, seq<byte>>, a: int, p: int)
    requires NonOverlapping(data)
    requires a in data && a < p == a + |data[a]|
    requires Covers(data, p)
    ensures p in data && |data[p]| > 0
  {
    var k :| k in data && k <= p < k + |data[k]|;
  }

  /** Completeness of the walk in a non-overlapping store: when every byte still needed is
      covered, the walk finds them all. */
  lemma {:induction false} WalkComplete(data: map<int, seq<byte>>, entryOffset: nat, currentOffset: int, remaining: int)
    requires NonOverlapping(data)
    requires currentOffset - entryOffset in data
    requires remaining > 0 ==> entryOffset < |data[currentOffset - entryOffset]|
    requires forall p :: currentOffset <= p < currentOffset + remaining ==> Covers(data, p)
    ensures Walk(data, Some(data[currentOffset - entryOffset]), entryOffset, currentOffset, remaining).Some?
    decreases Max(remaining, 0)
  {
    if remaining > 0 {
      var a := currentOffset - entryOffset;
      var n := Min(remaining, |data[a]| - entryOffset);
      var next := currentOffset + n;
      if remaining - n > 0 {
        assert Covers(data, next);
        CoverAtBoundary(data, a, next);
        assert Lookup(data, next) == Some(data[next - 0]);
        WalkComplete(data, 0, next, remaining - n);
      }
    }
  }

  /** The bytes [offset, offset + length) are resident: the start offset is covered, and so is
      every requested byte. */
  ghost predicate Resident(data: map<int, seq<byte>>, offset: int, length: int)
  {
    Covers(data, offset) && forall p :: offset <= p < offset + length ==> Covers(data, p)
  }

  /** In a non-overlapping store an available read covers the requested range, and each
      returned byte is the stored one. */
  lemma ReconstructOnlyResident(data: map<int, seq<byte>>, offset: int, length: int)
    requires NonOverlapping(data)
    requires Reconstruct(data, offset, length).Some?
    ensures Resident(data, offset, length)
    ensures var r := Reconstruct(data, offset, length).value;
      |r| == Max(length, 0) && forall i :: 0 <= i < |r| ==> r[i] == ByteAt(data, offset + i)
  {
    ReconstructSound(data, offset, length);
    var r := Reconstruct(data, offset, length).value;
    forall p | offset <= p < offset + length ensures Covers(data, p) {
      assert Recorded(data, offset + (p - offset), r[p - offset]);
    }
    forall i | 0 <= i < |r| ensures r[i] == ByteAt(data, offset + i) {
      assert Recorded(data, offset + i, r[i]);
      var k1 :| k1 in data && k1 <= offset + i < k1 + |data[k1]| && data[k1][offset + i - k1] == r[i];
      var k2 :| k2 in data && k2 <= offset + i < k2 + |data[k2]| && data[k2][offset + i - k2] == ByteAt(data, offset + i);
      CoverUnique(data, k1, k2, offset + i);
    }
  }

  /** In a non-overlapping store a resident range is always available. */
  lemma ResidentReadable(data: map<int, seq<byte>>, offset: int, length: int)
    requires NonOverlapping(data)
    requires Resident(data, offset, length)
    ensures Reconstruct(data, offset, length).Some?
  {
    var c :| c in data && c <= offset < c + |data[c]|;
    var k := FloorKey(data.Keys, offset).value;
    CoverUnique(data, c, k, offset);
    WalkComplete(data, offset - k, offset, length);
  }

  /** In a non-overlapping store a read is available exactly when the requested range is
      resident, and then it returns the stored bytes. */
  lemma ReconstructExact(data: map<int, seq<byte>>, offset: int, length: int)
    requires NonOverlapping(data)
    ensures Reconstruct(data, offset, length).Some? <==> Resident(data, offset, length)
    ensures Reconstruct(data, offset, length).Some? ==>
      var r := Reconstruct(data, offset, length).value;
      |r| == Max(length, 0) && forall i :: 0 <= i < |r| ==> r[i] == ByteAt(data, offset + i)
  {
    if Reconstruct(data, offset, length).Some? {
      ReconstructOnlyResident(data, offset, length);
    }
    if Resident(data, offset, length) {
      ResidentReadable(data, offset, length);
    }
  }

  /** Two fragments recorded back to back are read as one: the first fragment and the one
      starting where it ends join into their concatenation. */
  lemma AdjacentFragmentsJoin(a: int, first: seq<byte>, second: seq<byte>)
    requires |first| > 0 && |second| > 0
    ensures Reconstruct(map[a := first, a + |first| := second], a, |first| + |second|) == Some(first + second)
    ensures Reconstruct(map[a := first, a + |first| := second], a - 1, |first| + |second|) == None
  {
    var data := map[a := first, a + |first| := second];
    var end := a + |first|;
    assert data.Keys == {a, end};
    assert FloorKey(data.Keys, a) == Some(a);
    assert FloorKey(data.Keys, a - 1) == None;
    assert Lookup(data, end) == Some(second);
    assert Lookup(data, end + |second|) == None;
    assert Walk(data, None, 0, end + |second|, 0) == Some([]);
    assert second[0..|second|] + [] == second;
    assert Walk(data, Some(second), 0, end, |second|) == Some(second);
    assert first[0..|first|] == first;
    assert Walk(data, Some(first), 0, a, |first| + |second|) == Glue(first, Some(second));
  }

  class AppendData {
    /** TreeMap<Long, byte[]>: the fragment recorded at each segment offset. */
    var data: map<int, seq<byte>>

    constructor ()
      ensures data == map[]
    {
      data := map[];
    }

    /** Records a fragment; a fragment already recorded at the same offset is replaced. */
    method Append(segmentOffset: int, bytes: seq<byte>)
      modifies this
      ensures data == old(data)[segmentOffset := bytes]
    {
      data := data[segmentOffset := bytes];
    }

    /** Reads `length` bytes from `segmentOffset`: None when the floor fragment does not reach
        the offset, or when the chain of exactly adjacent fragments runs out first. The loop
        also ends at an empty fragment, on which the loop of the Java `AppendData.read` never ends. */
    method Read(segmentOffset: int, length: int) returns (r: Option<seq<byte>>)
      ensures r == Reconstruct(data, segmentOffset, length)
    {
      var floor := FloorKey(data.Keys, segmentOffset);
      if floor.None? || floor.value + |data[floor.value]| <= segmentOffset {
        return None;
      }
      var result: seq<byte> := [];
      var currentOffset := segmentOffset;
      var entryOffset: nat := segmentOffset - floor.value;
      var entryData: Option<seq<byte>> := Some(data[floor.value]);
      var remainingLength := length;
      GlueEmpty(Walk(data, entryData, entryOffset, currentOffset, remainingLength));
      while entryData.Some? && remainingLength > 0 && entryOffset < |entryData.value|
        invariant Reconstruct(data, segmentOffset, length) == Glue(result, Walk(data, entryData, entryOffset, currentOffset, remainingLength))
        decreases Max(remainingLength, 0)
      {
        var entryLength := Min(remainingLength, |entryData.value| - entryOffset);
        GlueAssoc(result, entryData.value[entryOffset..entryOffset + entryLength],
          Walk(data, Lookup(data, currentOffset + entryLength), 0, currentOffset + entryLength, remainingLength - entryLength));
        result := result + entryData.value[entryOffset..entryOffset + entryLength];
        currentOffset := currentOffset + entryLength;
        remainingLength := remainingLength - entryLength;
        entryOffset := 0;
        entryData := Lookup(data, currentOffset);
      }
      if remainingLength > 0 {
        return None;
      }
      assert result + [] == result;
      return Some(result);
    }
  }

  /** One iteration of the read loop exactly as the Java `AppendData.read` writes it, whose guard does not
      look at how much of the entry is left. */
  datatype ReadCursor = ReadCursor(currentOffset: int, entryOffset: nat, entryData: Option<seq<byte>>, remainingLength: int)

  predicate GuardAsWritten(c: ReadCursor)
  {
    c.entryData.Some? && c.remainingLength > 0
  }

  function StepAsWritten(data: map<int, seq<byte>>, c: ReadCursor): ReadCursor
    requires GuardAsWritten(c) && c.entryOffset <= |c.entryData.value|
  {
    var entryLength := Min(c.remainingLength, |c.entryData.value| - c.entryOffset);
    var next := c.currentOffset + entryLength;
    ReadCursor(next, 0, Lookup(data, next), c.remainingLength - entryLength)
  }

  /** At most `fuel` iterations of the as-written loop, stopping when its guard fails. */
  function RunAsWritten(data: map<int, seq<byte>>, c: ReadCursor, fuel: nat): ReadCursor
    decreases fuel
  {
    if fuel == 0 || !GuardAsWritten(c) || |c.entryData.value| < c.entryOffset then c
    else RunAsWritten(data, StepAsWritten(data, c), fuel - 1)
  }

  /** Once the as-written loop reaches an empty fragment while bytes are still needed, no number
      of iterations moves it or lets it exit. */
  lemma {:induction false} EmptyFragmentStallsRead(data: map<int, seq<byte>>, c: ReadCursor, fuel: nat)
    requires c.currentOffset in data && data[c.currentOffset] == []
    requires c.entryData == Some([]) && c.entryOffset == 0 && c.remainingLength > 0
    ensures RunAsWritten(data, c, fuel) == c && GuardAsWritten(RunAsWritten(data, c, fuel))
  {
    if fuel > 0 {
      assert StepAsWritten(data, c) == c;
      EmptyFragmentStallsRead(data, c, fuel - 1);
    }
  }

  /** A concrete store that shows it: fragments [1, 2] at 0 and [] at 2, read 3 bytes from 0.
      The as-written loop takes the two bytes and then spins at offset 2 forever; the corrected
      read reports the data as unavailable. */
  lemma EmptyFragmentCounterexample(fuel: nat)
    ensures var data := map[0 := [1, 2], 2 := []];
      var stuck := ReadCursor(2, 0, Some([]), 1);
      StepAsWritten(data, ReadCursor(0, 0, Some([1, 2]), 3)) == stuck
      && GuardAsWritten(RunAsWritten(data, stuck, fuel))
      && Reconstruct(data, 0, 3) == None
  {
    var data: map<int, seq<byte>> := map[0 := [1, 2], 2 := []];
    EmptyFragmentStallsRead(data, ReadCursor(2, 0, Some([]), 1), fuel);
    assert 0 in data.Keys;
    assert FloorKey(data.Keys, 0) == Some(0);
    assert Lookup(data, 2) == Some([]);
  }
}
