/**
 Annex B start codes (section B.1 of ITU-T H.264) and the two ways the repository
 cuts a byte stream at them: one scan over the whole stream, and an incremental
 reader over a buffer that grows by one chunk per read.
 */
module StartCodes {
  import opened Bytes

  /** 3 or 4 when a start code begins at `offset`, else 0. */
  function StartCodeSize(data: seq<byte>, offset: int): (size: nat)
    ensures size != 0 ==> 0 <= offset && 3 <= size <= 4 && offset + size <= |data|
  {
    if offset < 0 then 0
    else if offset + 3 <= |data| && data[offset] == 0 && data[offset + 1] == 0 && data[offset + 2] == 1 then 3
    else if offset + 4 <= |data| && data[offset] == 0 && data[offset + 1] == 0
            && data[offset + 2] == 0 && data[offset + 3] == 1 then 4
    else 0
  }

  /** A start code is 00 00 01 or 00 00 00 01, and nothing else. */
  lemma StartCodeIs(data: seq<byte>, offset: nat)
    requires offset <= |data|
    ensures StartCodeSize(data, offset) == 3 <==> [0, 0, 1] <= data[offset..]
    ensures StartCodeSize(data, offset) == 4 <==> [0, 0, 0, 1] <= data[offset..]
    ensures StartCodeSize(data, offset) in {0, 3, 4}
  {
    var rest := data[offset..];
    assert |rest| >= 3 ==> rest[..3] == [rest[0], rest[1], rest[2]];
    assert |rest| >= 4 ==> rest[..4] == [rest[0], rest[1], rest[2], rest[3]];
  }

  /** The least position from `offset` on at which a start code begins, or -1. */
  function First(data: seq<byte>, offset: int): (r: int)
    ensures r == -1 || (offset <= r && 0 <= r && StartCodeSize(data, r) != 0)
    decreases |data| - offset
  {
    if offset + 3 > |data| then -1
    else if StartCodeSize(data, offset) != 0 then offset
    else First(data, offset + 1)
  }

  /** No start code begins between `offset` and the position found. */
  lemma {:induction false} NoneBeforeFirst(data: seq<byte>, offset: int, i: int)
    requires offset <= i && (First(data, offset) < 0 || i < First(data, offset))
    ensures StartCodeSize(data, i) == 0
    decreases |data| - offset
  {
    if offset + 3 <= |data| && offset < i {
      NoneBeforeFirst(data, offset + 1, i);
    }
  }

  lemma {:induction false} FirstIs(data: seq<byte>, offset: int, r: int)
    requires offset <= r && StartCodeSize(data, r) != 0
    requires forall i {:trigger StartCodeSize(data, i)} :: offset <= i < r ==> StartCodeSize(data, i) == 0
    ensures First(data, offset) == r
    decreases r - offset
  {
    if offset < r {
      assert StartCodeSize(data, offset) == 0;
      FirstIs(data, offset + 1, r);
    }
  }

  /** `_find_start_code`: the scanning loop. */
  method FindStartCode(data: seq<byte>, offset: int) returns (r: int)
    ensures r == First(data, offset)
  {
    var i := offset;
    while i < |data| - 2
      invariant First(data, offset) == First(data, i)
    {
      if StartCodeSize(data, i) != 0 {
        return i;
      }
      i := i + 1;
    }
    return -1;
  }

  // ----- the one-shot scan --------------------------------------------------

  /** The NAL units of a stream that begins with a start code, start codes included. */
  function Nals(data: seq<byte>): (nals: seq<seq<byte>>)
    requires StartCodeSize(data, 0) != 0
    decreases |data|
  {
    var next := First(data, StartCodeSize(data, 0));
    if next < 0 then [data] else [data[..next]] + Nals(data[next..])
  }

  /** The NAL units of an arbitrary stream: what precedes the first start code is not part of any. */
  function Scan(data: seq<byte>): (nals: seq<seq<byte>>)
  {
    var first := First(data, 0);
    if first < 0 then [] else Nals(data[first..])
  }

  lemma {:induction false} NalsConserve(data: seq<byte>)
    requires StartCodeSize(data, 0) != 0
    ensures Flatten(Nals(data)) == data
    decreases |data|
  {
    var next := First(data, StartCodeSize(data, 0));
    if next < 0 {
      assert Flatten([data]) == data;
    } else {
      NalsConserve(data[next..]);
      assert data == data[..next] + data[next..];
      assert ([data[..next]] + Nals(data[next..]))[1..] == Nals(data[next..]);
    }
  }

  /** Scanning loses exactly the bytes before the first start code. */
  lemma ScanConserves(data: seq<byte>)
    ensures Flatten(Scan(data)) == if First(data, 0) < 0 then [] else data[First(data, 0)..]
  {
    if First(data, 0) >= 0 {
      NalsConserve(data[First(data, 0)..]);
    }
  }

  lemma {:induction false} NalsBeginWithStartCode(data: seq<byte>)
    requires StartCodeSize(data, 0) != 0
    ensures forall i :: 0 <= i < |Nals(data)| ==> StartCodeSize(Nals(data)[i], 0) != 0
    decreases |data|
  {
    var next := First(data, StartCodeSize(data, 0));
    if next >= 0 {
      NalsBeginWithStartCode(data[next..]);
      assert StartCodeSize(data[..next], 0) == StartCodeSize(data, 0);
    }
  }

  // ----- stability under extension and shifting -------------------------------

  /** A start code found in a prefix stays the first one, with the same size, when bytes are appended. */
  lemma FirstExtends(data: seq<byte>, more: seq<byte>, offset: int)
    requires First(data, offset) >= 0
    ensures First(data + more, offset) == First(data, offset)
    ensures StartCodeSize(data + more, First(data, offset)) == StartCodeSize(data, First(data, offset))
  {
    var r := First(data, offset);
    forall i | offset <= i < r
      ensures StartCodeSize(data + more, i) == 0
    {
      NoneBeforeFirst(data, offset, i);
    }
    FirstIs(data + more, offset, r);
  }

  lemma StartCodeShift(data: seq<byte>, k: nat, i: nat)
    requires k <= |data|
    ensures StartCodeSize(data[k..], i) == StartCodeSize(data, k + i)
  {
  }

  /** Scanning from an absolute offset is scanning the suffix. */
  lemma FirstShift(data: seq<byte>, k: nat, offset: nat)
    requires k <= |data|
    ensures First(data, k + offset) == (if First(data[k..], offset) < 0 then -1 else k + First(data[k..], offset))
    decreases |data| - offset
  {
    if k + offset + 3 <= |data| {
      StartCodeShift(data, k, offset);
      if StartCodeSize(data, k + offset) == 0 {
        FirstShift(data, k, offset + 1);
      }
    }
  }

  // ----- the incremental reader -----------------------------------------------

  /** What the inner loop of the reader takes out of a buffer, and the buffer it leaves. */
  datatype Drained = Drained(nals: seq<seq<byte>>, rest: seq<byte>)

  /** Once the buffer begins with a start code: cut at every further one. */
  function DrainFrom(buffer: seq<byte>): (d: Drained)
    requires StartCodeSize(buffer, 0) != 0
    decreases |buffer|
  {
    var second := First(buffer, StartCodeSize(buffer, 0));
    if second < 0 then Drained([], buffer)
    else
      var d := DrainFrom(buffer[second..]);
      Drained([buffer[..second]] + d.nals, d.rest)
  }

  /** Bytes before the first start code are dropped; without any start code the buffer is cleared. */
  function Drain(buffer: seq<byte>): (d: Drained)
  {
    var first := First(buffer, 0);
    if first < 0 then Drained([], []) else DrainFrom(buffer[first..])
  }

  /** The NAL units the reader hands on, given its buffer and the reads still to come. */
  function ReaderNals(chunks: seq<seq<byte>>, buffer: seq<byte>): (nals: seq<seq<byte>>)
    decreases |chunks|
  {
    if chunks == [] then (if buffer == [] then [] else [buffer])
    else
      var d := Drain(buffer + chunks[0]);
      d.nals + ReaderNals(chunks[1..], d.rest)
  }

  /** One start code, at the front: the shape of the buffer between reads once a code was seen. */
  predicate Settled(buffer: seq<byte>)
  {
    StartCodeSize(buffer, 0) != 0 && First(buffer, StartCodeSize(buffer, 0)) < 0
  }

  /** The next cut, once found, is the cut of the whole stream. */
  lemma NalsAtCut(buffer: seq<byte>, more: seq<byte>)
    requires StartCodeSize(buffer, 0) != 0
    requires First(buffer, StartCodeSize(buffer, 0)) >= 0
    ensures var second := First(buffer, StartCodeSize(buffer, 0));
            && StartCodeSize(buffer[second..], 0) != 0
            && StartCodeSize(buffer + more, 0) != 0
            && StartCodeSize(buffer[second..] + more, 0) != 0
            && Nals(buffer + more) == [buffer[..second]] + Nals(buffer[second..] + more)
  {
    var second := First(buffer, StartCodeSize(buffer, 0));
    StartCodeShift(buffer, second, 0);
    FirstExtends(buffer, more, StartCodeSize(buffer, 0));
    assert (buffer + more)[..second] == buffer[..second];
    assert (buffer + more)[second..] == buffer[second..] + more;
  }

  /** Draining never commits to a cut that later bytes would move. */
  lemma {:induction false} DrainExtends(buffer: seq<byte>, more: seq<byte>)
    requires StartCodeSize(buffer, 0) != 0
    ensures Settled(DrainFrom(buffer).rest)
    ensures StartCodeSize(buffer + more, 0) != 0 && StartCodeSize(DrainFrom(buffer).rest + more, 0) != 0
    ensures Nals(buffer + more) == DrainFrom(buffer).nals + Nals(DrainFrom(buffer).rest + more)
    decreases |buffer|
  {
    var second := First(buffer, StartCodeSize(buffer, 0));
    if second < 0 {
      assert StartCodeSize(buffer + more, 0) == StartCodeSize(buffer, 0);
    } else {
      NalsAtCut(buffer, more);
      DrainExtends(buffer[second..], more);
      var d := DrainFrom(buffer[second..]);
      ConcatAssociates([buffer[..second]], d.nals, Nals(d.rest + more));
    }
  }

  lemma DrainAtStartCode(buffer: seq<byte>)
    requires StartCodeSize(buffer, 0) != 0
    ensures Drain(buffer) == DrainFrom(buffer)
  {
    assert buffer[0..] == buffer;
  }

  lemma {:induction false} ReaderFromSettled(chunks: seq<seq<byte>>, buffer: seq<byte>)
    requires Settled(buffer)
    ensures StartCodeSize(buffer + Flatten(chunks), 0) != 0
    ensures ReaderNals(chunks, buffer) == Nals(buffer + Flatten(chunks))
    decreases |chunks|
  {
    if chunks == [] {
      assert buffer + Flatten(chunks) == buffer;
    } else {
      var b := buffer + chunks[0];
      assert StartCodeSize(b, 0) == StartCodeSize(buffer, 0);
      assert buffer + Flatten(chunks) == b + Flatten(chunks[1..]);
      DrainAtStartCode(b);
      DrainExtends(b, Flatten(chunks[1..]));
      ReaderFromSettled(chunks[1..], Drain(b).rest);
    }
  }

  /** How many reads pass before one of them contains a whole start code. */
  function Missed(chunks: seq<seq<byte>>): (k: nat)
    ensures k <= |chunks|
    ensures k < |chunks| ==> First(chunks[k], 0) >= 0
  {
    if chunks == [] || First(chunks[0], 0) >= 0 then 0 else 1 + Missed(chunks[1..])
  }

  lemma {:induction false} MissedIsLeast(chunks: seq<seq<byte>>, j: nat)
    requires j < |chunks| && First(chunks[j], 0) >= 0
    ensures Missed(chunks) <= j
  {
    if j > 0 && First(chunks[0], 0) < 0 {
      MissedIsLeast(chunks[1..], j - 1);
    }
  }

  lemma ScanFromFirst(chunk: seq<byte>, rest: seq<byte>)
    requires First(chunk, 0) >= 0
    ensures StartCodeSize(chunk[First(chunk, 0)..], 0) != 0
    ensures StartCodeSize(chunk[First(chunk, 0)..] + rest, 0) != 0
    ensures Scan(chunk + rest) == Nals(chunk[First(chunk, 0)..] + rest)
  {
    var first := First(chunk, 0);
    FirstExtends(chunk, rest, 0);
    StartCodeShift(chunk, first, 0);
    StartCodeShift(chunk + rest, first, 0);
    assert (chunk + rest)[first..] == chunk[first..] + rest;
  }

  /** From a read that holds a whole start code on, the reader is the one-shot scan. */
  lemma ReaderFromHit(chunk: seq<byte>, chunks: seq<seq<byte>>)
    requires First(chunk, 0) >= 0
    ensures Drain(chunk).nals + ReaderNals(chunks, Drain(chunk).rest) == Scan(chunk + Flatten(chunks))
  {
    ScanFromFirst(chunk, Flatten(chunks));
    var b := chunk[First(chunk, 0)..];
    DrainExtends(b, Flatten(chunks));
    ReaderFromSettled(chunks, DrainFrom(b).rest);
  }

  /**
   What the reader does for EVERY chunking: until one read alone contains a whole start
   code the buffer is cleared, and from that read on the result is the one-shot scan.
   */
  lemma {:induction false} ReaderIsScanOfRest(chunks: seq<seq<byte>>)
    ensures ReaderNals(chunks, []) == Scan(Flatten(chunks[Missed(chunks)..]))
    decreases |chunks|
  {
    if chunks != [] {
      assert [] + chunks[0] == chunks[0];
      if First(chunks[0], 0) < 0 {
        ReaderIsScanOfRest(chunks[1..]);
        assert chunks[Missed(chunks)..] == chunks[1..][Missed(chunks[1..])..];
      } else {
        ReaderFromHit(chunks[0], chunks[1..]);
        assert chunks[0..] == chunks;
      }
    }
  }

  /** The first start code of the stream lies inside one read (or there is none at all). */
  predicate FirstCodeUnsplit(chunks: seq<seq<byte>>)
  {
    var stream := Flatten(chunks);
    var p := First(stream, 0);
    p < 0 || exists k :: 0 <= k < |chunks| && |Flatten(chunks[..k])| <= p
                         && p + StartCodeSize(stream, p) <= |Flatten(chunks[..k])| + |chunks[k]|
  }

  /** A start code inside chunk `k` is a start code of the whole stream, and conversely. */
  lemma CodeInChunk(chunks: seq<seq<byte>>, k: nat, i: nat)
    requires k < |chunks|
    ensures |Flatten(chunks[..k])| + |chunks[k]| <= |Flatten(chunks)|
    ensures StartCodeSize(chunks[k], i) != 0 ==>
              StartCodeSize(Flatten(chunks), |Flatten(chunks[..k])| + i) == StartCodeSize(chunks[k], i)
    ensures var p := |Flatten(chunks[..k])| + i;
            p + StartCodeSize(Flatten(chunks), p) <= |Flatten(chunks[..k])| + |chunks[k]| ==>
              StartCodeSize(chunks[k], i) == StartCodeSize(Flatten(chunks), p)
  {
    var a, c, z := Flatten(chunks[..k]), chunks[k], Flatten(chunks[k + 1..]);
    assert chunks == chunks[..k] + chunks[k..];
    FlattenAppend(chunks[..k], chunks[k..]);
    assert chunks[k..][1..] == chunks[k + 1..];
    assert Flatten(chunks) == a + (c + z);
    assert (a + (c + z))[|a|..] == c + z;
    StartCodeShift(a + (c + z), |a|, i);
  }

  lemma PrefixLength(chunks: seq<seq<byte>>, k: nat, j: nat)
    requires k < j <= |chunks|
    ensures |Flatten(chunks[..k])| + |chunks[k]| <= |Flatten(chunks[..j])|
  {
    assert chunks[..j] == chunks[..k] + chunks[k..j];
    FlattenAppend(chunks[..k], chunks[k..j]);
  }

  /** Where the first start code that some read holds whole lies in the stream; -1 when there is none. */
  function FirstHit(chunks: seq<seq<byte>>): (q: int)
    ensures q < 0 <==> Missed(chunks) == |chunks|
  {
    var k := Missed(chunks);
    if k == |chunks| then -1 else |Flatten(chunks[..k])| + First(chunks[k], 0)
  }

  lemma FirstAtMost(stream: seq<byte>, q: nat)
    requires StartCodeSize(stream, q) != 0
    ensures 0 <= First(stream, 0) <= q
  {
    if First(stream, 0) < 0 || q < First(stream, 0) {
      NoneBeforeFirst(stream, 0, q);
    }
  }

  lemma FirstHitIsCode(chunks: seq<seq<byte>>)
    requires FirstHit(chunks) >= 0
    ensures 0 <= First(Flatten(chunks), 0) <= FirstHit(chunks)
    ensures First(Flatten(chunks), 0) == FirstHit(chunks) ==> FirstCodeUnsplit(chunks)
  {
    var k, stream, q := Missed(chunks), Flatten(chunks), FirstHit(chunks);
    var i := First(chunks[k], 0);
    var size := StartCodeSize(stream, q);
    assert size == StartCodeSize(chunks[k], i) && size != 0 && i + size <= |chunks[k]| by {
      CodeInChunk(chunks, k, i);
    }
    FirstAtMost(stream, q);
  }

  lemma WholeInChunkIsFirstHit(chunks: seq<seq<byte>>, j: nat)
    requires j < |chunks|
    requires var p := First(Flatten(chunks), 0);
             && |Flatten(chunks[..j])| <= p
             && p + StartCodeSize(Flatten(chunks), p) <= |Flatten(chunks[..j])| + |chunks[j]|
    ensures FirstHit(chunks) == First(Flatten(chunks), 0)
  {
    var p := First(Flatten(chunks), 0);
    var i := p - |Flatten(chunks[..j])|;
    assert 0 <= First(chunks[j], 0) <= i by {
      CodeInChunk(chunks, j, i);
      if First(chunks[j], 0) < 0 || i < First(chunks[j], 0) {
        NoneBeforeFirst(chunks[j], 0, i);
      }
    }
    MissedIsLeast(chunks, j);
    FirstHitIsCode(chunks);
    if Missed(chunks) < j {
      PrefixLength(chunks, Missed(chunks), j);
    }
  }

  lemma UnsplitIsFirstHit(chunks: seq<seq<byte>>)
    requires FirstCodeUnsplit(chunks) && First(Flatten(chunks), 0) >= 0
    ensures FirstHit(chunks) == First(Flatten(chunks), 0)
  {
    var stream := Flatten(chunks);
    var p := First(stream, 0);
    var j :| 0 <= j < |chunks| && |Flatten(chunks[..j])| <= p
             && p + StartCodeSize(stream, p) <= |Flatten(chunks[..j])| + |chunks[j]|;
    WholeInChunkIsFirstHit(chunks, j);
  }

  /** Where the kept part of the stream begins, and the scan of it. */
  lemma ScanOfRest(chunks: seq<seq<byte>>)
    ensures var rest, q := Flatten(chunks[Missed(chunks)..]), FirstHit(chunks);
            if q < 0 then rest == []
            else First(rest, 0) >= 0 && q <= |Flatten(chunks)| && rest[First(rest, 0)..] == Flatten(chunks)[q..]
  {
    var k := Missed(chunks);
    var rest := chunks[k..];
    assert chunks == chunks[..k] + rest;
    FlattenAppend(chunks[..k], rest);
    if k < |chunks| {
      FirstExtends(rest[0], Flatten(rest[1..]), 0);
      DropPastPrefix(Flatten(chunks[..k]), Flatten(rest), First(chunks[k], 0));
    }
  }

  /**
   Chunk independence, exactly: the incremental reader yields the one-shot scan of the
   whole stream if and only if no read boundary falls inside the first start code.
   */
  lemma ChunkIndependence(chunks: seq<seq<byte>>)
    ensures ReaderNals(chunks, []) == Scan(Flatten(chunks)) <==> FirstCodeUnsplit(chunks)
  {
    var stream, rest, q := Flatten(chunks), Flatten(chunks[Missed(chunks)..]), FirstHit(chunks);
    ReaderIsScanOfRest(chunks);
    ScanOfRest(chunks);
    ScanConserves(stream);
    ScanConserves(rest);
    if q >= 0 {
      FirstHitIsCode(chunks);
    }
    if First(stream, 0) >= 0 && FirstCodeUnsplit(chunks) {
      UnsplitIsFirstHit(chunks);
    }
  }

  /** A first start code cut by a read boundary is lost: the reader drops a whole NAL unit. */
  lemma SplitFirstCodeLosesNal()
    ensures ReaderNals([[0, 0], [1, 101, 0, 0, 1, 65]], []) == [[0, 0, 1, 65]]
    ensures Scan([0, 0, 1, 101, 0, 0, 1, 65]) == [[0, 0, 1, 101], [0, 0, 1, 65]]
  {
    var tail: seq<byte> := [0, 0, 1, 65];
    var stream: seq<byte> := [0, 0, 1, 101, 0, 0, 1, 65];
    var chunk: seq<byte> := [1, 101, 0, 0, 1, 65];
    FirstIs(stream, 0, 0);
    FirstIs(stream, 3, 4);
    FirstIs(chunk, 0, 2);
    assert stream[0..] == stream && stream[4..] == tail && chunk[2..] == tail;
    assert Nals(tail) == [tail];
    assert Nals(stream) == [stream[..4]] + Nals(tail);
    assert stream[..4] == [0, 0, 1, 101];
    var chunks: seq<seq<byte>> := [[0, 0], chunk];
    assert chunks[1..] == [chunk];
    assert Missed(chunks) == 1 by { assert Missed(chunks[1..]) == 0; }
    ReaderIsScanOfRest(chunks);
    assert Flatten([chunk]) == chunk;
  }
}
