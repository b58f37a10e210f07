/**
 `_H264Encoder`: the reader thread that turns the encoder process's output into numbered
 access units, and the queue from which `send` takes them.
 */
module H264Encoding {
  import opened Bytes
  import opened StartCodes
  import opened Ebsp
  import opened SliceHeader
  import opened AccessUnits
  import opened WrittenNals

  /** A queued access unit: its frame index and its bytes. */
  datatype QueuedUnit = QueuedUnit(index: nat, bytes: seq<byte>)

  /** Units numbered from `from`, each joined into one byte string. */
  function Numbered(units: seq<seq<Nal>>, from: nat): (q: seq<QueuedUnit>)
    ensures |q| == |units|
    ensures forall k :: 0 <= k < |units| ==> q[k] == QueuedUnit(from + k, Flatten(units[k]))
  {
    if units == [] then [] else [QueuedUnit(from, Flatten(units[0]))] + Numbered(units[1..], from + 1)
  }

  lemma NumberedSnoc(units: seq<seq<Nal>>, unit: seq<Nal>)
    ensures Numbered(units + [unit], 0) == Numbered(units, 0) + [QueuedUnit(|units|, Flatten(unit))]
  {
  }

  /** The reads that reach the loop: an empty read is the end of the stream. */
  function UntilEof(returned: seq<seq<byte>>): (chunks: seq<seq<byte>>) {
    if returned == [] || returned[0] == [] then [] else [returned[0]] + UntilEof(returned[1..])
  }

  class H264Encoder {
    var currentNals: seq<Nal>
    var currentHasVcl: bool
    var frameIndex: nat
    var queue: seq<QueuedUnit>
    ghost var units: seq<seq<Nal>>  // every access unit emitted so far
    ghost var taken: nat            // how many of them `Take` has handed out

    ghost predicate Valid() reads this {
      && frameIndex == |units|
      && taken <= |units|
      && queue == Numbered(units, 0)[taken..]
    }

    ghost function State(): (g: Grouping) reads this {
      Grouping(units, currentNals, currentHasVcl)
    }

    constructor ()
      ensures Valid() && State() == NOTHING && taken == 0
    {
      currentNals, currentHasVcl, frameIndex, queue := [], false, 0, [];
      units, taken := [], 0;
    }

    /** `take`: None stands for the timeout on an empty queue. */
    method Take() returns (r: Option<QueuedUnit>)
      requires Valid()
      modifies this`queue, this`taken
      ensures Valid()
      ensures r.None? <==> old(taken) == |units|
      ensures r.None? ==> taken == old(taken)
      ensures r.Some? ==> taken == old(taken) + 1 && r.value == QueuedUnit(old(taken), Flatten(units[old(taken)]))
    {
      if queue == [] {
        return None;
      }
      r := Some(queue[0]);
      queue := queue[1..];
      taken := taken + 1;
    }

    method EmitCurrentUnit()
      requires Valid()
      modifies this
      ensures Valid() && taken == old(taken)
      ensures State() == EmitCurrent(old(State()))
    {
      if currentNals != [] && currentHasVcl {
        NumberedSnoc(units, currentNals);
        queue := queue + [QueuedUnit(frameIndex, Flatten(currentNals))];
        frameIndex := frameIndex + 1;
        units := units + [currentNals];
      }
      currentNals := [];
      currentHasVcl := false;
    }

    method ProcessOneNal(nal: Nal)
      requires Valid()
      modifies this
      ensures Valid() && taken == old(taken)
      ensures State() == ProcessNal(old(State()), nal)
    {
      var scSize := StartCodeSize(nal, 0);
      if scSize == 0 || |nal| <= scSize {
        return;
      }
      var nalType := nal[scSize] % 32;
      var isVcl := 1 <= nalType <= 5;
      var startsNewUnit := nalType == 9;
      if !startsNewUnit && isVcl {
        var firstMb := ReadFirstMbInSlice(nal);
        startsNewUnit := firstMb == Some(0);
      }
      if startsNewUnit && currentHasVcl {
        EmitCurrentUnit();
      }
      currentNals := currentNals + [nal];
      currentHasVcl := currentHasVcl || isVcl;
    }

    /** Some more NAL units. */
    method ProcessNals(nals: seq<Nal>)
      requires Valid()
      modifies this
      ensures Valid() && taken == old(taken)
      ensures State() == ProcessAll(old(State()), nals)
      ensures old(units) <= units
    {
      assert nals[0..] == nals;
      for i := 0 to |nals|
        invariant Valid() && taken == old(taken) && old(units) <= units
        invariant ProcessAll(State(), nals[i..]) == ProcessAll(old(State()), nals)
      {
        assert nals[i..][1..] == nals[i + 1..];
        ProcessOneNal(nals[i]);
      }
    }

    /**
     Progress of the reader thread between two takes: more NAL units, and the final flush when the
     stream has ended.
     */
    method ReaderProgress(nals: seq<Nal>, ended: bool)
      requires Valid()
      modifies this
      ensures Valid() && taken == old(taken) && old(units) <= units
      ensures State() == var g := ProcessAll(old(State()), nals); if ended then EmitCurrent(g) else g
    {
      ProcessNals(nals);
      if ended {
        EmitCurrentUnit();
      }
    }

    /** The inner loop of `_reader_loop`: hand on every NAL unit the buffer completes. */
    method DrainBuffer(buffer0: seq<byte>) returns (buffer: seq<byte>)
      requires Valid()
      modifies this
      ensures Valid() && taken == old(taken)
      ensures buffer == Drain(buffer0).rest
      ensures State() == ProcessAll(old(State()), Drain(buffer0).nals)
    {
      buffer := buffer0;
      while true
        invariant Valid() && taken == old(taken)
        invariant Drain(buffer0).rest == Drain(buffer).rest
        invariant ProcessAll(old(State()), Drain(buffer0).nals) == ProcessAll(State(), Drain(buffer).nals)
        decreases |buffer|
      {
        var first := FindStartCode(buffer, 0);
        if first < 0 {
          return [];
        }
        ghost var d := Drain(buffer);
        buffer := buffer[first..];
        assert d == DrainFrom(buffer);
        var second := FindStartCode(buffer, StartCodeSize(buffer, 0));
        if second < 0 {
          return buffer;
        }
        var nal := buffer[..second];
        buffer := buffer[second..];
        DrainAtStartCode(buffer);
        assert d.nals[0] == nal && d.nals[1..] == Drain(buffer).nals;
        ProcessOneNal(nal);
      }
    }

    /** `_reader_loop`, given what each read returns before the end of the stream or the stop event. */
    method ReaderLoop(returned: seq<seq<byte>>)
      requires Valid()
      modifies this
      ensures Valid() && taken == old(taken)
      ensures State() == EmitCurrent(ProcessAll(old(State()), ReaderNals(UntilEof(returned), [])))
    {
      var buffer: seq<byte> := [];
      var i := 0;
      assert returned[0..] == returned;
      while i < |returned|
        invariant 0 <= i <= |returned|
        invariant Valid() && taken == old(taken)
        invariant ProcessAll(State(), ReaderNals(UntilEof(returned[i..]), buffer))
               == ProcessAll(old(State()), ReaderNals(UntilEof(returned), []))
      {
        var chunk := returned[i];
        if chunk == [] {
          break;
        }
        ghost var chunks, g, b := UntilEof(returned[i..]), State(), buffer + chunk;
        assert chunks[0] == chunk && chunks[1..] == UntilEof(returned[i + 1..]) by {
          assert returned[i..][1..] == returned[i + 1..];
        }
        buffer := DrainBuffer(buffer + chunk);
        ProcessAllAppend(g, Drain(b).nals, ReaderNals(chunks[1..], buffer));
        i := i + 1;
      }
      assert UntilEof(returned[i..]) == [];
      if buffer != [] {
        ProcessOneNal(buffer);
      }
      EmitCurrentUnit();
    }
  }

  /**
   For reads that do not cut the first start code, a fresh encoder's units are THE
   partition of the stream's NAL units.
   */
  lemma ReaderYieldsThePartition(chunks: seq<seq<byte>>, units: seq<seq<Nal>>, tail: seq<Nal>)
    requires FirstCodeUnsplit(chunks)
    requires IsPartition(Kept(Scan(Flatten(chunks))), units, tail)
    ensures Units(ReaderNals(chunks, [])) == units
  {
    ChunkIndependence(chunks);
    GroupingIsTheOnlyPartition(Scan(Flatten(chunks)), units, tail);
  }

  // ----- from pictures to queued access units ------------------------------------------

  lemma PicturesArePartition(pictures: seq<seq<NalUnit>>)
    requires WellFormedPictures(pictures)
    ensures IsPartition(EncodeAll(Flatten(pictures)), EncodePictures(pictures), [])
  {
    var units := EncodePictures(pictures);
    EncodePicturesFlat(pictures);
    assert Flatten(units) + [] == EncodeAll(Flatten(pictures));
    forall k | 0 <= k < |units|
      ensures HasVcl(units[k]) && Uncut(units[k])
      ensures k > 0 ==> BeginsWithStarter(units[k])
    {
      assert pictures[k] in pictures;
      PictureByNumber(pictures[k]);
    }
  }

  /**
   End to end: pictures stuffed, framed and concatenated, then read in any chunks that do
   not cut the first start code, come out as exactly those pictures, numbered 0, 1, 2, ...
   */
  lemma PicturesRoundTrip(pictures: seq<seq<NalUnit>>, chunks: seq<seq<byte>>)
    requires WellFormedPictures(pictures)
    requires Flatten(chunks) == Flatten(EncodeAll(Flatten(pictures)))
    requires FirstCodeUnsplit(chunks)
    ensures var queued := Numbered(Units(ReaderNals(chunks, [])), 0);
            && |queued| == |pictures|
            && forall k :: 0 <= k < |pictures| ==> queued[k] == QueuedUnit(k, Flatten(EncodeAll(pictures[k])))
  {
    MembersAreLegal(pictures);
    ScanInvertsEncoding(Flatten(pictures));
    EncodedAreKept(Flatten(pictures));
    PicturesArePartition(pictures);
    ReaderYieldsThePartition(chunks, EncodePictures(pictures), []);
  }
}
