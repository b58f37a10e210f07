/**
 Emulation prevention (sections 7.3.1 and 7.4.1 of ITU-T H.264): the payload bytes of a
 NAL unit carry an extra 03 wherever two zero bytes would otherwise be followed by 00..03.
 */
module Ebsp {
  import opened Bytes
  import opened StartCodes

  function NextZeros(zeros: nat, b: byte): (n: nat) {
    if b == 0 then zeros + 1 else 0
  }

  /** `_rbsp_from_ebsp` as a function: `zeros` zero bytes precede `ebsp` without a break. */
  function Unstuff(ebsp: seq<byte>, zeros: nat): (rbsp: seq<byte>)
    decreases |ebsp|
  {
    if ebsp == [] then []
    else if zeros >= 2 && ebsp[0] == 3 then Unstuff(ebsp[1..], 0)
    else [ebsp[0]] + Unstuff(ebsp[1..], NextZeros(zeros, ebsp[0]))
  }

  /** `_rbsp_from_ebsp`: the loop with its zero counter. */
  method RbspFromEbsp(ebsp: seq<byte>) returns (out: seq<byte>)
    ensures out == Unstuff(ebsp, 0)
  {
    out := [];
    var zeros: nat := 0;
    for i := 0 to |ebsp|
      invariant out + Unstuff(ebsp[i..], zeros) == Unstuff(ebsp, 0)
    {
      assert ebsp[i..][1..] == ebsp[i + 1..];
      if zeros >= 2 && ebsp[i] == 3 {
        zeros := 0;
      } else {
        ConcatAssociates(out, [ebsp[i]], Unstuff(ebsp[i + 1..], NextZeros(zeros, ebsp[i])));
        out := out + [ebsp[i]];
        zeros := NextZeros(zeros, ebsp[i]);
      }
    }
    assert ebsp[|ebsp|..] == [];
  }

  /** The encoder's side: insert 03 before a byte 00..03 that follows two zero bytes. */
  function Stuff(rbsp: seq<byte>, zeros: nat): (ebsp: seq<byte>)
    decreases |rbsp|
  {
    if rbsp == [] then []
    else if zeros >= 2 && rbsp[0] <= 3 then [3, rbsp[0]] + Stuff(rbsp[1..], NextZeros(0, rbsp[0]))
    else [rbsp[0]] + Stuff(rbsp[1..], NextZeros(zeros, rbsp[0]))
  }

  /** Unstuffing inverts stuffing, on every byte string. */
  lemma {:induction false} UnstuffStuff(rbsp: seq<byte>, zeros: nat)
    ensures Unstuff(Stuff(rbsp, zeros), zeros) == rbsp
    decreases |rbsp|
  {
    if rbsp != [] {
      var b := rbsp[0];
      if zeros >= 2 && b <= 3 {
        var tail := Stuff(rbsp[1..], NextZeros(0, b));
        UnstuffStuff(rbsp[1..], NextZeros(0, b));
        assert ([3, b] + tail)[1..] == [b] + tail;
        assert ([b] + tail)[1..] == tail;
      } else {
        UnstuffStuff(rbsp[1..], NextZeros(zeros, b));
      }
    }
  }

  /** No byte 00, 01 or 02 follows two zero bytes; `zeros` zero bytes come first. */
  predicate Clean(s: seq<byte>, zeros: nat)
    decreases |s|
  {
    s == [] || (!(zeros >= 2 && s[0] <= 2) && Clean(s[1..], NextZeros(zeros, s[0])))
  }

  lemma {:induction false} StuffIsClean(rbsp: seq<byte>, zeros: nat)
    ensures Clean(Stuff(rbsp, zeros), zeros)
    decreases |rbsp|
  {
    if rbsp != [] {
      var b := rbsp[0];
      if zeros >= 2 && b <= 3 {
        StuffIsClean(rbsp[1..], NextZeros(0, b));
        var tail := Stuff(rbsp[1..], NextZeros(0, b));
        assert ([3, b] + tail)[1..] == [b] + tail;
        assert ([b] + tail)[1..] == tail;
      } else {
        StuffIsClean(rbsp[1..], NextZeros(zeros, b));
      }
    }
  }

  lemma {:induction false} CleanTriple(s: seq<byte>, zeros: nat, i: nat)
    requires Clean(s, zeros) && i + 2 < |s| && s[i] == 0 && s[i + 1] == 0
    ensures s[i + 2] > 2
    decreases i
  {
    if i == 0 {
      assert Clean(s[1..], zeros + 1);
      assert s[1..][1..] == s[2..];
      assert Clean(s[2..], zeros + 2);
    } else {
      CleanTriple(s[1..], NextZeros(zeros, s[0]), i - 1);
    }
  }

  lemma {:induction false} StuffKeepsLast(rbsp: seq<byte>, zeros: nat)
    requires rbsp != []
    ensures Stuff(rbsp, zeros) != [] && Stuff(rbsp, zeros)[|Stuff(rbsp, zeros)| - 1] == rbsp[|rbsp| - 1]
    decreases |rbsp|
  {
    if |rbsp| > 1 {
      StuffKeepsLast(rbsp[1..], NextZeros(if zeros >= 2 && rbsp[0] <= 3 then 0 else zeros, rbsp[0]));
    }
  }

  // ----- NAL units as an encoder writes them ----------------------------------

  type u3 = x: int | 0 <= x < 8
  type u5 = x: int | 0 <= x < 32

  /**
   A NAL unit before framing: its start code length, the upper three bits and the `nal_unit_type` of
   its header byte (section 7.3.1), and its raw payload.
   */
  datatype NalUnit = NalUnit(longStartCode: bool, upper: u3, unitType: u5, rbsp: seq<byte>)

  function HeaderByte(u: NalUnit): (b: byte) {
    32 * u.upper + u.unitType
  }

  function StartCode(long: bool): (code: seq<byte>) {
    if long then [0, 0, 0, 1] else [0, 0, 1]
  }

  function EncodeNal(u: NalUnit): (nal: seq<byte>) {
    StartCode(u.longStartCode) + [HeaderByte(u)] + Stuff(u.rbsp, 0)
  }

  /** A legal unit: a nonzero header byte, and a payload that does not end in a zero byte. */
  predicate Legal(u: NalUnit) {
    HeaderByte(u) != 0 && (u.rbsp != [] ==> u.rbsp[|u.rbsp| - 1] != 0)
  }

  function EncodeAll(units: seq<NalUnit>): (nals: seq<seq<byte>>)
    ensures |nals| == |units|
    ensures forall i :: 0 <= i < |units| ==> nals[i] == EncodeNal(units[i])
  {
    if units == [] then [] else [EncodeNal(units[0])] + EncodeAll(units[1..])
  }

  lemma EncodedShape(u: NalUnit)
    requires Legal(u)
    ensures var nal := EncodeNal(u);
            && StartCodeSize(nal, 0) == |StartCode(u.longStartCode)| < |nal|
            && nal[|nal| - 1] != 0
            && nal[StartCodeSize(nal, 0)] == HeaderByte(u)
            && nal[StartCodeSize(nal, 0) + 1..] == Stuff(u.rbsp, 0)
  {
    if u.rbsp != [] {
      StuffKeepsLast(u.rbsp, 0);
    }
  }

  /** The three bytes at which a start code begins. */
  lemma StartCodeBytes(stream: seq<byte>, i: nat)
    ensures StartCodeSize(stream, i) != 0 ==>
            i + 3 <= |stream| && stream[i] == 0 && stream[i + 1] == 0 && stream[i + 2] <= 1
  {
  }

  /** Header and stuffed payload contain no such bytes. */
  lemma CleanBody(u: NalUnit, i: nat)
    requires HeaderByte(u) != 0
    ensures var body := [HeaderByte(u)] + Stuff(u.rbsp, 0);
            i + 2 < |body| && body[i] == 0 && body[i + 1] == 0 ==> body[i + 2] > 2
  {
    var body := [HeaderByte(u)] + Stuff(u.rbsp, 0);
    StuffIsClean(u.rbsp, 0);
    assert Clean(body, 0);
    if i + 2 < |body| && body[i] == 0 && body[i + 1] == 0 {
      CleanTriple(body, 0, i);
    }
  }

  /** No start code begins in the middle of a stream whose bytes there are not 00 00 00..02, and do not end in 00. */
  lemma NoCodeAt(front: seq<byte>, body: seq<byte>, rest: seq<byte>, j: nat)
    requires j < |body| && body[|body| - 1] != 0
    requires j + 2 < |body| && body[j] == 0 && body[j + 1] == 0 ==> body[j + 2] > 2
    ensures StartCodeSize(front + body + rest, |front| + j) == 0
  {
    var stream, i := front + body + rest, |front| + j;
    StartCodeBytes(stream, i);
    assert stream[i] == body[j];
    assert j + 1 < |body| ==> stream[i + 1] == body[j + 1];
    assert j + 2 < |body| ==> stream[i + 2] == body[j + 2];
  }

  /** No start code begins inside a legal unit, even one that would straddle its end. */
  lemma NoCodeInside(u: NalUnit, rest: seq<byte>, i: nat)
    requires Legal(u)
    requires |StartCode(u.longStartCode)| <= i < |EncodeNal(u)|
    ensures StartCodeSize(EncodeNal(u) + rest, i) == 0
  {
    var code, body := StartCode(u.longStartCode), [HeaderByte(u)] + Stuff(u.rbsp, 0);
    ConcatAssociates(code, [HeaderByte(u)], Stuff(u.rbsp, 0));
    if u.rbsp != [] {
      StuffKeepsLast(u.rbsp, 0);
    }
    CleanBody(u, i - |code|);
    NoCodeAt(code, body, rest, i - |code|);
  }

  /** Annex B round trip: scanning the concatenation of legal units returns exactly those units. */
  lemma {:induction false} ScanInvertsEncoding(units: seq<NalUnit>)
    requires forall u :: u in units ==> Legal(u)
    ensures Scan(Flatten(EncodeAll(units))) == EncodeAll(units)
    ensures units != [] ==> First(Flatten(EncodeAll(units)), 0) == 0
    decreases |units|
  {
    if units != [] {
      var nal, rest := EncodeNal(units[0]), Flatten(EncodeAll(units[1..]));
      var size := |StartCode(units[0].longStartCode)|;
      EncodedShape(units[0]);
      assert EncodeAll(units)[1..] == EncodeAll(units[1..]);
      assert Flatten(EncodeAll(units)) == nal + rest;
      ScanInvertsEncoding(units[1..]);
      FirstOfEncoded(units[0], rest);
      assert (nal + rest)[0..] == nal + rest;
      assert rest == [] ==> nal + rest == nal;
      assert (nal + rest)[..|nal|] == nal && (nal + rest)[|nal|..] == rest;
      assert rest[0..] == rest;
      if units[1..] != [] {
        EncodedShape(units[1]);
        assert EncodeAll(units[1..])[0] == EncodeNal(units[1]);
      }
    }
  }

  lemma FirstOfEncoded(u: NalUnit, rest: seq<byte>)
    requires Legal(u)
    requires rest == [] || First(rest, 0) == 0
    ensures var stream, size := EncodeNal(u) + rest, |StartCode(u.longStartCode)|;
            && First(stream, 0) == 0 && StartCodeSize(stream, 0) == size
            && First(stream, size) == if rest == [] then -1 else |EncodeNal(u)|
  {
    var nal, size := EncodeNal(u), |StartCode(u.longStartCode)|;
    var stream := nal + rest;
    EncodedShape(u);
    FirstIs(stream, 0, 0);
    forall i | size <= i < |nal|
      ensures StartCodeSize(stream, i) == 0
    {
      NoCodeInside(u, rest, i);
    }
    if rest != [] {
      DropPastPrefix(nal, rest, 0);
      StartCodeShift(stream, |nal|, 0);
      FirstIs(stream, size, |nal|);
    } else {
      assert stream == nal;
    }
  }

  /**
   The same through the incremental reader, under every chunking of the bytes that does not cut the
   first start code.
   */
  lemma ReaderInvertsEncoding(units: seq<NalUnit>, chunks: seq<seq<byte>>)
    requires forall u :: u in units ==> Legal(u)
    requires Flatten(chunks) == Flatten(EncodeAll(units))
    ensures ReaderNals(chunks, []) == EncodeAll(units) <==> FirstCodeUnsplit(chunks)
  {
    ScanInvertsEncoding(units);
    ChunkIndependence(chunks);
  }
}
