/**
 The host bridge's own reading of an Annex B file: a second scanner, a second unstuffing
 routine and Exp-Golomb reader in 32-bit arithmetic, and a second grouping rule.
 */
module TestStream {
  import opened Bytes
  import opened StartCodes
  import opened Ebsp
  import opened SliceHeader
  import opened AccessUnits

  const U32: nat := 0x1_0000_0000

  // ----- read_first_mb_in_slice ----------------------------------------------------------

  /** Unstuffing by lookahead: 00 00 03 becomes 00 00. */
  function LookaheadUnstuff(ebsp: seq<byte>): (rbsp: seq<byte>)
    ensures ebsp != [] ==> rbsp != []
    decreases |ebsp|
  {
    if ebsp == [] then []
    else if |ebsp| >= 3 && ebsp[0] == 0 && ebsp[1] == 0 && ebsp[2] == 3 then [0, 0] + LookaheadUnstuff(ebsp[3..])
    else [ebsp[0]] + LookaheadUnstuff(ebsp[1..])
  }

  /** Beyond two zero bytes the counter makes no difference. */
  lemma {:induction false} UnstuffSaturates(ebsp: seq<byte>, zeros: nat)
    requires zeros >= 2
    ensures Unstuff(ebsp, zeros) == Unstuff(ebsp, zeros + 1)
    decreases |ebsp|
  {
    if ebsp != [] && ebsp[0] == 0 {
      UnstuffSaturates(ebsp[1..], zeros + 1);
    }
  }

  /** One pending zero byte matters only in front of 00 03. */
  lemma UnstuffAfterOneZero(ebsp: seq<byte>)
    requires !(|ebsp| >= 2 && ebsp[0] == 0 && ebsp[1] == 3)
    ensures Unstuff(ebsp, 1) == Unstuff(ebsp, 0)
  {
    if ebsp != [] && ebsp[0] == 0 {
      var rest := ebsp[1..];
      assert Unstuff(ebsp, 1) == [ebsp[0]] + Unstuff(rest, 2);
      assert Unstuff(ebsp, 0) == [ebsp[0]] + Unstuff(rest, 1);
      if rest != [] && rest[0] == 0 {
        UnstuffSaturates(rest[1..], 2);
      }
    }
  }

  /** Lookahead unstuffing equals counter unstuffing, on every byte string. */
  lemma {:induction false} LookaheadIsUnstuff(ebsp: seq<byte>)
    ensures LookaheadUnstuff(ebsp) == Unstuff(ebsp, 0)
    decreases |ebsp|
  {
    if ebsp == [] {
    } else if |ebsp| >= 3 && ebsp[0] == 0 && ebsp[1] == 0 && ebsp[2] == 3 {
      var one, two, three := ebsp[1..], ebsp[2..], ebsp[3..];
      assert one[1..] == two && two[1..] == three;
      assert Unstuff(two, 2) == Unstuff(three, 0);
      assert Unstuff(one, 1) == [one[0]] + Unstuff(two, 2);
      assert Unstuff(ebsp, 0) == [ebsp[0]] + ([one[0]] + Unstuff(three, 0));
      LookaheadIsUnstuff(three);
    } else {
      var rest := ebsp[1..];
      LookaheadIsUnstuff(rest);
      assert LookaheadUnstuff(ebsp) == [ebsp[0]] + LookaheadUnstuff(rest);
      assert Unstuff(ebsp, 0) == [ebsp[0]] + Unstuff(rest, NextZeros(0, ebsp[0]));
      if ebsp[0] == 0 {
        UnstuffAfterOneZero(rest);
      }
    }
  }

  /** The unstuffing loop, which stops once 32 bytes are collected. */
  method UnstuffCapped(nal: seq<byte>) returns (rbsp: seq<byte>)
    requires nal != []
    ensures var full := Unstuff(nal[1..], 0);
            rbsp == full || (rbsp <= full && |rbsp| >= 32)
  {
    rbsp := [];
    var i := 1;
    while i < |nal| && |rbsp| < 32
      invariant 1 <= i <= |nal|
      invariant rbsp + LookaheadUnstuff(nal[i..]) == LookaheadUnstuff(nal[1..])
    {
      ghost var tail := nal[i..];
      if i + 2 < |nal| && nal[i] == 0 && nal[i + 1] == 0 && nal[i + 2] == 3 {
        assert tail[3..] == nal[i + 3..];
        ConcatAssociates(rbsp, [0, 0], LookaheadUnstuff(nal[i + 3..]));
        rbsp := rbsp + [0, 0];
        i := i + 2;
      } else {
        assert tail[1..] == nal[i + 1..];
        ConcatAssociates(rbsp, [nal[i]], LookaheadUnstuff(nal[i + 1..]));
        rbsp := rbsp + [nal[i]];
      }
      i := i + 1;
    }
    LookaheadIsUnstuff(nal[1..]);
  }

  /** The zero bits in front of the field's first one bit (or of the end). */
  function LeadingZeros(nal: seq<byte>): (z: nat)
    requires nal != []
  {
    ZeroRun(Bits(Unstuff(nal[1..], 0)), 0)
  }

  lemma {:induction false} ZeroRunGrows(bits: seq<bit>, more: seq<bit>, pos: nat)
    requires pos <= |bits|
    ensures ZeroRun(bits + more, pos) >= ZeroRun(bits, pos)
    decreases |bits| - pos
  {
    if pos < |bits| && bits[pos] != 1 {
      ZeroRunGrows(bits, more, pos + 1);
    }
  }

  /**
   What the 32-bit reader computes: a field of at most 31 zero bits; without any one bit the suffix
   starts at the end.
   */
  function ShortField(bits: seq<bit>): (r: Option<nat>) {
    var z := ZeroRun(bits, 0);
    var start := if z < |bits| then z + 1 else z;
    if z > 31 || start + z > |bits| then None else Some(Pow2(z) - 1 + Value(bits, start, z))
  }

  lemma ShortFieldIsUe(bits: seq<bit>)
    requires bits != [] && ZeroRun(bits, 0) <= 31
    ensures ShortField(bits) == match UeAt(bits, 0) case None => None case Some(f) => Some(f.value)
  {
  }

  /** The 32-byte cap never changes the answer. */
  lemma CapIsHarmless(rbsp: seq<byte>, full: seq<byte>)
    requires rbsp <= full && |rbsp| >= 32
    ensures ShortField(Bits(rbsp)) == ShortField(Bits(full))
  {
    var bits, more := Bits(rbsp), Bits(full[|rbsp|..]);
    BitsAppend(rbsp, full[|rbsp|..]);
    assert full == rbsp + full[|rbsp|..];
    ZeroRunGrows(bits, more, 0);
    if ZeroRun(bits, 0) <= 31 {
      ZeroRunExtends(bits, more, 0);
      UeExtends(bits, more, 0);
      ShortFieldIsUe(bits);
      ShortFieldIsUe(bits + more);
    }
  }

  lemma {:induction false} Pow2Monotone(a: nat, b: nat)
    requires a <= b
    ensures Pow2(a) <= Pow2(b)
  {
    if a < b {
      Pow2Monotone(a, b - 1);
    }
  }

  lemma SmallPow2(n: nat)
    requires n <= 31
    ensures Pow2(n) <= 0x8000_0000
  {
    assert Pow2(8) == 0x100;
    assert Pow2(16) == 0x1_0000;
    assert Pow2(24) == 0x100_0000;
    assert Pow2(31) == 0x8000_0000;
    Pow2Monotone(n, 31);
  }

  /**
   The first bit-reading loop: None once more than 31 zero bits were seen, else their number and the
   position after the one bit.
   */
  method CountLeadingZeros(rbsp: seq<byte>) returns (leadingZeroBits: nat, bitOffset: nat, tooMany: bool)
    ensures var z := ZeroRun(Bits(rbsp), 0);
            if z > 31 then tooMany
            else !tooMany && leadingZeroBits == z && bitOffset == if z < 8 * |rbsp| then z + 1 else z
  {
    ghost var bits := Bits(rbsp);
    bitOffset, leadingZeroBits, tooMany := 0, 0, false;
    while bitOffset < |rbsp| * 8
      invariant bitOffset == leadingZeroBits <= |bits| && leadingZeroBits <= 31
      invariant ZeroRun(bits, 0) == leadingZeroBits + ZeroRun(bits, bitOffset)
    {
      var b := ShiftRight(rbsp[bitOffset / 8], 7 - bitOffset % 8) % 2;
      BitAt(rbsp, bitOffset);
      bitOffset := bitOffset + 1;
      if b != 0 {
        break;
      }
      leadingZeroBits := leadingZeroBits + 1;
      if leadingZeroBits > 31 {
        tooMany := true;
        return;
      }
    }
  }

  /** The second loop: `count` further bits into a wrapping 32-bit `suffix`; None when the bits run out. */
  method ReadSuffix(rbsp: seq<byte>, start: nat, count: nat) returns (r: Option<nat>)
    requires start <= 8 * |rbsp| && count <= 31
    ensures r == if start + count <= 8 * |rbsp| then Some(Value(Bits(rbsp), start, count)) else None
    ensures r.Some? ==> r.value < Pow2(count)
  {
    ghost var bits := Bits(rbsp);
    var bitOffset, suffix: nat := start, 0;
    for i := 0 to count
      invariant bitOffset == start + i <= |bits|
      invariant suffix == Value(bits, start, i) < Pow2(i)
    {
      if bitOffset >= |rbsp| * 8 {
        return None;
      }
      var b := ShiftRight(rbsp[bitOffset / 8], 7 - bitOffset % 8) % 2;
      BitAt(rbsp, bitOffset);
      SmallPow2(i);
      suffix := (suffix * 2 + b) % U32;
      bitOffset := bitOffset + 1;
    }
    return Some(suffix);
  }

  lemma NoWrap(z: nat, suffix: nat)
    requires z <= 31 && suffix < Pow2(z)
    ensures (Pow2(z) - 1 + suffix) % U32 == Pow2(z) - 1 + suffix
  {
    SmallPow2(z);
  }

  /** The field from the collected bytes, in wrapping 32-bit arithmetic. */
  method ReadShortField(rbsp: seq<byte>) returns (r: Option<nat>)
    ensures r == ShortField(Bits(rbsp))
  {
    var leadingZeroBits, bitOffset, tooMany := CountLeadingZeros(rbsp);
    if tooMany {
      return None;
    }
    var suffix := ReadSuffix(rbsp, bitOffset, leadingZeroBits);
    if suffix.None? {
      return None;
    }
    NoWrap(leadingZeroBits, suffix.value);
    return Some((Pow2(leadingZeroBits) - 1 + suffix.value) % U32);
  }

  /**
   `read_first_mb_in_slice` against the Python reader: the two agree on every NAL body of at
   least 2 bytes with at most 31 leading zero bits, and beyond 31 the answer is nullopt. A
   body that is the header byte alone reads as 0. No 32-bit operation wraps.
   */
  method ReadFirstMb(nal: seq<byte>) returns (r: Option<nat>)
    ensures nal == [] ==> r == None
    ensures |nal| == 1 ==> r == Some(0)
    ensures |nal| >= 2 && LeadingZeros(nal) <= 31 ==> r == FirstMbOfPayload(nal)
    ensures |nal| >= 2 && LeadingZeros(nal) > 31 ==> r == None
    ensures r == CppFirstMb(nal)
  {
    if nal == [] {
      return None;
    }
    var rbsp := UnstuffCapped(nal);
    if rbsp != Unstuff(nal[1..], 0) {
      CapIsHarmless(rbsp, Unstuff(nal[1..], 0));
    }
    r := ReadShortField(rbsp);
    ReadersAgree(nal);
  }

  /** `read_first_mb_in_slice` as a function. */
  function CppFirstMb(nal: seq<byte>): (r: Option<nat>) {
    if nal == [] then None else ShortField(Bits(Unstuff(nal[1..], 0)))
  }

  /** The bits run out before the field is complete. */
  predicate FieldCutShort(nal: seq<byte>)
    requires nal != []
  {
    2 * LeadingZeros(nal) + 1 > 8 * |Unstuff(nal[1..], 0)|
  }

  /** When the two slice-header readers give the same answer: exactly. */
  lemma ReadersAgree(nal: seq<byte>)
    ensures |nal| == 1 ==> CppFirstMb(nal) == Some(0) && FirstMbOfPayload(nal) == None
    ensures |nal| >= 2 ==> CppFirstMb(nal) == if LeadingZeros(nal) <= 31 then FirstMbOfPayload(nal) else None
    ensures CppFirstMb(nal) == FirstMbOfPayload(nal) <==>
              |nal| != 1 && (nal == [] || LeadingZeros(nal) <= 31 || FieldCutShort(nal))
  {
    if |nal| == 1 {
      assert Bits(nal[1..]) == [];
    } else if |nal| >= 2 {
      LookaheadIsUnstuff(nal[1..]);
      if LeadingZeros(nal) <= 31 {
        ShortFieldIsUe(Bits(Unstuff(nal[1..], 0)));
      }
    }
  }

  // ----- loadH264TestStream --------------------------------------------------------------

  /** The loader's state over whole NAL units; `keys` runs parallel to `units`. */
  datatype Loader = Loader(units: seq<seq<Nal>>, keys: seq<bool>, current: seq<Nal>, hasVcl: bool, isKey: bool)

  const UNLOADED := Loader([], [], [], false, false)

  function Push(s: Loader): (r: Loader) {
    Loader(s.units + [s.current], s.keys + [s.isKey], [], false, false)
  }

  function LoadNal(s: Loader, nal: Nal): (r: Loader) {
    if !HasHeader(nal) then s
    else
      var t := NalType(nal);
      if t == 1 || t == 5 then
        var first := CppFirstMb(NalPayload(nal));
        var h := if s.hasVcl && (first == None || first == Some(0)) then Push(s) else s;
        h.(hasVcl := true, isKey := h.isKey || t == 5, current := h.current + [nal])
      else
        var h := if t == 9 && s.current != [] then Push(s) else s;
        h.(current := h.current + [nal])
  }

  function LoadAll(s: Loader, nals: seq<Nal>): (r: Loader)
    decreases |nals|
  {
    if nals == [] then s else LoadAll(LoadNal(s, nals[0]), nals[1..])
  }

  function Finish(s: Loader): (r: Loader) {
    if s.current != [] then Push(s) else s
  }

  predicate HasIdr(unit: seq<Nal>) {
    exists i :: 0 <= i < |unit| && HasHeader(unit[i]) && NalType(unit[i]) == 5
  }

  predicate LoaderInv(s: Loader, kept: seq<Nal>) {
    && Flatten(s.units) + s.current == kept
    && |s.keys| == |s.units|
    && (forall k :: 0 <= k < |s.units| ==> s.units[k] != [] && (s.keys[k] <==> HasIdr(s.units[k])))
    && (s.isKey <==> HasIdr(s.current))
    && (s.hasVcl ==> s.current != [])
  }

  lemma PushInv(s: Loader, kept: seq<Nal>)
    requires LoaderInv(s, kept) && s.current != []
    ensures LoaderInv(Push(s), kept)
  {
    FlattenSnoc(s.units, s.current);
    assert Flatten(s.units + [s.current]) + [] == kept;
  }

  lemma AppendIdr(unit: seq<Nal>, nal: Nal)
    requires HasHeader(nal)
    ensures HasIdr(unit + [nal]) <==> HasIdr(unit) || NalType(nal) == 5
  {
    var longer := unit + [nal];
    if HasIdr(unit) {
      var i :| 0 <= i < |unit| && HasHeader(unit[i]) && NalType(unit[i]) == 5;
      assert longer[i] == unit[i];
    }
    assert longer[|unit|] == nal;
  }

  lemma LoadNalInv(s: Loader, kept: seq<Nal>, nal: Nal)
    requires LoaderInv(s, kept) && HasHeader(nal)
    ensures LoaderInv(LoadNal(s, nal), kept + [nal])
  {
    if s.current != [] {
      PushInv(s, kept);
    }
    var r := LoadNal(s, nal);
    var h := if r.units == s.units then s else Push(s);
    assert LoaderInv(h, kept);
    AppendIdr(h.current, nal);
    ConcatAssociates(Flatten(h.units), h.current, [nal]);
  }

  lemma {:induction false} LoadAllInv(s: Loader, kept: seq<Nal>, nals: seq<Nal>)
    requires LoaderInv(s, kept)
    ensures LoaderInv(LoadAll(s, nals), kept + Kept(nals))
    decreases |nals|
  {
    if nals == [] {
      assert kept + Kept(nals) == kept;
    } else if HasHeader(nals[0]) {
      LoadNalInv(s, kept, nals[0]);
      LoadAllInv(LoadNal(s, nals[0]), kept + [nals[0]], nals[1..]);
      ConcatAssociates(kept, [nals[0]], Kept(nals[1..]));
    } else {
      LoadAllInv(s, kept, nals[1..]);
      assert Kept(nals) == Kept(nals[1..]);
    }
  }

  /** The loader groups the kept NAL units in order and marks exactly the units with an IDR slice. */
  lemma LoaderConserves(nals: seq<Nal>)
    ensures var s := Finish(LoadAll(UNLOADED, nals));
            && Flatten(s.units) == Kept(nals)
            && |s.keys| == |s.units|
            && forall k :: 0 <= k < |s.units| ==> s.units[k] != [] && (s.keys[k] <==> HasIdr(s.units[k]))
  {
    LoadAllInv(UNLOADED, [], nals);
    assert [] + Kept(nals) == Kept(nals);
    var s := LoadAll(UNLOADED, nals);
    if s.current != [] {
      PushInv(s, Kept(nals));
    }
    assert Flatten(Finish(s).units) + [] == Flatten(Finish(s).units);
  }

  /** Each group joined into one string. */
  function Joined(units: seq<seq<Nal>>): (strings: seq<seq<byte>>)
    ensures |strings| == |units|
  {
    if units == [] then [] else [Flatten(units[0])] + Joined(units[1..])
  }

  lemma {:induction false} JoinedSnoc(units: seq<seq<Nal>>, unit: seq<Nal>)
    ensures Joined(units + [unit]) == Joined(units) + [Flatten(unit)]
  {
    if units == [] {
      assert units + [unit] == [unit];
    } else {
      assert (units + [unit])[1..] == units[1..] + [unit];
      JoinedSnoc(units[1..], unit);
    }
  }

  lemma {:induction false} JoinedFlat(units: seq<seq<Nal>>)
    ensures Flatten(Joined(units)) == Flatten(Flatten(units))
  {
    if units != [] {
      JoinedFlat(units[1..]);
      assert Joined(units)[1..] == Joined(units[1..]);
      FlattenAppend(units[0], Flatten(units[1..]));
    }
  }

  datatype H264TestStream = H264TestStream(accessUnits: seq<seq<byte>>, keyframes: seq<bool>)

  /** The loader's local variables. */
  datatype Accumulator = Accumulator(accessUnits: seq<seq<byte>>, keyframes: seq<bool>, current: seq<byte>,
                                     hasVcl: bool, isKey: bool)

  /** The local variables stand for the abstract state. */
  ghost predicate Represents(a: Accumulator, s: Loader) {
    && a.accessUnits == Joined(s.units) && a.keyframes == s.keys
    && a.current == Flatten(s.current) && (a.current == [] <==> s.current == [])
    && a.hasVcl == s.hasVcl && a.isKey == s.isKey
  }

  method PushUnit(a: Accumulator, ghost s: Loader) returns (r: Accumulator)
    requires Represents(a, s)
    ensures Represents(r, Push(s))
  {
    JoinedSnoc(s.units, s.current);
    r := Accumulator(a.accessUnits + [a.current], a.keyframes + [a.isKey], [], false, false);
  }

  /** The body of the grouping loop: one NAL unit into the accumulators. */
  method AddNal(a: Accumulator, nal: Nal, ghost s: Loader) returns (r: Accumulator)
    requires Represents(a, s) && StartCodeSize(nal, 0) != 0
    ensures Represents(r, LoadNal(s, nal))
  {
    r := a;
    var headerOffset := StartCodeSize(nal, 0);
    if headerOffset >= |nal| {
      return;
    }
    ghost var h := s;
    var nalType := nal[headerOffset] % 32;
    if nalType == 1 || nalType == 5 {
      var firstMb := ReadFirstMb(nal[headerOffset..]);
      if r.hasVcl && (firstMb == None || firstMb == Some(0)) {
        r := PushUnit(r, s);
        h := Push(s);
      }
      r := r.(hasVcl := true, isKey := r.isKey || nalType == 5);
    } else if nalType == 9 && r.current != [] {
      r := PushUnit(r, s);
      h := Push(s);
    }
    FlattenSnoc(h.current, nal);
    r := r.(current := r.current + nal);
  }

  // ----- the one-shot scan, by absolute offsets ---------------------------------------------

  /** The NAL units from the start code at `at` on; none when `at` is -1. */
  function NalsFrom(bytes: seq<byte>, at: int): (nals: seq<Nal>)
    requires at == -1 || StartCodeSize(bytes, at) != 0
    decreases if at == -1 then 0 else |bytes| + 1 - at
  {
    if at == -1 then [] else
      var next := First(bytes, at + StartCodeSize(bytes, at));
      [bytes[at..if next == -1 then |bytes| else next]] + NalsFrom(bytes, next)
  }

  lemma StartCodeOfWindow(bytes: seq<byte>, at: nat, end: nat)
    requires StartCodeSize(bytes, at) != 0 && at + StartCodeSize(bytes, at) <= end <= |bytes|
    ensures StartCodeSize(bytes[at..end], 0) == StartCodeSize(bytes, at)
  {
  }

  lemma {:induction false} NalsFromIsNals(bytes: seq<byte>, at: nat)
    requires StartCodeSize(bytes, at) != 0
    ensures StartCodeSize(bytes[at..], 0) != 0
    ensures NalsFrom(bytes, at) == Nals(bytes[at..])
    decreases |bytes| - at
  {
    var rest, size := bytes[at..], StartCodeSize(bytes, at);
    assert StartCodeSize(rest, 0) == size by { StartCodeShift(bytes, at, 0); }
    var next, cut := First(bytes, at + size), First(rest, size);
    assert next == if cut < 0 then -1 else at + cut by { FirstShift(bytes, at, size); }
    if cut < 0 {
      assert bytes[at..|bytes|] == rest;
      assert [rest] + [] == [rest];
    } else {
      assert NalsFrom(bytes, at) == [bytes[at..next]] + NalsFrom(bytes, next);
      NalsFromIsNals(bytes, at + cut);
      calc {
        Nals(rest);
        [rest[..cut]] + Nals(rest[cut..]);
        { SliceOfDrop(bytes, at, cut); }
        [bytes[at..next]] + NalsFrom(bytes, next);
      }
    }
  }

  /** The one-shot C++ scan and the scan of suffixes cut the same NAL units. */
  lemma OneShotIsScan(bytes: seq<byte>)
    ensures NalsFrom(bytes, First(bytes, 0)) == Scan(bytes)
  {
    if First(bytes, 0) != -1 {
      NalsFromIsNals(bytes, First(bytes, 0));
    }
  }

  /** One turn of the loop: cut the NAL unit at `nalStart` and group it. */
  method LoadOne(bytes: seq<byte>, nalStart: nat, a: Accumulator, ghost s: Loader)
    returns (nextNal: int, r: Accumulator, ghost s': Loader)
    requires StartCodeSize(bytes, nalStart) != 0 && Represents(a, s)
    ensures nextNal == First(bytes, nalStart + StartCodeSize(bytes, nalStart))
    ensures Represents(r, s')
    ensures LoadAll(s, NalsFrom(bytes, nalStart)) == LoadAll(s', NalsFrom(bytes, nextNal))
  {
    nextNal := FindStartCode(bytes, nalStart + StartCodeSize(bytes, nalStart));
    var nalEnd := if nextNal == -1 then |bytes| else nextNal;
    var nal := bytes[nalStart..nalEnd];
    StartCodeOfWindow(bytes, nalStart, nalEnd);
    r := AddNal(a, nal, s);
    s' := LoadNal(s, nal);
    ghost var nals := NalsFrom(bytes, nalStart);
    assert nals[0] == nal && nals[1..] == NalsFrom(bytes, nextNal);
  }

  /** `loadH264TestStream` on the bytes of the file; None is an unreadable or empty file. */
  method LoadH264TestStream(bytes: seq<byte>) returns (r: Option<H264TestStream>)
    ensures r.None? <==> bytes == []
    ensures bytes != [] ==>
              var s := Finish(LoadAll(UNLOADED, NalsFrom(bytes, First(bytes, 0))));
              if s.units == [] then r.value == H264TestStream([bytes], [true])
              else r.value == H264TestStream(Joined(s.units), s.keys)
  {
    if bytes == [] {
      return None;
    }
    var a := Accumulator([], [], [], false, false);
    ghost var s := UNLOADED;
    var nalStart := FindStartCode(bytes, 0);
    while nalStart != -1
      invariant nalStart == -1 || (0 <= nalStart && StartCodeSize(bytes, nalStart) != 0)
      invariant Represents(a, s)
      invariant LoadAll(UNLOADED, NalsFrom(bytes, First(bytes, 0))) == LoadAll(s, NalsFrom(bytes, nalStart))
      decreases if nalStart == -1 then 0 else |bytes| + 1 - nalStart
    {
      nalStart, a, s := LoadOne(bytes, nalStart, a, s);
    }
    if a.current != [] {
      a := PushUnit(a, s);
    }
    return Some(if a.accessUnits == [] then H264TestStream([bytes], [true])
                else H264TestStream(a.accessUnits, a.keyframes));
  }

  /**
   Conservation: if some NAL unit has a header byte, the access units concatenate to the file
   from its first start code on, minus header-less NAL units, and the flags match them.
   */
  lemma LoadedStreamConserves(bytes: seq<byte>)
    ensures var s := Finish(LoadAll(UNLOADED, NalsFrom(bytes, First(bytes, 0))));
            && Flatten(Joined(s.units)) == Flatten(Kept(Scan(bytes)))
            && (s.units == [] <==> Kept(Scan(bytes)) == [])
            && ((forall n :: n in Scan(bytes) ==> HasHeader(n)) && First(bytes, 0) >= 0 ==>
                  Flatten(Joined(s.units)) == bytes[First(bytes, 0)..])
  {
    var nals := Scan(bytes);
    OneShotIsScan(bytes);
    var s := Finish(LoadAll(UNLOADED, nals));
    LoaderConserves(nals);
    JoinedFlat(s.units);
    if s.units != [] {
      assert s.units[0] != [];
    }
    if forall n :: n in nals ==> HasHeader(n) {
      KeptAll(nals);
      ScanConserves(bytes);
    }
  }

  lemma {:induction false} KeptAll(nals: seq<Nal>)
    requires forall n :: n in nals ==> HasHeader(n)
    ensures Kept(nals) == nals
  {
    if nals != [] {
      KeptAll(nals[1..]);
    }
  }
}
