/**
 NAL units as an encoder writes them: what the number in the header byte and the first bit of the
 payload mean to the readers (section 7.4.1 of ITU-T H.264).
 */
module WrittenNals {
  import opened Bytes
  import opened Ebsp
  import opened SliceHeader
  import opened AccessUnits

  // ----- the first field ---------------------------------------------------------------------------

  lemma TopBit(b: byte, b1: nat, b2: nat, b3: nat, b4: nat, b5: nat, b6: nat, b7: nat)
    requires b1 == b / 2 && b2 == b1 / 2 && b3 == b2 / 2 && b4 == b3 / 2 && b5 == b4 / 2 && b6 == b5 / 2 && b7 == b6 / 2
    ensures BitOf(b, 0) == 1 <==> b >= 128
  {
    assert ShiftRight(b5, 2) == ShiftRight(b6, 1) == ShiftRight(b7, 0) == b7;
    assert ShiftRight(b3, 4) == ShiftRight(b4, 3) == ShiftRight(b5, 2);
    assert ShiftRight(b1, 6) == ShiftRight(b2, 5) == ShiftRight(b3, 4);
    assert b7 == if b >= 128 then 1 else 0;
  }

  /** The first bit of a payload. */
  lemma FirstBit(rbsp: seq<byte>)
    requires rbsp != []
    ensures Bits(rbsp)[0] == 1 <==> rbsp[0] >= 128
  {
    var b := rbsp[0];
    BitAt(rbsp, 0);
    TopBit(b, b / 2, b / 2 / 2, b / 2 / 2 / 2, b / 2 / 2 / 2 / 2, b / 2 / 2 / 2 / 2 / 2, b / 2 / 2 / 2 / 2 / 2 / 2,
           b / 2 / 2 / 2 / 2 / 2 / 2 / 2);
  }

  /** The field at the front is 0 iff it is a single one bit. */
  lemma ZeroField(rbsp: seq<byte>)
    requires rbsp != []
    ensures (UeAt(Bits(rbsp), 0).Some? && UeAt(Bits(rbsp), 0).value.value == 0) <==> rbsp[0] >= 128
  {
    FirstBit(rbsp);
    var z := ZeroRun(Bits(rbsp), 0);
    assert z == 0 <==> Bits(rbsp)[0] == 1;
    assert z > 0 ==> Pow2(z) >= 2;
  }

  /** The payload begins with the field 0. */
  predicate BeginsWithZero(rbsp: seq<byte>) {
    rbsp != [] && rbsp[0] >= 128
  }

  /** Which written field that is. */
  lemma WrittenField(v: nat, after: seq<bit>)
    ensures BeginsWithZero(Pack(UeBits(v) + after)) <==> v == 0
  {
    PackedFieldRoundTrip(v, after);
    ZeroField(Pack(UeBits(v) + after));
  }

  // ----- the header byte -----------------------------------------------------------------------------

  /** A slice, or a part of one: types 1 to 5. */
  predicate WritesSlice(u: NalUnit) { 1 <= u.unitType <= 5 }

  /** An access unit delimiter, type 9, or a slice whose first macroblock is 0. */
  predicate WritesStart(u: NalUnit) {
    u.unitType == 9 || (WritesSlice(u) && BeginsWithZero(u.rbsp))
  }

  /** The readers take the type from the lower five bits of the header byte. */
  lemma TypeIsRead(u: NalUnit)
    requires Legal(u)
    ensures HasHeader(EncodeNal(u)) && NalType(EncodeNal(u)) == u.unitType
  {
    EncodedShape(u);
  }

  /** What a framed NAL unit is to the encoder's reader thread, by the numbers that were written. */
  lemma ReadByNumber(u: NalUnit)
    requires Legal(u)
    ensures IsVcl(EncodeNal(u)) <==> 1 <= u.unitType <= 5
    ensures IsStarter(EncodeNal(u)) <==> u.unitType == 9 || (1 <= u.unitType <= 5 && BeginsWithZero(u.rbsp))
  {
    TypeIsRead(u);
    FieldOfEncoded(u);
    if u.rbsp != [] {
      ZeroField(u.rbsp);
    }
  }

  /** What one written NAL unit does to the group that is being collected. */
  lemma ProcessedByNumber(g: Grouping, u: NalUnit)
    requires Legal(u)
    ensures var starts := u.unitType == 9 || (1 <= u.unitType <= 5 && BeginsWithZero(u.rbsp));
            var closed := starts && g.hasVcl;
            var r := ProcessNal(g, EncodeNal(u));
            && r.units == (if closed && g.current != [] then g.units + [g.current] else g.units)
            && r.current == (if closed then [EncodeNal(u)] else g.current + [EncodeNal(u)])
            && (r.hasVcl <==> 1 <= u.unitType <= 5 || (g.hasVcl && !closed))
  {
    ReadByNumber(u);
    TypeIsRead(u);
  }

  // ----- pictures ---------------------------------------------------------------------------------------

  function EncodePictures(pictures: seq<seq<NalUnit>>): (units: seq<seq<Nal>>)
    ensures |units| == |pictures|
    ensures forall k :: 0 <= k < |pictures| ==> units[k] == EncodeAll(pictures[k])
  {
    if pictures == [] then [] else [EncodeAll(pictures[0])] + EncodePictures(pictures[1..])
  }

  predicate LegalPictures(pictures: seq<seq<NalUnit>>) {
    forall p, u :: p in pictures && u in p ==> Legal(u)
  }

  /** One picture: it holds a slice, and nothing that starts a picture behind one. */
  predicate OnePicture(p: seq<NalUnit>) {
    && (exists i :: 0 <= i < |p| && WritesSlice(p[i]))
    && (forall i, j :: 0 <= i < j < |p| && WritesSlice(p[i]) ==> !WritesStart(p[j]))
  }

  /** What an encoder that writes one access unit per picture produces. */
  predicate WellFormedPictures(pictures: seq<seq<NalUnit>>) {
    && LegalPictures(pictures)
    && (forall k :: 0 <= k < |pictures| ==> OnePicture(pictures[k]))
    && (forall k :: 1 <= k < |pictures| ==> WritesStart(pictures[k][0]))
  }

  /** Written and read NAL units correspond one to one. */
  predicate ReadAsWritten(p: seq<NalUnit>, unit: seq<Nal>) {
    && |unit| == |p|
    && (forall i :: 0 <= i < |p| ==> (IsVcl(unit[i]) <==> WritesSlice(p[i])))
    && (forall i :: 0 <= i < |p| ==> (IsStarter(unit[i]) <==> WritesStart(p[i])))
  }

  lemma EncodedIsRead(p: seq<NalUnit>)
    requires forall u :: u in p ==> Legal(u)
    ensures ReadAsWritten(p, EncodeAll(p))
  {
    forall i | 0 <= i < |p|
      ensures IsVcl(EncodeAll(p)[i]) <==> WritesSlice(p[i])
      ensures IsStarter(EncodeAll(p)[i]) <==> WritesStart(p[i])
    {
      ReadByNumber(p[i]);
    }
  }

  lemma PictureRead(p: seq<NalUnit>, unit: seq<Nal>)
    requires ReadAsWritten(p, unit)
    ensures OnePicture(p) <==> HasVcl(unit) && Uncut(unit)
  {
    assert HasVcl(unit) <==> exists i :: 0 <= i < |p| && WritesSlice(p[i]) by {
      if i :| 0 <= i < |p| && WritesSlice(p[i]) {
        assert IsVcl(unit[i]);
      }
    }
  }

  /** What is written as one picture is read as one access unit, and the other way round. */
  lemma PictureByNumber(p: seq<NalUnit>)
    requires forall u :: u in p ==> Legal(u)
    ensures OnePicture(p) <==> HasVcl(EncodeAll(p)) && Uncut(EncodeAll(p))
    ensures p != [] ==> (WritesStart(p[0]) <==> BeginsWithStarter(EncodeAll(p)))
  {
    EncodedIsRead(p);
    PictureRead(p, EncodeAll(p));
  }

  lemma EncodeAllAppend(a: seq<NalUnit>, b: seq<NalUnit>)
    ensures EncodeAll(a + b) == EncodeAll(a) + EncodeAll(b)
  {
  }

  lemma {:induction false} EncodePicturesFlat(pictures: seq<seq<NalUnit>>)
    ensures Flatten(EncodePictures(pictures)) == EncodeAll(Flatten(pictures))
  {
    if pictures != [] {
      EncodePicturesFlat(pictures[1..]);
      assert EncodePictures(pictures)[1..] == EncodePictures(pictures[1..]);
      EncodeAllAppend(pictures[0], Flatten(pictures[1..]));
    }
  }

  lemma {:induction false} FlattenMembers<T>(pieces: seq<seq<T>>, x: T)
    requires x in Flatten(pieces)
    ensures exists p :: p in pieces && x in p
  {
    if x !in pieces[0] {
      FlattenMembers(pieces[1..], x);
    }
  }

  lemma {:induction false} EncodedAreKept(units: seq<NalUnit>)
    requires forall u :: u in units ==> Legal(u)
    ensures Kept(EncodeAll(units)) == EncodeAll(units)
  {
    if units != [] {
      EncodedShape(units[0]);
      EncodedAreKept(units[1..]);
      assert EncodeAll(units)[1..] == EncodeAll(units[1..]);
    }
  }

  lemma MembersAreLegal(pictures: seq<seq<NalUnit>>)
    requires LegalPictures(pictures)
    ensures forall u :: u in Flatten(pictures) ==> Legal(u)
  {
    forall u | u in Flatten(pictures)
      ensures Legal(u)
    {
      FlattenMembers(pictures, u);
    }
  }
}
