/**
 Where the host bridge's loader cuts a file into access units: its rule, and that no other grouping
 follows it.
 */
module LoaderCuts {
  import opened Bytes
  import opened StartCodes
  import opened Ebsp
  import opened SliceHeader
  import opened AccessUnits
  import opened WrittenNals
  import opened TestStream

  /** The only NAL types the loader takes for slices. */
  predicate IsSlice(nal: Nal) {
    HasHeader(nal) && (NalType(nal) == 1 || NalType(nal) == 5)
  }

  predicate IsDelimiter(nal: Nal) {
    HasHeader(nal) && NalType(nal) == 9
  }

  /** A slice whose first macroblock is 0, or cannot be read. */
  predicate StartsPicture(nal: Nal) {
    IsSlice(nal) && (CppFirstMb(NalPayload(nal)) == None || CppFirstMb(NalPayload(nal)) == Some(0))
  }

  predicate HasSlice(unit: seq<Nal>) {
    exists i :: 0 <= i < |unit| && IsSlice(unit[i])
  }

  /**
   Nothing in the unit had to begin a new one: no delimiter behind its first NAL unit, no picture
   start behind a slice.
   */
  predicate Whole(unit: seq<Nal>) {
    && (forall j :: 0 < j < |unit| ==> !IsDelimiter(unit[j]))
    && (forall i, j :: 0 <= i < j < |unit| && IsSlice(unit[i]) ==> !StartsPicture(unit[j]))
  }

  /** `nal` begins the unit after `unit`: a delimiter, or a picture start when `unit` already holds a slice. */
  predicate CutBefore(unit: seq<Nal>, nal: Nal) {
    IsDelimiter(nal) || (StartsPicture(nal) && HasSlice(unit))
  }

  /** The units are the NAL units in order; none is empty, each is whole, and each later one begins at a cut. */
  predicate IsCutting(nals: seq<Nal>, units: seq<seq<Nal>>) {
    && Flatten(units) == nals
    && (forall k :: 0 <= k < |units| ==> units[k] != [] && Whole(units[k]))
    && (forall k :: 0 < k < |units| ==> units[k] != [] && CutBefore(units[k - 1], units[k][0]))
  }

  // ----- the loader cuts by this rule ----------------------------------------------------------------

  /** What holds after every NAL unit. */
  predicate CutInv(s: Loader, kept: seq<Nal>) {
    && IsCutting(kept, if s.current == [] then s.units else s.units + [s.current])
    && (s.hasVcl <==> HasSlice(s.current)) && (s.current == [] ==> s.units == [])
  }

  lemma AppendSlice(unit: seq<Nal>, nal: Nal)
    ensures HasSlice(unit + [nal]) <==> HasSlice(unit) || IsSlice(nal)
    ensures Whole(unit) && (unit == [] || !CutBefore(unit, nal)) ==> Whole(unit + [nal])
  {
    var longer := unit + [nal];
    if HasSlice(unit) {
      var i :| 0 <= i < |unit| && IsSlice(unit[i]);
      assert IsSlice(longer[i]);
    }
    if IsSlice(nal) {
      assert IsSlice(longer[|unit|]);
    }
  }

  /** A further unit that begins at a cut. */
  lemma NewUnit(kept: seq<Nal>, units: seq<seq<Nal>>, nal: Nal)
    requires IsCutting(kept, units) && (units != [] ==> CutBefore(units[|units| - 1], nal))
    ensures IsCutting(kept + [nal], units + [[nal]])
  {
    FlattenSnoc(units, [nal]);
  }

  /** A NAL unit that does not begin a new one. */
  lemma LongerUnit(kept: seq<Nal>, units: seq<seq<Nal>>, unit: seq<Nal>, nal: Nal)
    requires IsCutting(kept, units + [unit]) && !CutBefore(unit, nal)
    ensures IsCutting(kept + [nal], units + [unit + [nal]])
  {
    var before, after := units + [unit], units + [unit + [nal]];
    FlattenSnoc(units, unit);
    FlattenSnoc(units, unit + [nal]);
    ConcatAssociates(Flatten(units), unit, [nal]);
    assert before[|units|] == unit;
    AppendSlice(unit, nal);
    forall k | 0 <= k < |after|
      ensures after[k] != [] && Whole(after[k])
    {
      if k < |units| {
        assert before[k] == after[k];
      }
    }
    forall k | 0 < k < |after|
      ensures after[k] != [] && CutBefore(after[k - 1], after[k][0])
    {
      assert after[k - 1] == before[k - 1] && after[k][0] == before[k][0];
    }
  }

  /** The loader pushes the current unit exactly in front of a cut. */
  lemma LoadsAtCuts(s: Loader, nal: Nal)
    requires HasHeader(nal) && (s.hasVcl <==> HasSlice(s.current))
    ensures var r := LoadNal(s, nal);
            if s.current != [] && CutBefore(s.current, nal) then r.units == s.units + [s.current] && r.current == [nal]
            else r.units == s.units && r.current == s.current + [nal]
    ensures LoadNal(s, nal).hasVcl <==> HasSlice(LoadNal(s, nal).current)
  {
    AppendSlice(s.current, nal);
    AppendSlice([], nal);
    assert [] + [nal] == [nal] && !HasSlice([]);
  }

  lemma CutInvStep(s: Loader, kept: seq<Nal>, nal: Nal)
    requires CutInv(s, kept) && HasHeader(nal)
    ensures CutInv(LoadNal(s, nal), kept + [nal])
  {
    LoadsAtCuts(s, nal);
    var r := LoadNal(s, nal);
    if s.current == [] {
      assert r.current == [nal];
      NewUnit(kept, s.units, nal);
    } else if CutBefore(s.current, nal) {
      NewUnit(kept, s.units + [s.current], nal);
    } else {
      LongerUnit(kept, s.units, s.current, nal);
    }
  }

  lemma {:induction false} CutInvAll(s: Loader, kept: seq<Nal>, nals: seq<Nal>)
    requires CutInv(s, kept)
    ensures CutInv(LoadAll(s, nals), kept + Kept(nals))
    decreases |nals|
  {
    if nals == [] {
      assert kept + Kept(nals) == kept;
    } else if HasHeader(nals[0]) {
      CutInvStep(s, kept, nals[0]);
      CutInvAll(LoadNal(s, nals[0]), kept + [nals[0]], nals[1..]);
      ConcatAssociates(kept, [nals[0]], Kept(nals[1..]));
    } else {
      CutInvAll(s, kept, nals[1..]);
      assert Kept(nals) == Kept(nals[1..]);
    }
  }

  /** The access units that the loader makes of the NAL units. */
  function Loaded(nals: seq<Nal>): (units: seq<seq<Nal>>) {
    Finish(LoadAll(UNLOADED, nals)).units
  }

  lemma LoadedIsCutting(nals: seq<Nal>)
    ensures IsCutting(Kept(nals), Loaded(nals))
  {
    CutInvAll(UNLOADED, [], nals);
    assert [] + Kept(nals) == Kept(nals);
  }

  // ----- and nothing else does -------------------------------------------------------------------------

  lemma FirstCut(nals: seq<Nal>, units: seq<seq<Nal>>)
    requires IsCutting(nals, units) && units != []
    ensures units[0] != [] && Whole(units[0]) && units[0] <= nals
    ensures IsCutting(nals[|units[0]|..], units[1..])
    ensures |units[0]| < |nals| ==> CutBefore(units[0], nals[|units[0]|])
  {
    var rest := Flatten(units[1..]);
    assert nals == units[0] + rest && nals[|units[0]|..] == rest;
    if |units| > 1 {
      assert units[1..][0] == units[1] && rest[0] == units[1][0];
      assert units[1] != [] && CutBefore(units[1 - 1], units[1][0]);
    }
    forall k | 0 < k < |units[1..]|
      ensures units[1..][k] != [] && CutBefore(units[1..][k - 1], units[1..][k][0])
    {
      assert units[k + 1] != [] && CutBefore(units[k + 1 - 1], units[k + 1][0]);
    }
  }

  /** A unit that reaches past another one is not whole. */
  lemma LongerIsNotWhole(nals: seq<Nal>, u: seq<Nal>, v: seq<Nal>)
    requires u != [] && u <= nals && v <= nals && |u| < |v| && CutBefore(u, nals[|u|])
    ensures !Whole(v)
  {
    assert v[|u|] == nals[|u|];
    if !IsDelimiter(nals[|u|]) {
      var i :| 0 <= i < |u| && IsSlice(u[i]);
      assert v[i] == u[i] && StartsPicture(v[|u|]);
    }
  }

  /** Two cuttings of the same NAL units are the same. */
  lemma {:induction false} CuttingUnique(nals: seq<Nal>, u: seq<seq<Nal>>, v: seq<seq<Nal>>)
    requires IsCutting(nals, u) && IsCutting(nals, v)
    ensures u == v
    decreases |u|
  {
    if u == [] {
      if v != [] {
        FirstCut(nals, v);
      }
    } else {
      FirstCut(nals, u);
      assert v != [] by { assert u[0] <= nals; }
      FirstCut(nals, v);
      if |u[0]| < |v[0]| {
        LongerIsNotWhole(nals, u[0], v[0]);
      } else if |v[0]| < |u[0]| {
        LongerIsNotWhole(nals, v[0], u[0]);
      }
      CuttingUnique(nals[|u[0]|..], u[1..], v[1..]);
      assert u == [u[0]] + u[1..] && v == [v[0]] + v[1..];
    }
  }

  /** The loader's units are the one cutting of the NAL units that have a header byte. */
  lemma LoadedIsTheOnlyCutting(nals: seq<Nal>, units: seq<seq<Nal>>)
    ensures IsCutting(Kept(nals), units) <==> units == Loaded(nals)
  {
    LoadedIsCutting(nals);
    if IsCutting(Kept(nals), units) {
      CuttingUnique(Kept(nals), units, Loaded(nals));
    }
  }

  // ----- pictures written by number -----------------------------------------------------------------------

  /** The loader's slices: types 1 and 5. */
  predicate WritesPlainSlice(u: NalUnit) { u.unitType == 1 || u.unitType == 5 }

  /** The first macroblock is 0, or the loader cannot read it; without any payload it reads 0. */
  predicate OpensPicture(u: NalUnit) {
    WritesPlainSlice(u) && (u.rbsp == [] || BeginsWithZero(u.rbsp) || ShortField(Bits(u.rbsp)) == None)
  }

  /** The 32-bit reader's field is 0 for an empty payload, and for one that begins with a single one bit. */
  lemma ShortZero(rbsp: seq<byte>)
    ensures ShortField(Bits(rbsp)) == Some(0) <==> rbsp == [] || BeginsWithZero(rbsp)
  {
    if rbsp != [] {
      FirstBit(rbsp);
      var z := ZeroRun(Bits(rbsp), 0);
      assert z == 0 <==> Bits(rbsp)[0] == 1;
      assert z > 0 ==> Pow2(z) >= 2;
    }
  }

  /** What a framed NAL unit is to the loader, by the numbers that were written. */
  lemma LoadedByNumber(u: NalUnit)
    requires Legal(u)
    ensures IsSlice(EncodeNal(u)) <==> u.unitType == 1 || u.unitType == 5
    ensures IsDelimiter(EncodeNal(u)) <==> u.unitType == 9
    ensures StartsPicture(EncodeNal(u)) <==> OpensPicture(u)
  {
    TypeIsRead(u);
    PayloadOfEncoded(u);
    assert ([HeaderByte(u)] + Stuff(u.rbsp, 0))[1..] == Stuff(u.rbsp, 0);
    UnstuffStuff(u.rbsp, 0);
    ShortZero(u.rbsp);
  }

  /** What one written NAL unit does to the unit that is being collected. */
  lemma LoadNalByNumber(s: Loader, u: NalUnit)
    requires Legal(u)
    ensures var closed := if u.unitType == 9 then s.current != [] else OpensPicture(u) && s.hasVcl;
            var slice := u.unitType == 1 || u.unitType == 5;
            var r := LoadNal(s, EncodeNal(u));
            && r.units == (if closed then s.units + [s.current] else s.units)
            && r.keys == (if closed then s.keys + [s.isKey] else s.keys)
            && r.current == (if closed then [EncodeNal(u)] else s.current + [EncodeNal(u)])
            && (r.hasVcl <==> slice || (s.hasVcl && !closed))
            && (r.isKey <==> u.unitType == 5 || (s.isKey && !closed))
  {
    LoadedByNumber(u);
    TypeIsRead(u);
  }

  predicate HoldsSlice(p: seq<NalUnit>) {
    exists i :: 0 <= i < |p| && WritesPlainSlice(p[i])
  }

  /** Nothing behind the first NAL unit is a delimiter, and nothing behind a slice opens a picture. */
  predicate InOnePiece(p: seq<NalUnit>) {
    && (forall j :: 0 < j < |p| ==> p[j].unitType != 9)
    && (forall i, j :: 0 <= i < j < |p| && WritesPlainSlice(p[i]) ==> !OpensPicture(p[j]))
  }

  /** A delimiter, or a picture behind one that holds a slice. */
  predicate FollowsAs(p: seq<NalUnit>, u: NalUnit) {
    u.unitType == 9 || (OpensPicture(u) && HoldsSlice(p))
  }

  /** What the loader can tell apart: every picture in one piece, each later one beginning at a cut. */
  predicate LoadablePictures(pictures: seq<seq<NalUnit>>) {
    && LegalPictures(pictures)
    && (forall k :: 0 <= k < |pictures| ==> pictures[k] != [] && InOnePiece(pictures[k]))
    && (forall k :: 0 < k < |pictures| ==> FollowsAs(pictures[k - 1], pictures[k][0]))
  }

  /** Written and loaded NAL units correspond one to one. */
  predicate LoadedAsWritten(p: seq<NalUnit>, unit: seq<Nal>) {
    && |unit| == |p|
    && (forall i :: 0 <= i < |p| ==> (IsSlice(unit[i]) <==> WritesPlainSlice(p[i])))
    && (forall i :: 0 <= i < |p| ==> (IsDelimiter(unit[i]) <==> p[i].unitType == 9))
    && (forall i :: 0 <= i < |p| ==> (StartsPicture(unit[i]) <==> OpensPicture(p[i])))
    && (forall i :: 0 <= i < |p| ==> HasHeader(unit[i]) && NalType(unit[i]) == p[i].unitType)
  }

  lemma EncodedIsLoaded(p: seq<NalUnit>)
    requires forall u :: u in p ==> Legal(u)
    ensures LoadedAsWritten(p, EncodeAll(p))
  {
    forall i | 0 <= i < |p|
      ensures IsSlice(EncodeAll(p)[i]) <==> WritesPlainSlice(p[i])
      ensures IsDelimiter(EncodeAll(p)[i]) <==> p[i].unitType == 9
      ensures StartsPicture(EncodeAll(p)[i]) <==> OpensPicture(p[i])
      ensures HasHeader(EncodeAll(p)[i]) && NalType(EncodeAll(p)[i]) == p[i].unitType
    {
      LoadedByNumber(p[i]);
      TypeIsRead(p[i]);
    }
  }

  predicate HoldsIdr(p: seq<NalUnit>) {
    exists i :: 0 <= i < |p| && p[i].unitType == 5
  }

  lemma PieceLoaded(p: seq<NalUnit>, unit: seq<Nal>)
    requires LoadedAsWritten(p, unit)
    ensures HasSlice(unit) <==> HoldsSlice(p)
    ensures Whole(unit) <==> InOnePiece(p)
    ensures HasIdr(unit) <==> HoldsIdr(p)
  {
    if i :| 0 <= i < |p| && WritesPlainSlice(p[i]) {
      assert IsSlice(unit[i]);
    }
    if i :| 0 <= i < |p| && p[i].unitType == 5 {
      assert NalType(unit[i]) == 5;
    }
  }

  lemma PieceByNumber(p: seq<NalUnit>)
    requires forall u :: u in p ==> Legal(u)
    ensures HasSlice(EncodeAll(p)) <==> HoldsSlice(p)
    ensures Whole(EncodeAll(p)) <==> InOnePiece(p)
    ensures HasIdr(EncodeAll(p)) <==> HoldsIdr(p)
  {
    EncodedIsLoaded(p);
    PieceLoaded(p, EncodeAll(p));
  }

  lemma PicturesAreCutting(pictures: seq<seq<NalUnit>>)
    requires LoadablePictures(pictures)
    ensures IsCutting(EncodeAll(Flatten(pictures)), EncodePictures(pictures))
  {
    var units := EncodePictures(pictures);
    EncodePicturesFlat(pictures);
    forall k | 0 <= k < |units|
      ensures units[k] != [] && Whole(units[k])
    {
      assert pictures[k] in pictures;
      PieceByNumber(pictures[k]);
    }
    forall k | 0 < k < |units|
      ensures units[k] != [] && CutBefore(units[k - 1], units[k][0])
    {
      assert pictures[k - 1] in pictures && pictures[k] in pictures && pictures[k][0] in pictures[k];
      PieceByNumber(pictures[k - 1]);
      LoadedByNumber(pictures[k][0]);
    }
  }

  /**
   End to end: from a file of such pictures the loader makes exactly these access units, and marks as
   keyframes exactly those that were written with an IDR slice, type 5.
   */
  lemma LoaderPicturesRoundTrip(pictures: seq<seq<NalUnit>>, bytes: seq<byte>)
    requires LoadablePictures(pictures) && bytes == Flatten(EncodeAll(Flatten(pictures)))
    ensures var s := Finish(LoadAll(UNLOADED, NalsFrom(bytes, First(bytes, 0))));
            && s.units == EncodePictures(pictures) && |s.keys| == |pictures|
            && forall k :: 0 <= k < |pictures| ==>
                 (s.keys[k] <==> exists i :: 0 <= i < |pictures[k]| && pictures[k][i].unitType == 5)
  {
    var nals := EncodeAll(Flatten(pictures));
    MembersAreLegal(pictures);
    ScanInvertsEncoding(Flatten(pictures));
    OneShotIsScan(bytes);
    EncodedAreKept(Flatten(pictures));
    PicturesAreCutting(pictures);
    LoadedIsTheOnlyCutting(nals, EncodePictures(pictures));
    LoaderConserves(nals);
    var s := Finish(LoadAll(UNLOADED, nals));
    forall k | 0 <= k < |pictures|
      ensures s.keys[k] <==> exists i :: 0 <= i < |pictures[k]| && pictures[k][i].unitType == 5
    {
      assert pictures[k] in pictures;
      PieceByNumber(pictures[k]);
    }
  }
}
