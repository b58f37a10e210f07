/**
 Grouping NAL units into access units. A unit is closed in front of a starter (an access
 unit delimiter, or a slice whose first macroblock is 0) once a slice (VCL) NAL is held.
 */
module AccessUnits {
  import opened Bytes
  import opened StartCodes
  import opened SliceHeader

  type Nal = seq<byte>

  /** The NAL unit has a start code and at least its header byte. */
  predicate HasHeader(nal: Nal) {
    StartCodeSize(nal, 0) != 0 && |nal| > StartCodeSize(nal, 0)
  }

  /** `nal[sc_size] & 0x1F`: what is left of the header byte without its upper three bits. */
  function NalType(nal: Nal): (t: nat)
    requires HasHeader(nal)
    ensures t < 32 && exists upper: nat :: nal[StartCodeSize(nal, 0)] == 32 * upper + t
  {
    assert nal[StartCodeSize(nal, 0)] == 32 * (nal[StartCodeSize(nal, 0)] / 32) + nal[StartCodeSize(nal, 0)] % 32;
    nal[StartCodeSize(nal, 0)] % 32
  }

  predicate IsVcl(nal: Nal) {
    HasHeader(nal) && 1 <= NalType(nal) <= 5
  }

  predicate IsStarter(nal: Nal) {
    HasHeader(nal) && (NalType(nal) == 9 || (IsVcl(nal) && FirstMbInSlice(nal) == Some(0)))
  }

  /** The NAL units that are not dropped for want of a header byte. */
  function Kept(nals: seq<Nal>): (kept: seq<Nal>)
  {
    if nals == [] then [] else (if HasHeader(nals[0]) then [nals[0]] else []) + Kept(nals[1..])
  }

  /** The encoder's grouping state: units already emitted, and the one being collected. */
  datatype Grouping = Grouping(units: seq<seq<Nal>>, current: seq<Nal>, hasVcl: bool)

  const NOTHING := Grouping([], [], false)

  function EmitCurrent(g: Grouping): (r: Grouping) {
    Grouping(if g.current != [] && g.hasVcl then g.units + [g.current] else g.units, [], false)
  }

  function ProcessNal(g: Grouping, nal: Nal): (r: Grouping) {
    if !HasHeader(nal) then g
    else
      var h := if IsStarter(nal) && g.hasVcl then EmitCurrent(g) else g;
      Grouping(h.units, h.current + [nal], h.hasVcl || IsVcl(nal))
  }

  function ProcessAll(g: Grouping, nals: seq<Nal>): (r: Grouping)
    decreases |nals|
  {
    if nals == [] then g else ProcessAll(ProcessNal(g, nals[0]), nals[1..])
  }

  lemma {:induction false} ProcessAllAppend(g: Grouping, a: seq<Nal>, b: seq<Nal>)
    ensures ProcessAll(g, a + b) == ProcessAll(ProcessAll(g, a), b)
    decreases |a|
  {
    if a == [] {
      assert a + b == b;
    } else {
      assert (a + b)[1..] == a[1..] + b;
      ProcessAllAppend(ProcessNal(g, a[0]), a[1..], b);
    }
  }

  // ----- what a correct grouping is -----------------------------------------------

  predicate HasVcl(unit: seq<Nal>) {
    exists i :: 0 <= i < |unit| && IsVcl(unit[i])
  }

  /** No starter follows a slice inside the group. */
  predicate Uncut(unit: seq<Nal>) {
    forall i, j :: 0 <= i < j < |unit| && IsVcl(unit[i]) ==> !IsStarter(unit[j])
  }

  predicate BeginsWithStarter(unit: seq<Nal>) {
    unit != [] && IsStarter(unit[0])
  }

  /**
   `units` and then a slice-less `tail` are the NAL units in order; every unit holds a slice
   and no later starter; every unit but the first, and the tail, begins with a starter.
   */
  predicate IsPartition(nals: seq<Nal>, units: seq<seq<Nal>>, tail: seq<Nal>) {
    && Flatten(units) + tail == nals
    && (forall k :: 0 <= k < |units| ==> HasVcl(units[k]) && Uncut(units[k]))
    && (forall k :: 1 <= k < |units| ==> BeginsWithStarter(units[k]))
    && !HasVcl(tail)
    && (units != [] && tail != [] ==> BeginsWithStarter(tail))
  }

  /** What holds after every NAL unit. */
  predicate Inv(g: Grouping, kept: seq<Nal>) {
    && Flatten(g.units) + g.current == kept
    && (forall k :: 0 <= k < |g.units| ==> HasVcl(g.units[k]) && Uncut(g.units[k]))
    && (forall k :: 1 <= k < |g.units| ==> BeginsWithStarter(g.units[k]))
    && (g.hasVcl <==> HasVcl(g.current))
    && Uncut(g.current)
    && (g.units != [] ==> BeginsWithStarter(g.current))
  }

  lemma AppendNal(unit: seq<Nal>, nal: Nal)
    ensures HasVcl(unit + [nal]) <==> HasVcl(unit) || IsVcl(nal)
    ensures Uncut(unit) && !(HasVcl(unit) && IsStarter(nal)) ==> Uncut(unit + [nal])
  {
    var longer := unit + [nal];
    if HasVcl(unit) {
      var i :| 0 <= i < |unit| && IsVcl(unit[i]);
      assert IsVcl(longer[i]);
    }
    if IsVcl(nal) {
      assert IsVcl(longer[|unit|]);
    }
  }

  lemma InvStep(g: Grouping, kept: seq<Nal>, nal: Nal)
    requires Inv(g, kept) && HasHeader(nal)
    ensures Inv(ProcessNal(g, nal), kept + [nal])
  {
    var r := ProcessNal(g, nal);
    if IsStarter(nal) && g.hasVcl {
      FlattenSnoc(g.units, g.current);
      assert r.units == g.units + [g.current];
      AppendNal([], nal);
      assert r.current == [nal];
    } else {
      AppendNal(g.current, nal);
      ConcatAssociates(Flatten(g.units), g.current, [nal]);
    }
  }

  lemma {:induction false} InvAll(g: Grouping, kept: seq<Nal>, nals: seq<Nal>)
    requires Inv(g, kept)
    ensures Inv(ProcessAll(g, nals), kept + Kept(nals))
    decreases |nals|
  {
    if nals == [] {
      assert kept + Kept(nals) == kept;
    } else if HasHeader(nals[0]) {
      InvStep(g, kept, nals[0]);
      InvAll(ProcessNal(g, nals[0]), kept + [nals[0]], nals[1..]);
      ConcatAssociates(kept, [nals[0]], Kept(nals[1..]));
    } else {
      InvAll(g, kept, nals[1..]);
      assert Kept(nals) == Kept(nals[1..]);
    }
  }

  /** The units emitted for a whole stream, the last one flushed at its end. */
  function Units(nals: seq<Nal>): (units: seq<seq<Nal>>) {
    EmitCurrent(ProcessAll(NOTHING, nals)).units
  }

  /** What the final flush drops: the group still open, when it holds no slice. */
  function DroppedTail(nals: seq<Nal>): (tail: seq<Nal>) {
    var g := ProcessAll(NOTHING, nals);
    if g.hasVcl then [] else g.current
  }

  /** The final flush turns the invariant into a partition. */
  lemma FlushInv(g: Grouping, kept: seq<Nal>)
    requires Inv(g, kept)
    ensures IsPartition(kept, EmitCurrent(g).units, if g.hasVcl then [] else g.current)
  {
    if g.hasVcl {
      assert g.current != [];
      FlattenSnoc(g.units, g.current);
      assert EmitCurrent(g).units == g.units + [g.current];
      assert Flatten(g.units) + g.current + [] == kept;
    }
  }

  /** Grouping is correct: the emitted units and the dropped tail partition the kept NAL units. */
  lemma GroupingIsPartition(nals: seq<Nal>)
    ensures IsPartition(Kept(nals), Units(nals), DroppedTail(nals))
  {
    InvAll(NOTHING, [], nals);
    assert [] + Kept(nals) == Kept(nals);
    FlushInv(ProcessAll(NOTHING, nals), Kept(nals));
  }

  // ----- uniqueness ------------------------------------------------------------------

  lemma FirstUnitStarts(nals: seq<Nal>, units: seq<seq<Nal>>, tail: seq<Nal>)
    requires IsPartition(nals, units, tail) && units != []
    ensures units[0] <= nals
    ensures IsPartition(nals[|units[0]|..], units[1..], tail)
    ensures |units[0]| < |nals| ==> IsStarter(nals[|units[0]|])
    ensures units != [] && |units| > 1 ==> BeginsWithStarter(units[1])
  {
    ConcatAssociates(units[0], Flatten(units[1..]), tail);
    var rest := Flatten(units[1..]) + tail;
    assert nals == units[0] + rest;
    assert nals[|units[0]|..] == rest;
    if |units| > 1 {
      assert units[1..][0] == units[1];
      assert BeginsWithStarter(units[1]);
      assert rest[0] == units[1][0];
    } else {
      assert rest == tail;
    }
  }

  /** A first unit that reaches past another one holds the starter behind that one's slice. */
  lemma LongerUnitIsCut(nals: seq<Nal>, u: seq<Nal>, v: seq<Nal>)
    requires u <= nals && v <= nals && |u| < |v|
    requires HasVcl(u) && IsStarter(nals[|u|])
    ensures !Uncut(v)
  {
    var i :| 0 <= i < |u| && IsVcl(u[i]);
    assert v[i] == u[i] && v[|u|] == nals[|u|];
  }

  /** Two admissible first units of the same NAL sequence are the same. */
  lemma FirstUnitUnique(nals: seq<Nal>, u: seq<Nal>, v: seq<Nal>)
    requires u <= nals && v <= nals
    requires HasVcl(u) && Uncut(u) && HasVcl(v) && Uncut(v)
    requires |u| < |nals| ==> IsStarter(nals[|u|])
    requires |v| < |nals| ==> IsStarter(nals[|v|])
    ensures u == v
  {
    if |u| < |v| {
      LongerUnitIsCut(nals, u, v);
    } else if |v| < |u| {
      LongerUnitIsCut(nals, v, u);
    }
  }

  lemma TailOnly(nals: seq<Nal>, units: seq<seq<Nal>>, tail: seq<Nal>)
    requires IsPartition(nals, units, tail)
    ensures units == [] <==> !HasVcl(nals)
    ensures units == [] ==> tail == nals
  {
    if units != [] {
      FirstUnitStarts(nals, units, tail);
      var i :| 0 <= i < |units[0]| && IsVcl(units[0][i]);
      assert IsVcl(nals[i]);
    }
  }

  /** Any partition that meets the conditions is the one produced. */
  lemma {:induction false} PartitionUnique(nals: seq<Nal>, u1: seq<seq<Nal>>, t1: seq<Nal>, u2: seq<seq<Nal>>,
                                           t2: seq<Nal>)
    requires IsPartition(nals, u1, t1) && IsPartition(nals, u2, t2)
    ensures u1 == u2 && t1 == t2
    decreases |u1|
  {
    TailOnly(nals, u1, t1);
    TailOnly(nals, u2, t2);
    if u1 != [] {
      FirstUnitStarts(nals, u1, t1);
      FirstUnitStarts(nals, u2, t2);
      FirstUnitUnique(nals, u1[0], u2[0]);
      PartitionUnique(nals[|u1[0]|..], u1[1..], t1, u2[1..], t2);
      assert u1 == [u1[0]] + u1[1..] && u2 == [u2[0]] + u2[1..];
    }
  }

  /** The grouping function computes the partition, and nothing else is one. */
  lemma GroupingIsTheOnlyPartition(nals: seq<Nal>, units: seq<seq<Nal>>, tail: seq<Nal>)
    ensures IsPartition(Kept(nals), units, tail) <==> units == Units(nals) && tail == DroppedTail(nals)
  {
    GroupingIsPartition(nals);
    if IsPartition(Kept(nals), units, tail) {
      PartitionUnique(Kept(nals), units, tail, Units(nals), DroppedTail(nals));
    }
  }
}
