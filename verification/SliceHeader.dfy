/**
 The first field of a slice header: Exp-Golomb codes (section 9.1 of ITU-T H.264) read
 bit by bit from the unstuffed payload of a NAL unit.
 */
module SliceHeader {
  import opened Bytes
  import opened StartCodes
  import opened Ebsp

  type bit = b: int | 0 <= b < 2

  function Pow2(n: nat): (p: nat)
    ensures p >= 1
  {
    if n == 0 then 1 else 2 * Pow2(n - 1)
  }

  /** `x >> n`. */
  function ShiftRight(x: nat, n: nat): (r: nat)
    ensures r <= x
  {
    if n == 0 then x else ShiftRight(x / 2, n - 1)
  }

  /** Bit `k` of a byte, most significant first. */
  function BitOf(b: byte, k: nat): bit
    requires k < 8
  {
    ShiftRight(b, 7 - k) % 2
  }

  function ByteBits(b: byte): (bits: seq<bit>)
    ensures |bits| == 8
  {
    seq(8, k requires 0 <= k < 8 => BitOf(b, k))
  }

  function Bits(data: seq<byte>): (bits: seq<bit>)
    ensures |bits| == 8 * |data|
  {
    if data == [] then [] else ByteBits(data[0]) + Bits(data[1..])
  }

  lemma {:induction false} BitAt(data: seq<byte>, i: nat)
    requires i < 8 * |data|
    ensures Bits(data)[i] == BitOf(data[i / 8], i % 8)
  {
    if i >= 8 {
      BitAt(data[1..], i - 8);
    }
  }

  lemma {:induction false} BitsAppend(a: seq<byte>, b: seq<byte>)
    ensures Bits(a + b) == Bits(a) + Bits(b)
  {
    if a == [] {
      assert a + b == b;
    } else {
      assert (a + b)[1..] == a[1..] + b;
      BitsAppend(a[1..], b);
      ConcatAssociates(ByteBits(a[0]), Bits(a[1..]), Bits(b));
    }
  }

  /** The number that `n` bits from `start` on denote, most significant bit first. */
  function Value(bits: seq<bit>, start: nat, n: nat): (v: nat)
    requires start + n <= |bits|
  {
    if n == 0 then 0 else 2 * Value(bits, start, n - 1) + bits[start + n - 1]
  }

  lemma {:induction false} ValueSame(a: seq<bit>, i: nat, b: seq<bit>, j: nat, n: nat)
    requires i + n <= |a| && j + n <= |b|
    requires forall k :: i <= k < i + n ==> a[k] == b[k - i + j]
    ensures Value(a, i, n) == Value(b, j, n)
    decreases n
  {
    if n > 0 {
      ValueSame(a, i, b, j, n - 1);
    }
  }

  lemma {:induction false} ValueBound(bits: seq<bit>, start: nat, n: nat)
    requires start + n <= |bits|
    ensures Value(bits, start, n) < Pow2(n)
  {
    if n > 0 {
      ValueBound(bits, start, n - 1);
    }
  }

  /** How many zero bits run from `pos` up to the next one bit or the end. */
  function ZeroRun(bits: seq<bit>, pos: nat): (z: nat)
    requires pos <= |bits|
    ensures pos + z <= |bits|
    ensures pos + z < |bits| ==> bits[pos + z] == 1
    decreases |bits| - pos
  {
    if pos == |bits| || bits[pos] == 1 then 0 else 1 + ZeroRun(bits, pos + 1)
  }

  /** A decoded `ue(v)`: its value and the position after it. */
  datatype Field = Field(value: nat, next: nat)

  /** `ue(v)` at `pos`; None when the bits run out. */
  function UeAt(bits: seq<bit>, pos: nat): (r: Option<Field>)
    requires pos <= |bits|
  {
    var z := ZeroRun(bits, pos);
    var next := pos + 2 * z + 1;
    if next > |bits| then None
    else Some(Field(Pow2(z) - 1 + Value(bits, pos + z + 1, z), next))
  }

  /** `_BitReader`; None stands for the EOFError it raises. */
  class BitReader {
    const data: seq<byte>
    var bitPos: nat

    predicate Valid() reads this { bitPos <= 8 * |data| }

    constructor (data: seq<byte>)
      ensures Valid() && this.data == data && bitPos == 0
    {
      this.data := data;
      bitPos := 0;
    }

    method ReadBit() returns (r: Option<bit>)
      requires Valid()
      modifies this
      ensures Valid()
      ensures old(bitPos) < 8 * |data| ==> r == Some(Bits(data)[old(bitPos)]) && bitPos == old(bitPos) + 1
      ensures old(bitPos) == 8 * |data| ==> r == None && bitPos == old(bitPos)
    {
      if bitPos >= 8 * |data| {
        return None;
      }
      var b := ShiftRight(data[bitPos / 8], 7 - bitPos % 8) % 2;
      BitAt(data, bitPos);
      bitPos := bitPos + 1;
      return Some(b);
    }

    method ReadBits(count: nat) returns (r: Option<nat>)
      requires Valid()
      modifies this
      ensures Valid()
      ensures old(bitPos) + count <= 8 * |data| ==>
                r == Some(Value(Bits(data), old(bitPos), count)) && bitPos == old(bitPos) + count
      ensures old(bitPos) + count > 8 * |data| ==> r == None && bitPos == 8 * |data|
    {
      ghost var bits, start := Bits(data), bitPos;
      var value: nat := 0;
      for i := 0 to count
        invariant bitPos == start + i <= 8 * |data|
        invariant value == Value(bits, start, i)
      {
        var b := ReadBit();
        if b.None? {
          return None;
        }
        value := 2 * value + b.value;
      }
      return Some(value);
    }

    /** The zero-counting loop of `read_ue`, up to and including the next one bit. */
    method ReadZeros() returns (r: Option<nat>)
      requires Valid()
      modifies this
      ensures Valid()
      ensures var z := ZeroRun(Bits(data), old(bitPos));
              if old(bitPos) + z < 8 * |data| then r == Some(z) && bitPos == old(bitPos) + z + 1
              else r == None && bitPos == 8 * |data|
    {
      ghost var bits, start := Bits(data), bitPos;
      var zeros: nat := 0;
      var b := ReadBit();
      while b == Some(0)
        invariant start + zeros <= |bits|
        invariant b == if start + zeros < |bits| then Some(bits[start + zeros]) else None
        invariant bitPos == if start + zeros < |bits| then start + zeros + 1 else |bits|
        invariant ZeroRun(bits, start) == zeros + ZeroRun(bits, start + zeros)
        decreases |bits| - start - zeros
      {
        zeros := zeros + 1;
        b := ReadBit();
      }
      return if b.None? then None else Some(zeros);
    }

    method ReadUe() returns (r: Option<nat>)
      requires Valid()
      modifies this
      ensures Valid()
      ensures var f := UeAt(Bits(data), old(bitPos));
              match f case None => r == None && bitPos == 8 * |data|
                      case Some(field) => r == Some(field.value) && bitPos == field.next
    {
      var zeros := ReadZeros();
      if zeros.None? {
        return None;
      }
      if zeros.value == 0 {
        return Some(0);
      }
      var rest := ReadBits(zeros.value);
      return if rest.None? then None else Some(Pow2(zeros.value) - 1 + rest.value);
    }
  }

  /** `_nal_payload`: the NAL unit without its start code. */
  function NalPayload(nal: seq<byte>): (payload: seq<byte>) {
    nal[StartCodeSize(nal, 0)..]
  }

  /** `_first_mb_in_slice` on a NAL unit without start code. */
  function FirstMbOfPayload(payload: seq<byte>): (r: Option<nat>) {
    if |payload| < 2 then None
    else match UeAt(Bits(Unstuff(payload[1..], 0)), 0)
      case None => None
      case Some(f) => Some(f.value)
  }

  function FirstMbInSlice(nal: seq<byte>): (r: Option<nat>) {
    FirstMbOfPayload(NalPayload(nal))
  }

  method ReadFirstMbInSlice(nal: seq<byte>) returns (r: Option<nat>)
    ensures r == FirstMbInSlice(nal)
  {
    var payload := NalPayload(nal);
    if |payload| < 2 {
      return None;
    }
    var rbsp := RbspFromEbsp(payload[1..]);
    var reader := new BitReader(rbsp);
    r := reader.ReadUe();
  }

  // ----- writing the field -------------------------------------------------------

  /** floor(log2(x)). */
  function Log2(x: nat): (n: nat)
    requires x >= 1
    ensures Pow2(n) <= x < 2 * Pow2(n)
  {
    if x < 2 then 0 else 1 + Log2(x / 2)
  }

  function Zeros(n: nat): (bits: seq<bit>) {
    seq(n, _ => 0)
  }

  /** `v` in `n` bits, most significant first. */
  function Binary(v: nat, n: nat): (bits: seq<bit>)
    ensures |bits| == n
    decreases n
  {
    if n == 0 then [] else
      var b: bit := v % 2;
      Binary(v / 2, n - 1) + [b]
  }

  lemma {:induction false} BinaryValue(v: nat, n: nat)
    requires v < Pow2(n)
    ensures Value(Binary(v, n), 0, n) == v
    decreases n
  {
    if n > 0 {
      BinaryValue(v / 2, n - 1);
      ValueSame(Binary(v, n), 0, Binary(v / 2, n - 1), 0, n - 1);
    }
  }

  /** `ue(v)` as section 9.1 writes it. */
  function UeBits(v: nat): (bits: seq<bit>)
    ensures |bits| == 2 * Log2(v + 1) + 1
  {
    var n := Log2(v + 1);
    Zeros(n) + [1] + Binary(v + 1 - Pow2(n), n)
  }

  lemma {:induction false} ZeroRunIs(bits: seq<bit>, pos: nat, z: nat)
    requires pos + z < |bits| && bits[pos + z] == 1
    requires forall i :: pos <= i < pos + z ==> bits[i] == 0
    ensures ZeroRun(bits, pos) == z
    decreases z
  {
    if z > 0 {
      ZeroRunIs(bits, pos + 1, z - 1);
    }
  }

  /** The layout of `ue(v)`: `n` zeros, a one, and the low `n` bits of v+1. */
  lemma UeShape(v: nat)
    ensures var n, code := Log2(v + 1), UeBits(v);
            && (forall i :: 0 <= i < n ==> code[i] == 0) && code[n] == 1
            && Pow2(n) - 1 + Value(code, n + 1, n) == v
  {
    var n := Log2(v + 1);
    BinaryValue(v + 1 - Pow2(n), n);
    ValueSame(UeBits(v), n + 1, Binary(v + 1 - Pow2(n), n), 0, n);
  }

  /** Wherever the bits of `ue(v)` stand, one field is read: `v`, and exactly 2*floor(log2(v+1))+1 bits consumed. */
  lemma UeInPlace(bits: seq<bit>, pos: nat, v: nat)
    requires pos + |UeBits(v)| <= |bits|
    requires forall i :: pos <= i < pos + |UeBits(v)| ==> bits[i] == UeBits(v)[i - pos]
    ensures UeAt(bits, pos) == Some(Field(v, pos + 2 * Log2(v + 1) + 1))
  {
    var n, code := Log2(v + 1), UeBits(v);
    UeShape(v);
    assert bits[pos + n] == code[n];
    ZeroRunIs(bits, pos, n);
    ValueSame(bits, pos + n + 1, code, n + 1, n);
  }

  /** Reading `ue(v)` back, whatever comes before and after it. */
  lemma UeRoundTrip(before: seq<bit>, v: nat, after: seq<bit>)
    ensures UeAt(before + (UeBits(v) + after), |before|) == Some(Field(v, |before| + 2 * Log2(v + 1) + 1))
  {
    UeInPlace(before + (UeBits(v) + after), |before|, v);
  }

  lemma {:induction false} ZeroRunExtends(bits: seq<bit>, more: seq<bit>, pos: nat)
    requires pos <= |bits| && pos + ZeroRun(bits, pos) < |bits|
    ensures ZeroRun(bits + more, pos) == ZeroRun(bits, pos)
    decreases |bits| - pos
  {
    if bits[pos] != 1 {
      ZeroRunExtends(bits, more, pos + 1);
    }
  }

  /** A field decoded from a prefix is the field decoded from the whole. */
  lemma UeExtends(bits: seq<bit>, more: seq<bit>, pos: nat)
    requires pos <= |bits| && UeAt(bits, pos).Some?
    ensures UeAt(bits + more, pos) == UeAt(bits, pos)
  {
    var z := ZeroRun(bits, pos);
    ZeroRunExtends(bits, more, pos);
    ValueSame(bits + more, pos + z + 1, bits, pos + z + 1, z);
  }

  lemma {:induction false} ShiftDropsBits(bits: seq<bit>, n: nat, shift: nat)
    requires shift <= n <= |bits|
    ensures ShiftRight(Value(bits, 0, n), shift) == Value(bits, 0, n - shift)
    decreases shift
  {
    if shift > 0 {
      assert Value(bits, 0, n) / 2 == Value(bits, 0, n - 1);
      ShiftDropsBits(bits, n - 1, shift - 1);
    }
  }

  function PackByte(bits: seq<bit>): (b: byte)
    requires |bits| == 8
  {
    ValueBound(bits, 0, 8);
    assert Pow2(8) == 256;
    Value(bits, 0, 8)
  }

  lemma PackedBit(bits: seq<bit>, k: nat)
    requires |bits| == 8 && k < 8
    ensures BitOf(PackByte(bits), k) == bits[k]
  {
    ShiftDropsBits(bits, 8, 7 - k);
    assert Value(bits, 0, k + 1) == 2 * Value(bits, 0, k) + bits[k];
  }

  lemma PackedByte(bits: seq<bit>)
    requires |bits| == 8
    ensures ByteBits(PackByte(bits)) == bits
  {
    forall k | 0 <= k < 8
      ensures BitOf(PackByte(bits), k) == bits[k]
    {
      PackedBit(bits, k);
    }
  }

  /** Bits into bytes, the last byte padded with zero bits. */
  function Pack(bits: seq<bit>): (data: seq<byte>)
    ensures bits != [] ==> data != []
    decreases |bits|
  {
    if bits == [] then []
    else if |bits| < 8 then [PackByte(bits + Zeros(8 - |bits|))]
    else [PackByte(bits[..8])] + Pack(bits[8..])
  }

  /** Packing keeps the bits; it only pads. */
  lemma {:induction false} PackKeepsBits(bits: seq<bit>)
    ensures |bits| <= 8 * |Pack(bits)| && Bits(Pack(bits))[..|bits|] == bits
    decreases |bits|
  {
    if bits == [] {
    } else if |bits| < 8 {
      var head := bits + Zeros(8 - |bits|);
      PackedByte(head);
      assert Pack(bits)[1..] == [];
      assert Bits(Pack(bits)) == head;
    } else {
      PackedByte(bits[..8]);
      PackKeepsBits(bits[8..]);
      assert Pack(bits)[1..] == Pack(bits[8..]);
      assert Bits(Pack(bits)) == bits[..8] + Bits(Pack(bits[8..]));
    }
  }

  lemma PackedFieldRoundTrip(v: nat, after: seq<bit>)
    ensures UeAt(Bits(Pack(UeBits(v) + after)), 0) == Some(Field(v, 2 * Log2(v + 1) + 1))
  {
    var code, bits := UeBits(v), UeBits(v) + after;
    var packed := Bits(Pack(bits));
    PackKeepsBits(bits);
    forall i | 0 <= i < |code|
      ensures packed[i] == code[i]
    {
      assert packed[i] == packed[..|bits|][i] == bits[i];
    }
    UeInPlace(packed, 0, v);
  }

  lemma PayloadOfEncoded(u: NalUnit)
    ensures NalPayload(EncodeNal(u)) == [HeaderByte(u)] + Stuff(u.rbsp, 0)
  {
    assert StartCodeSize(EncodeNal(u), 0) == |StartCode(u.longStartCode)|;
  }

  /** The field read from a framed NAL unit is the one at the front of its raw payload. */
  lemma FieldOfEncoded(u: NalUnit)
    ensures FirstMbInSlice(EncodeNal(u)) == if u.rbsp == [] then None else
              match UeAt(Bits(u.rbsp), 0) case None => None case Some(f) => Some(f.value)
  {
    var ebsp := Stuff(u.rbsp, 0);
    PayloadOfEncoded(u);
    assert ([HeaderByte(u)] + ebsp)[1..] == ebsp;
    if u.rbsp != [] {
      StuffKeepsLast(u.rbsp, 0);
    }
    UnstuffStuff(u.rbsp, 0);
  }

  /**
   The slice field round trip: whatever follows it, writing `ue(v)`, padding to bytes,
   stuffing and framing makes `_first_mb_in_slice` return `v`.
   */
  lemma SliceFieldRoundTrip(long: bool, upper: u3, unitType: u5, v: nat, after: seq<bit>)
    ensures FirstMbInSlice(EncodeNal(NalUnit(long, upper, unitType, Pack(UeBits(v) + after)))) == Some(v)
  {
    var rbsp := Pack(UeBits(v) + after);
    FieldOfEncoded(NalUnit(long, upper, unitType, rbsp));
    PackedFieldRoundTrip(v, after);
  }
}
