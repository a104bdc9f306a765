/** The data bit stream of a QR code in src/web/qrcode.js (section 7.4 of ISO/IEC 18004:2015): the bit
    buffer, the segments, terminator and padding, and a reader of the stream. */
module QrData {
  import opened Basics
  import opened BitStrings

  // ---------- numbers, most significant bit first ----------

  function Msb(n: nat, length: nat): (b: seq<bool>)
    ensures |b| == length
  {
    if length == 0 then [] else Msb(n / 2, length - 1) + [n % 2 == 1]
  }

  function FromMsb(b: seq<bool>): (n: nat)
    ensures n < Pow2(|b|)
  {
    if b == [] then 0 else 2 * FromMsb(b[..|b| - 1]) + (if b[|b| - 1] then 1 else 0)
  }

  lemma {:induction false} FromMsbOf(n: nat, length: nat)
    requires n < Pow2(length)
    ensures FromMsb(Msb(n, length)) == n
  {
    if length == 0 {
    } else {
      FromMsbOf(n / 2, length - 1);
      assert Msb(n, length)[..length - 1] == Msb(n / 2, length - 1);
    }
  }

  lemma {:induction false} MsbOfFrom(b: seq<bool>)
    ensures Msb(FromMsb(b), |b|) == b
  {
    if b == [] {
    } else {
      MsbOfFrom(b[..|b| - 1]);
      assert b == b[..|b| - 1] + [b[|b| - 1]];
    }
  }

  /** Bit i is (n >>> (length - i - 1)) & 1. */
  lemma {:induction false} MsbAt(n: nat, length: nat, i: nat)
    requires i < length
    ensures Msb(n, length)[i] == (Shr(n, length - i - 1) % 2 == 1)
  {
    if i < length - 1 {
      MsbAt(n / 2, length - 1, i);
    }
  }

  lemma {:induction false} MsbZero(length: nat)
    ensures Msb(0, length) == Zeros(length)
  {
    if length == 0 {
    } else {
      MsbZero(length - 1);
    }
  }

  function MsbBytes(bytes: seq<nat>): (b: seq<bool>)
    ensures |b| == 8 * |bytes|
  {
    if bytes == [] then [] else MsbBytes(bytes[..|bytes| - 1]) + Msb(bytes[|bytes| - 1], 8)
  }

  lemma MsbBytesAppend(bytes: seq<nat>, b: nat)
    ensures MsbBytes(bytes + [b]) == MsbBytes(bytes) + Msb(b, 8)
  {
    assert (bytes + [b])[..|bytes|] == bytes;
  }

  // ---------- the bit buffer ----------

  /** b | (0x80 >>> k). */
  function Or80(b: nat, k: nat): nat
    requires k < 8
  {
    FromMsb(Msb(b, 8)[k := true])
  }

  /** The bytes with room for one more bit. */
  function Room(bytes: seq<nat>, length: nat): seq<nat> {
    if |bytes| <= length / 8 then bytes + [0] else bytes
  }

  lemma RoomBits(bytes: seq<nat>, length: nat)
    requires |bytes| == (length + 7) / 8 && forall i :: length <= i < 8 * |bytes| ==> !MsbBytes(bytes)[i]
    ensures var room := Room(bytes, length);
      && |room| == length / 8 + 1
      && MsbBytes(room)[..length] == MsbBytes(bytes)[..length]
      && forall i :: length <= i < 8 * |room| ==> !MsbBytes(room)[i]
  {
    MsbBytesAppend(bytes, 0);
    MsbZero(8);
    hide MsbBytes, Msb;
    if |bytes| <= length / 8 {
      assert length == 8 * |bytes|;
      assert MsbBytes(bytes + [0])[..length] == MsbBytes(bytes);
    }
  }

  /** Setting a bit of the last byte. */
  lemma SetBit(bytes: seq<nat>, k: nat)
    requires bytes != [] && k < 8
    ensures var n := |bytes| - 1; var after := bytes[n := Or80(bytes[n], k)];
      MsbBytes(after) == MsbBytes(bytes)[8 * n + k := true] && after[n] < 256
  {
    var n := |bytes| - 1;
    var after := bytes[n := Or80(bytes[n], k)];
    assert after[..n] == bytes[..n];
    MsbOfFrom(Msb(bytes[n], 8)[k := true]);
    assert Pow2(8) == 256;
  }

  /** What putting a bit does to the bytes. */
  lemma BitPut(bytes: seq<nat>, length: nat, bit: bool)
    requires |bytes| == (length + 7) / 8 && forall i :: length <= i < 8 * |bytes| ==> !MsbBytes(bytes)[i]
    ensures |Room(bytes, length)| == length / 8 + 1
    ensures var room, n := Room(bytes, length), length / 8;
      var after := if bit then room[n := Or80(room[n], length % 8)] else room;
      && MsbBytes(after)[..length + 1] == MsbBytes(bytes)[..length] + [bit]
      && (bit ==> after[n] < 256)
      && forall i :: length + 1 <= i < 8 * |after| ==> !MsbBytes(after)[i]
  {
    hide MsbBytes, Room, Or80;
    RoomBits(bytes, length);
    if bit {
      SetBit(Room(bytes, length), length % 8);
    }
  }

  /** qrBitBuffer. */
  class BitBuffer {
    var buffer: seq<nat>
    var length: nat

    ghost predicate Valid()
      reads this
    {
      && |buffer| == (length + 7) / 8
      && (forall i :: 0 <= i < |buffer| ==> buffer[i] < 256)
      && forall i :: length <= i < 8 * |buffer| ==> !MsbBytes(buffer)[i]
    }

    ghost function Bits(): (b: seq<bool>)
      requires Valid()
      reads this
      ensures |b| == length
    {
      MsbBytes(buffer)[..length]
    }

    /** getBuffer: the bits themselves once the last byte is full. */
    function GetBuffer(): (b: seq<nat>)
      requires Valid()
      reads this
      ensures |b| == (length + 7) / 8 && forall i :: 0 <= i < |b| ==> b[i] < 256
      ensures length % 8 == 0 ==> MsbBytes(b) == Bits()
    {
      buffer
    }

    constructor ()
      ensures Valid() && Bits() == [] && length == 0
    {
      buffer, length := [], 0;
    }

    method PutBit(bit: bool)
      requires Valid()
      modifies this
      ensures Valid() && length == old(length) + 1
      ensures Bits() == old(Bits()) + [bit]
    {
      hide MsbBytes, Or80;
      BitPut(buffer, length, bit);
      var bufIndex := length / 8;
      if |buffer| <= bufIndex {
        buffer := buffer + [0];
      }
      if bit {
        buffer := buffer[bufIndex := Or80(buffer[bufIndex], length % 8)];
      }
      length := length + 1;
    }

    /** The `count` low bits of num. */
    method Put(num: nat, count: nat)
      requires Valid()
      modifies this
      ensures Valid() && length == old(length) + count
      ensures Bits() == old(Bits()) + Msb(num, count)
    {
      for i := 0 to count
        invariant Valid() && length == old(length) + i
        invariant Bits() == old(Bits()) + Msb(num, count)[..i]
      {
        MsbAt(num, count, i);
        PutBit(Shr(num, count - i - 1) % 2 == 1);
      }
    }
  }

  // ---------- the stream ----------

  const MODE_8BIT_BYTE := 4
  const PAD0 := 0xEC
  const PAD1 := 0x11

  /** getLengthInBits for the byte mode. */
  function LengthInBits(typeNumber: nat): nat {
    if 1 <= typeNumber < 10 then 8 else 16
  }

  function Segment(data: Bytes, lengthBits: nat): seq<bool> {
    Msb(MODE_8BIT_BYTE, 4) + Msb(|data|, lengthBits) + MsbBytes(data)
  }

  function Stream(segments: seq<Bytes>, lengthBits: nat): seq<bool> {
    if segments == [] then [] else Segment(segments[0], lengthBits) + Stream(segments[1..], lengthBits)
  }

  lemma {:induction false} StreamAppend(segments: seq<Bytes>, data: Bytes, lengthBits: nat)
    ensures Stream(segments + [data], lengthBits) == Stream(segments, lengthBits) + Segment(data, lengthBits)
  {
    hide Segment;
    if segments == [] {
      assert (segments + [data])[1..] == [];
    } else {
      StreamAppend(segments[1..], data, lengthBits);
      assert (segments + [data])[1..] == segments[1..] + [data];
    }
  }

  method WriteBytes(buffer: BitBuffer, data: Bytes)
    requires buffer.Valid()
    modifies buffer
    ensures buffer.Valid() && buffer.length == old(buffer.length) + 8 * |data|
    ensures buffer.Bits() == old(buffer.Bits()) + MsbBytes(data)
  {
    for i := 0 to |data|
      invariant buffer.Valid() && buffer.length == old(buffer.length) + 8 * i
      invariant buffer.Bits() == old(buffer.Bits()) + MsbBytes(data[..i])
    {
      hide BitBuffer.Valid, BitBuffer.Bits, MsbBytes, Msb;
      MsbBytesAppend(data[..i], data[i]);
      assert data[..i + 1] == data[..i] + [data[i]];
      buffer.Put(data[i], 8);
    }
    assert data[..|data|] == data;
  }

  method WriteSegment(buffer: BitBuffer, data: Bytes, lengthBits: nat)
    requires buffer.Valid()
    modifies buffer
    ensures buffer.Valid()
    ensures buffer.Bits() == old(buffer.Bits()) + Segment(data, lengthBits)
  {
    hide BitBuffer.Valid, BitBuffer.Bits, Msb, MsbBytes;
    buffer.Put(MODE_8BIT_BYTE, 4);
    buffer.Put(|data|, lengthBits);
    WriteBytes(buffer, data);
    Assoc4(old(buffer.Bits()), Msb(MODE_8BIT_BYTE, 4), Msb(|data|, lengthBits), MsbBytes(data));
  }

  /** The segments of a data list, as createData and make write them. */
  method WriteStream(typeNumber: nat, segments: seq<Bytes>) returns (buffer: BitBuffer)
    ensures fresh(buffer) && buffer.Valid() && buffer.Bits() == Stream(segments, LengthInBits(typeNumber))
  {
    buffer := new BitBuffer();
    var l := LengthInBits(typeNumber);
    for i := 0 to |segments|
      invariant fresh(buffer) && buffer.Valid() && buffer.Bits() == Stream(segments[..i], l)
    {
      hide BitBuffer.Valid, BitBuffer.Bits, Stream, Segment, LengthInBits;
      StreamAppend(segments[..i], segments[i], l);
      assert segments[..i + 1] == segments[..i] + [segments[i]];
      WriteSegment(buffer, segments[i], l);
    }
    assert segments[..|segments|] == segments;
  }

  // ---------- terminator and padding ----------

  function Terminated(bits: seq<bool>, total: nat): seq<bool> {
    if |bits| + 4 <= 8 * total then bits + Zeros(4) else bits
  }

  function Aligned(bits: seq<bool>): seq<bool> {
    bits + Zeros(PadTo8(|bits|))
  }

  function PadBytes(n: nat): seq<nat> {
    seq(n, i => if i % 2 == 0 then PAD0 else PAD1)
  }

  /** The data codewords, as bits, for a stream that fits. */
  function Padded(bits: seq<bool>, total: nat): seq<bool>
    requires |bits| <= 8 * total
  {
    var start := Aligned(Terminated(bits, total));
    start + MsbBytes(PadBytes(total - |start| / 8))
  }

  lemma FilledUp(m: nat, total: nat)
    requires m <= 8 * total
    ensures (m + PadTo8(m)) % 8 == 0 && m + PadTo8(m) <= 8 * total
  {
  }

  lemma PaddedLength(bits: seq<bool>, total: nat)
    requires |bits| <= 8 * total
    ensures var start := Aligned(Terminated(bits, total));
      |start| % 8 == 0 && |start| <= 8 * total && |Padded(bits, total)| == 8 * total
  {
    var t := Terminated(bits, total);
    FilledUp(|t|, total);
    hide PadTo8, MsbBytes, Terminated;
  }

  lemma OnePad(n: nat)
    ensures PadBytes(n) + [if n % 2 == 0 then PAD0 else PAD1] == PadBytes(n + 1)
  {
  }

  lemma PadProgress(m: nat, n: nat)
    requires n <= PadTo8(m)
    ensures if (m + n) % 8 == 0 then n == PadTo8(m) else n + 1 <= PadTo8(m)
  {
  }

  method AlignBuffer(buffer: BitBuffer)
    requires buffer.Valid()
    modifies buffer
    ensures buffer.Valid() && buffer.Bits() == Aligned(old(buffer.Bits()))
  {
    hide BitBuffer.Valid, BitBuffer.Bits, PadTo8;
    ghost var bits := buffer.Bits();
    ghost var n: nat := 0;
    assert bits + Zeros(0) == bits;
    while buffer.length % 8 != 0
      invariant buffer.Valid() && buffer.length == |bits| + n && n <= PadTo8(|bits|)
      invariant buffer.Bits() == bits + Zeros(n)
      decreases PadTo8(|bits|) - n
    {
      PadProgress(|bits|, n);
      assert Zeros(n) + [false] == Zeros(n + 1);
      buffer.PutBit(false);
      n := n + 1;
    }
    PadProgress(|bits|, n);
  }

  method Terminate(buffer: BitBuffer, total: nat)
    requires buffer.Valid() && buffer.length <= 8 * total
    modifies buffer
    ensures buffer.Valid() && buffer.Bits() == Aligned(Terminated(old(buffer.Bits()), total))
  {
    hide BitBuffer.Valid, BitBuffer.Bits, Aligned, Msb;
    MsbZero(4);
    if buffer.length + 4 <= total * 8 {
      buffer.Put(0, 4);
    }
    AlignBuffer(buffer);
  }

  lemma NoPads(bits: seq<bool>)
    ensures bits + MsbBytes(PadBytes(0)) == bits
  {
  }

  lemma PadStep(bits: seq<bool>, n: nat)
    ensures bits + MsbBytes(PadBytes(n + 1)) == bits + MsbBytes(PadBytes(n)) + Msb(if n % 2 == 0 then PAD0 else PAD1, 8)
  {
    OnePad(n);
    MsbBytesAppend(PadBytes(n), if n % 2 == 0 then PAD0 else PAD1);
    hide MsbBytes, Msb, PadBytes;
  }

  method Pad(buffer: BitBuffer, total: nat)
    requires buffer.Valid() && buffer.length % 8 == 0 && buffer.length <= 8 * total
    modifies buffer
    ensures buffer.Valid() && buffer.length == 8 * total
    ensures buffer.Bits() == old(buffer.Bits()) + MsbBytes(PadBytes(total - old(buffer.length) / 8))
  {
    hide BitBuffer.Valid, BitBuffer.Bits, MsbBytes, Msb, PadBytes;
    ghost var n: nat := 0;
    ghost var start := buffer.length;
    ghost var bits := buffer.Bits();
    NoPads(bits);
    while true
      invariant buffer.Valid() && n % 2 == 0 && buffer.length == start + 8 * n <= 8 * total
      invariant buffer.Bits() == bits + MsbBytes(PadBytes(n))
      decreases 8 * total - buffer.length
    {
      if buffer.length >= total * 8 {
        break;
      }
      PadStep(bits, n);
      buffer.Put(PAD0, 8);
      n := n + 1;
      if buffer.length >= total * 8 {
        break;
      }
      PadStep(bits, n);
      buffer.Put(PAD1, 8);
      n := n + 1;
    }
  }

  /** The first half of createData: the overflow is thrown exactly for a stream that does not fit, and
      otherwise there are exactly `total` data codewords. */
  method CreateCodewords(typeNumber: nat, segments: seq<Bytes>, total: nat) returns (r: Result<seq<nat>>)
    ensures var bits := Stream(segments, LengthInBits(typeNumber));
      && (r.Ok? <==> |bits| <= 8 * total)
      && (r.Ok? ==> |r.value| == total && MsbBytes(r.value) == Padded(bits, total))
    ensures r.Ok? ==> forall i :: 0 <= i < |r.value| ==> r.value[i] < 256
  {
    hide Stream, LengthInBits, Terminated, Aligned, PadBytes, BitBuffer.Valid, BitBuffer.Bits, BitBuffer.GetBuffer, MsbBytes;
    var buffer := WriteStream(typeNumber, segments);
    if buffer.length > total * 8 {
      return Thrown;
    }
    PaddedLength(buffer.Bits(), total);
    Terminate(buffer, total);
    Pad(buffer, total);
    r := Ok(buffer.GetBuffer());
  }

  // ---------- reading the stream ----------

  function ByteOf(bits: seq<bool>): byte
    requires |bits| == 8
  {
    assert Pow2(8) == 256;
    FromMsb(bits)
  }

  function BytesOf(bits: seq<bool>, n: nat): Bytes
    requires |bits| == 8 * n
  {
    if n == 0 then [] else BytesOf(bits[..8 * (n - 1)], n - 1) + [ByteOf(bits[8 * (n - 1)..])]
  }

  /** Segments up to a terminator, or up to fewer than four bits. */
  function ReadSegments(bits: seq<bool>, lengthBits: nat): Option<seq<Bytes>>
    decreases |bits|
  {
    if |bits| < 4 then Some([])
    else
      var mode := FromMsb(bits[..4]);
      if mode == 0 then Some([])
      else if mode != MODE_8BIT_BYTE || |bits| < 4 + lengthBits then None
      else
        var n := FromMsb(bits[4..4 + lengthBits]);
        var at := 4 + lengthBits;
        if |bits| < at + 8 * n then None
        else
          match ReadSegments(bits[at + 8 * n..], lengthBits)
          case None => None
          case Some(rest) => Some([BytesOf(bits[at..at + 8 * n], n)] + rest)
  }

  lemma LastByte(bytes: Bytes)
    requires bytes != []
    ensures var n, bits := |bytes| - 1, MsbBytes(bytes);
      bits[..8 * n] == MsbBytes(bytes[..n]) && ByteOf(bits[8 * n..]) == bytes[n]
  {
    var n := |bytes| - 1;
    assert Pow2(8) == 256;
    FromMsbOf(bytes[n], 8);
    assert MsbBytes(bytes)[8 * n..] == Msb(bytes[n], 8);
  }

  lemma {:induction false} BytesOfBits(bytes: Bytes)
    ensures BytesOf(MsbBytes(bytes), |bytes|) == bytes
  {
    if bytes == [] {
    } else {
      var n := |bytes| - 1;
      BytesOfBits(bytes[..n]);
      LastByte(bytes);
      hide MsbBytes, ByteOf;
      assert bytes == bytes[..n] + [bytes[n]];
    }
  }

  /** What ends a stream: fewer than four bits, or a terminator. */
  ghost predicate EndsStream(tail: seq<bool>) {
    |tail| < 4 || tail[..4] == Zeros(4)
  }

  lemma Slices(a: seq<bool>, b: seq<bool>, c: seq<bool>, d: seq<bool>)
    ensures var s := a + b + c + d; var i := |a| + |b|;
      s[..|a|] == a && s[|a|..i] == b && s[i..i + |c|] == c && s[i + |c|..] == d
  {
  }

  /** One segment off the front of the bits. */
  lemma ReadOne(data: Bytes, rest: seq<bool>, lengthBits: nat)
    requires |data| < Pow2(lengthBits)
    ensures var more := ReadSegments(rest, lengthBits);
      ReadSegments(Segment(data, lengthBits) + rest, lengthBits) ==
        if more.None? then None else Some([data] + more.value)
  {
    var head, length, body := Msb(MODE_8BIT_BYTE, 4), Msb(|data|, lengthBits), MsbBytes(data);
    var bits := Segment(data, lengthBits) + rest;
    assert Pow2(4) == 16;
    FromMsbOf(MODE_8BIT_BYTE, 4);
    FromMsbOf(|data|, lengthBits);
    BytesOfBits(data);
    hide Msb, FromMsb, MsbBytes, BytesOf;
    Slices(head, length, body, rest);
  }

  lemma ZeroMode(tail: seq<bool>)
    requires |tail| >= 4 && tail[..4] == Zeros(4)
    ensures FromMsb(tail[..4]) == 0
  {
    MsbZero(4);
    FromMsbOf(0, 4);
  }

  lemma {:induction false} ReadStream(segments: seq<Bytes>, tail: seq<bool>, lengthBits: nat)
    requires forall i :: 0 <= i < |segments| ==> |segments[i]| < Pow2(lengthBits)
    requires EndsStream(tail)
    ensures ReadSegments(Stream(segments, lengthBits) + tail, lengthBits) == Some(segments)
  {
    if segments == [] {
      assert [] + tail == tail;
      if |tail| >= 4 {
        ZeroMode(tail);
      }
    } else {
      hide ReadSegments, Segment;
      ReadStream(segments[1..], tail, lengthBits);
      ReadOne(segments[0], Stream(segments[1..], lengthBits) + tail, lengthBits);
      assert Segment(segments[0], lengthBits) + (Stream(segments[1..], lengthBits) + tail)
          == Stream(segments, lengthBits) + tail;
      assert [segments[0]] + segments[1..] == segments;
    }
  }

  lemma SegmentLength(data: Bytes, lengthBits: nat)
    ensures |Segment(data, lengthBits)| == 4 + lengthBits + 8 * |data|
  {
  }

  /** A stream that fits has no segment too long for its length field, as long as the codewords of a
      version do not outnumber what the field can count. */
  lemma {:induction false} LengthsFit(segments: seq<Bytes>, lengthBits: nat, total: nat, i: nat)
    requires |Stream(segments, lengthBits)| <= 8 * total && i < |segments|
    ensures |segments[i]| < total
  {
    hide Segment;
    SegmentLength(segments[0], lengthBits);
    if i == 0 {
    } else {
      LengthsFit(segments[1..], lengthBits, total, i - 1);
    }
  }

  lemma PaddedEnds(bits: seq<bool>, total: nat)
    requires |bits| <= 8 * total
    ensures bits <= Padded(bits, total) && EndsStream(Padded(bits, total)[|bits|..])
  {
    hide MsbBytes, PadBytes;
    var all := Padded(bits, total);
    PaddedLength(bits, total);
    if |bits| + 4 <= 8 * total {
      assert all[|bits|..][..4] == Zeros(4);
    }
  }

  lemma FieldSizes()
    ensures Pow2(8) == 256 && Pow2(16) == 65536
  {
    assert Pow2(8) == 256;
    Pow2Add(8, 8);
  }

  lemma AddedTail(a: seq<bool>, b: seq<bool>)
    requires a <= b
    ensures b == a + b[|a|..]
  {
  }

  lemma AllFit(segments: seq<Bytes>, typeNumber: nat, total: nat)
    requires 1 <= typeNumber <= 40 && total <= (if typeNumber < 10 then 256 else 65536)
    requires |Stream(segments, LengthInBits(typeNumber))| <= 8 * total
    ensures forall i :: 0 <= i < |segments| ==> |segments[i]| < Pow2(LengthInBits(typeNumber))
  {
    FieldSizes();
    hide Stream, Pow2;
    forall i | 0 <= i < |segments| ensures |segments[i]| < Pow2(LengthInBits(typeNumber)) {
      LengthsFit(segments, LengthInBits(typeNumber), total, i);
    }
  }

  /** Every data list that fits is read back from the data codewords, segment by segment: mode, length
      and bytes. The bounds on the number of codewords are those of the block table. */
  lemma ReadBack(typeNumber: nat, segments: seq<Bytes>, total: nat, codewords: seq<nat>)
    requires 1 <= typeNumber <= 40 && total <= (if typeNumber < 10 then 256 else 65536)
    requires var bits := Stream(segments, LengthInBits(typeNumber));
      |bits| <= 8 * total && MsbBytes(codewords) == Padded(bits, total)
    ensures ReadSegments(MsbBytes(codewords), LengthInBits(typeNumber)) == Some(segments)
  {
    var l := LengthInBits(typeNumber);
    var bits := Stream(segments, l);
    AllFit(segments, typeNumber, total);
    PaddedEnds(bits, total);
    hide *;
    AddedTail(bits, Padded(bits, total));
    ReadStream(segments, Padded(bits, total)[|bits|..], l);
  }

  // ---------- the stream, bit by bit ----------

  lemma ModeBits()
    ensures Msb(MODE_8BIT_BYTE, 4) == [false, true, false, false]
  {
    assert Msb(0, 1) == [false];
    assert Msb(1, 2) == [false, true];
    assert Msb(2, 3) == [false, true, false];
  }

  /** A segment starts with the indicator 0100 of byte mode and an 8-bit length up to version 9, a 16-bit one
      from version 10 on (tables 2 and 3 of the standard). */
  lemma SegmentFormat(data: Bytes, typeNumber: nat)
    requires 1 <= typeNumber <= 40
    ensures Segment(data, LengthInBits(typeNumber))
      == [false, true, false, false] + Msb(|data|, if typeNumber <= 9 then 8 else 16) + MsbBytes(data)
  {
    ModeBits();
    hide Msb, MsbBytes;
  }

  /** The pad codewords 11101100 and 00010001, one after the other (section 7.4.10 of the standard). */
  const PADS: seq<bool> := [true, true, true, false, true, true, false, false,
                            false, false, false, true, false, false, false, true]

  lemma PadBits(k: nat)
    requires k < 8
    ensures Msb(PAD0, 8)[k] == PADS[k] && Msb(PAD1, 8)[k] == PADS[8 + k]
  {
    MsbAt(PAD0, 8, k);
    MsbAt(PAD1, 8, k);
  }

  lemma PadIndex(m: nat, k: nat)
    requires 8 * m <= k < 8 * m + 8
    ensures k % 16 == if m % 2 == 0 then k - 8 * m else 8 + k - 8 * m
  {
    var h := m / 2;
    assert k == 16 * h + (k - 16 * h);
  }

  /** Bit k of the pad codewords. */
  function PadPicture(k: nat): bool {
    PADS[k % 16]
  }

  function PadByte(m: nat): nat {
    if m % 2 == 0 then PAD0 else PAD1
  }

  lemma PadPictureAt(m: nat, k: nat)
    requires 8 * m <= k < 8 * m + 8
    ensures Msb(PadByte(m), 8)[k - 8 * m] == PadPicture(k)
  {
    PadBits(k - 8 * m);
    PadIndex(m, k);
    hide Msb;
  }

  lemma LastPad(n: nat)
    requires n > 0
    ensures MsbBytes(PadBytes(n)) == MsbBytes(PadBytes(n - 1)) + Msb(PadByte(n - 1), 8)
  {
    hide Msb, MsbBytes, PadBytes;
    OnePad(n - 1);
    MsbBytesAppend(PadBytes(n - 1), PadByte(n - 1));
  }

  lemma PadSize(n: nat)
    ensures |PadBytes(n)| == n
  {
  }

  lemma {:induction false} PadPlaces(n: nat, k: nat)
    requires |PadBytes(n)| == n && k < 8 * n
    ensures MsbBytes(PadBytes(n))[k] == PadPicture(k)
  {
    LastPad(n);
    PadSize(n - 1);
    hide Msb, MsbBytes, PadBytes, PadPicture, PadByte;
    if k < 8 * (n - 1) {
      PadPlaces(n - 1, k);
    } else {
      PadPictureAt(n - 1, k);
    }
  }

  /** Where the pad codewords start: behind the terminator and the zeros up to a byte, if there is room for it. */
  function PadStart(length: nat, total: nat): nat {
    if length + 4 <= 8 * total then (length + 4 + 7) / 8 * 8 else 8 * total
  }

  lemma AlignedSize(m: nat, total: nat)
    requires m <= 8 * total
    ensures m + PadTo8(m) == (m + 7) / 8 * 8
    ensures m + 4 > 8 * total ==> (m + 7) / 8 * 8 == 8 * total
  {
  }

  lemma TerminatedSize(bits: seq<bool>, total: nat)
    requires |bits| <= 8 * total
    ensures |Terminated(bits, total)| == if |bits| + 4 <= 8 * total then |bits| + 4 else |bits|
  {
  }

  lemma PadStartIs(bits: seq<bool>, total: nat)
    requires |bits| <= 8 * total
    ensures var start := Aligned(Terminated(bits, total)); |start| == PadStart(|bits|, total)
    ensures PadStart(|bits|, total) % 8 == 0
  {
    TerminatedSize(bits, total);
    var m := |Terminated(bits, total)|;
    hide PadTo8, Terminated;
    AlignedSize(m, total);
  }

  /** Every bit of the data codewords: the stream, zeros, and the pad codewords in turn. */
  lemma PaddedPlaces(bits: seq<bool>, total: nat, k: nat)
    requires |bits| <= 8 * total && k < 8 * total
    ensures |Padded(bits, total)| == 8 * total
    ensures Padded(bits, total)[k] ==
      if k < |bits| then bits[k] else if k < PadStart(|bits|, total) then false
      else PadPicture(k - PadStart(|bits|, total))
  {
    PaddedLength(bits, total);
    PadStartIs(bits, total);
    var start := Aligned(Terminated(bits, total));
    hide PadStart, PadTo8, PadPicture;
    PadSize(total - |start| / 8);
    if k >= |start| {
      PadPlaces(total - |start| / 8, k - |start|);
    }
    hide MsbBytes, PadBytes;
  }
}
