/** The base64 streams of src/web/qrcode.js (section 4 of RFC 4648): bits regrouped from eights to sixes
    and back. */
module Base64 {
  import opened Basics
  import opened BitStrings
  import opened QrData

  type Sextet = n: nat | n < 64

  // ---------- the alphabet ----------

  function EncodeChar(n: Sextet): char {
    if n < 26 then (0x41 + n) as char
    else if n < 52 then (0x61 + (n - 26)) as char
    else if n < 62 then (0x30 + (n - 52)) as char
    else if n == 62 then '+'
    else '/'
  }

  function DecodeChar(c: char): Option<Sextet> {
    if 'A' <= c <= 'Z' then Some(c as int - 0x41)
    else if 'a' <= c <= 'z' then Some(c as int - 0x61 + 26)
    else if '0' <= c <= '9' then Some(c as int - 0x30 + 52)
    else if c == '+' then Some(62)
    else if c == '/' then Some(63)
    else None
  }

  /** The white space of a JavaScript regular expression. */
  predicate IsSpace(c: char) {
    var n := c as int;
    9 <= n <= 13 || n in {0x20, 0xA0, 0x1680, 0x2028, 0x2029, 0x202F, 0x205F, 0x3000, 0xFEFF} || 0x2000 <= n <= 0x200A
  }

  lemma AlphabetRoundTrip(n: Sextet)
    ensures DecodeChar(EncodeChar(n)) == Some(n)
    ensures EncodeChar(n) != '=' && !IsSpace(EncodeChar(n))
  {
  }

  // ---------- the text of a byte sequence ----------

  function SixBits(bits: seq<bool>): (n: Sextet)
    requires |bits| == 6
  {
    assert Pow2(6) == 64;
    FromMsb(bits)
  }

  /** Six bits a character, the last group filled up with zeros. */
  function Text(bits: seq<bool>): string {
    if bits == [] then []
    else if |bits| < 6 then [EncodeChar(SixBits(bits + Zeros(6 - |bits|)))]
    else [EncodeChar(SixBits(bits[..6]))] + Text(bits[6..])
  }

  function Padding(n: nat): (p: string)
    ensures |p| <= 2 && forall c :: c in p ==> c == '='
  {
    seq((3 - n % 3) % 3, _ => '=')
  }

  function Encoded(bytes: seq<nat>): string {
    Text(MsbBytes(bytes)) + Padding(|bytes|)
  }

  // ---------- shifts, most significant bit first ----------

  lemma {:induction false} MsbShift(x: nat, k: nat, n: nat, c: nat)
    requires n < Pow2(c)
    ensures Msb(Shl(x, c) + n, k + c) == Msb(x, k) + Msb(n, c)
  {
    if c == 0 {
    } else {
      MsbShift(x, k, n / 2, c - 1);
      assert (Shl(x, c) + n) / 2 == Shl(x, c - 1) + n / 2;
      assert (Shl(x, c) + n) % 2 == n % 2;
      assert Msb(x, k) + (Msb(n / 2, c - 1) + [n % 2 == 1]) == Msb(x, k) + Msb(n / 2, c - 1) + [n % 2 == 1];
    }
  }

  lemma {:induction false} MsbSplit(x: nat, a: nat, b: nat)
    ensures Msb(x, a + b) == Msb(Shr(x, b), a) + Msb(x, b)
  {
    if b == 0 {
    } else {
      MsbSplit(x / 2, a, b - 1);
      assert Msb(Shr(x, b), a) + (Msb(x / 2, b - 1) + [x % 2 == 1]) == Msb(Shr(x, b), a) + Msb(x / 2, b - 1) + [x % 2 == 1];
    }
  }

  lemma {:induction false} MsbLow(x: nat, k: nat, m: nat)
    requires k <= m
    ensures Msb(Low(x, m), k) == Msb(x, k)
  {
    if k == 0 {
    } else {
      MsbLow(x / 2, k - 1, m - 1);
      assert Low(x, m) / 2 == Low(x / 2, m - 1) && Low(x, m) % 2 == x % 2;
    }
  }

  /** (buffer << count) | n, in 32 bits. */
  function ShiftIn(buffer: nat, count: nat, n: nat): nat {
    Low(Shl(buffer, count) + n, 32)
  }

  lemma ShiftInBits(buffer: nat, k: nat, count: nat, n: nat)
    requires n < Pow2(count) && k + count <= 32
    ensures Msb(ShiftIn(buffer, count, n), k + count) == Msb(buffer, k) + Msb(n, count)
  {
    MsbShift(buffer, k, n, count);
    MsbLow(Shl(buffer, count) + n, k + count, 32);
  }

  /** b & 0x3f. */
  function Low6(b: nat): Sextet {
    assert Pow2(6) == 64;
    Low(b, 6)
  }

  lemma Low6Is(b: nat)
    ensures SixBits(Msb(b, 6)) == Low6(b)
  {
    MsbLow(b, 6, 6);
    FromMsbOf(Low(b, 6), 6);
  }

  lemma TextFront(bits: seq<bool>)
    requires |bits| >= 6
    ensures Text(bits) == [EncodeChar(SixBits(bits[..6]))] + Text(bits[6..])
  {
  }

  lemma SixMore(a: seq<bool>, b: seq<bool>)
    requires a != [] && |a| % 6 == 0
    ensures |a| >= 6 && |a[6..]| % 6 == 0 && (a + b)[..6] == a[..6] && (a + b)[6..] == a[6..] + b
  {
  }

  lemma NoText(b: seq<bool>)
    ensures Text([]) + Text(b) == Text(b) && [] + b == b
  {
  }

  lemma {:induction false} TextAppend(a: seq<bool>, b: seq<bool>)
    requires |a| % 6 == 0
    ensures Text(a + b) == Text(a) + Text(b)
  {
    hide Text, SixBits, EncodeChar;
    if a == [] {
      NoText(b);
    } else {
      SixMore(a, b);
      TextAppend(a[6..], b);
      TextFront(a);
      TextFront(a + b);
      Assoc([EncodeChar(SixBits(a[..6]))], Text(a[6..]), Text(b));
    }
  }

  lemma OneGroup(bits: seq<bool>)
    requires |bits| == 6
    ensures Text(bits) == [EncodeChar(SixBits(bits))]
  {
    assert bits[..6] == bits && bits[6..] == [];
  }

  // ---------- the encoder ----------

  lemma TakenBits(buffer: nat, buflen: nat, n: byte, bytes: seq<nat>, sent: seq<bool>)
    requires buflen < 6 && sent + Msb(buffer, buflen) == MsbBytes(bytes)
    ensures sent + Msb(ShiftIn(buffer, 8, n), buflen + 8) == MsbBytes(bytes + [n])
  {
    assert Pow2(8) == 256;
    hide *;
    ShiftInBits(buffer, buflen, 8, n);
    MsbBytesAppend(bytes, n);
    Assoc(sent, Msb(buffer, buflen), Msb(n, 8));
  }

  lemma LastGroup(buffer: nat, k: nat)
    requires 0 < k < 6
    ensures Text(Msb(buffer, k)) == [EncodeChar(Low6(Shl(buffer, 6 - k)))]
  {
    MsbShift(buffer, k, 0, 6 - k);
    MsbZero(6 - k);
    Low6Is(Shl(buffer, 6 - k));
    hide Msb, Low6, SixBits, EncodeChar, Shl;
  }

  lemma NoGroup(buffer: nat)
    ensures Text(Msb(buffer, 0)) == []
  {
  }

  class Base64EncodeOutputStream {
    var buffer: nat
    var buflen: nat
    var length: nat
    var base64: string
    /** The bytes taken so far, and those of their bits that are written. */
    ghost var bytes: seq<nat>
    ghost var sent: seq<bool>

    ghost predicate Holds()
      reads this
    {
      && buflen < 14 && length == |bytes| && |sent| % 6 == 0
      && sent + Msb(buffer, buflen) == MsbBytes(bytes) && base64 == Text(sent)
    }

    constructor ()
      ensures Holds() && buflen < 6 && bytes == []
    {
      buffer, buflen, length, base64 := 0, 0, 0, "";
      bytes, sent := [], [];
    }

    /** One group of six bits. */
    method WriteGroup()
      requires Holds() && buflen >= 6
      modifies this
      ensures Holds() && buflen == old(buflen) - 6 && bytes == old(bytes)
    {
      hide Msb, Text, Shr, MsbBytes, SixBits, Low6;
      ghost var group := Msb(Shr(buffer, buflen - 6), 6);
      MsbSplit(buffer, 6, buflen - 6);
      Low6Is(Shr(buffer, buflen - 6));
      TextAppend(sent, group);
      OneGroup(group);
      Assoc(sent, group, Msb(buffer, buflen - 6));
      base64 := base64 + [EncodeChar(Low6(Shr(buffer, buflen - 6)))];
      sent := sent + group;
      buflen := buflen - 6;
    }

    method TakeByte(n: byte)
      requires Holds() && buflen < 6
      modifies this
      ensures Holds() && bytes == old(bytes) + [n]
    {
      TakenBits(buffer, buflen, n, bytes, sent);
      hide Msb, Text, MsbBytes, ShiftIn;
      buffer := ShiftIn(buffer, 8, n);
      buflen := buflen + 8;
      length := length + 1;
      bytes := bytes + [n];
    }

    method WriteByte(n: byte)
      requires Holds() && buflen < 6
      modifies this
      ensures Holds() && buflen < 6 && bytes == old(bytes) + [n]
    {
      TakeByte(n);
      hide Holds;
      while buflen >= 6
        invariant Holds() && bytes == old(bytes) + [n]
        decreases buflen
      {
        WriteGroup();
      }
    }

    /** The bits that wait, filled up with zeros. */
    method FlushBits()
      requires Holds() && buflen < 6
      modifies this
      ensures base64 == Text(MsbBytes(bytes)) && bytes == old(bytes) && length == |bytes|
    {
      hide Msb, Text, MsbBytes, Shl, Low6, SixBits, EncodeChar;
      TextAppend(sent, Msb(buffer, buflen));
      if buflen > 0 {
        LastGroup(buffer, buflen);
        base64 := base64 + [EncodeChar(Low6(Shl(buffer, 6 - buflen)))];
        buffer := 0;
        buflen := 0;
      } else {
        NoGroup(buffer);
        assert base64 + [] == base64;
      }
    }

    method Flush()
      requires Holds() && buflen < 6
      modifies this
      ensures base64 == Encoded(old(bytes))
    {
      hide Msb, Text, MsbBytes;
      FlushBits();
      ghost var text := base64;
      if length % 3 != 0 {
        var padlen := 3 - length % 3;
        for i := 0 to padlen
          invariant base64 == text + seq(i, _ => '=')
        {
          base64 := base64 + "=";
        }
      } else {
        assert base64 + [] == base64;
      }
    }
  }

  /** The loop over the bytes of an image. */
  method EncodeAll(data: Bytes) returns (text: string)
    ensures text == Encoded(data)
  {
    var out := new Base64EncodeOutputStream();
    for i := 0 to |data|
      invariant fresh(out) && out.Holds() && out.buflen < 6 && out.bytes == data[..i]
    {
      hide *;
      assert data[..i + 1] == data[..i] + [data[i]];
      out.WriteByte(data[i]);
    }
    assert data[..|data|] == data;
    out.Flush();
    text := out.base64;
  }

  // ---------- the decoder ----------

  /** What is still to be read from the rest of the text and the bits at hand; None where it throws. */
  function Decoded(str: string, bits: seq<bool>): Option<Bytes>
    decreases |str|, |bits|
  {
    if |bits| >= 8 then
      match Decoded(str, bits[8..])
      case None => None
      case Some(rest) => Some([ByteOf(bits[..8])] + rest)
    else if str == [] then if bits == [] then Some([]) else None
    else if str[0] == '=' then Some([])
    else if IsSpace(str[0]) then Decoded(str[1..], bits)
    else
      match DecodeChar(str[0])
      case None => None
      case Some(n) => Decoded(str[1..], bits + Msb(n, 6))
  }

  lemma DecodedByte(str: string, bits: seq<bool>)
    requires |bits| >= 8
    ensures var rest := Decoded(str, bits[8..]);
      Decoded(str, bits) == if rest.None? then None else Some([ByteOf(bits[..8])] + rest.value)
  {
  }

  /** One character of the text, when fewer than eight bits are at hand. */
  lemma DecodedChar(str: string, bits: seq<bool>)
    requires |bits| < 8
    ensures Decoded(str, bits) ==
      if str == [] then if bits == [] then Some([]) else None
      else if str[0] == '=' then Some([])
      else if IsSpace(str[0]) then Decoded(str[1..], bits)
      else if DecodeChar(str[0]).None? then None
      else Decoded(str[1..], bits + Msb(DecodeChar(str[0]).value, 6))
  {
  }

  lemma NoBits(buffer: nat)
    ensures Msb(buffer, 0) == []
  {
  }

  lemma SextetFits(n: Sextet)
    ensures n < Pow2(6)
  {
    assert Pow2(6) == 64;
  }

  function Low8(b: nat): byte {
    assert Pow2(8) == 256;
    Low(b, 8)
  }

  lemma TopByte(buffer: nat, k: nat)
    requires k >= 8
    ensures ByteOf(Msb(buffer, k)[..8]) == Low8(Shr(buffer, k - 8))
    ensures Msb(buffer, k)[8..] == Msb(buffer, k - 8)
  {
    MsbSplit(buffer, 8, k - 8);
    var top := Shr(buffer, k - 8);
    MsbLow(top, 8, 8);
    FromMsbOf(Low(top, 8), 8);
    hide Msb, Low, Shr;
  }

  /** One call of read on the rest of the text and the bits at hand: its result, and what it leaves. */
  datatype Reading = Reading(result: Result<int>, text: string, bits: seq<bool>)

  function ReadStep(text: string, bits: seq<bool>): Reading {
    if |bits| >= 8 then Reading(Ok(ByteOf(bits[..8])), text, bits[8..])
    else if text == [] then Reading(if bits == [] then Ok(-1) else Thrown, text, bits)
    else if text[0] == '=' then Reading(Ok(-1), text[1..], [])
    else if IsSpace(text[0]) then ReadStep(text[1..], bits)
    else
      match DecodeChar(text[0])
      case None => Reading(Thrown, text[1..], bits)
      case Some(n) => ReadStep(text[1..], bits + Msb(n, 6))
  }

  /** One character of the text, when fewer than eight bits are at hand. */
  lemma ReadChar(text: string, bits: seq<bool>)
    requires |bits| < 8
    ensures ReadStep(text, bits) ==
      if text == [] then Reading(if bits == [] then Ok(-1) else Thrown, text, bits)
      else if text[0] == '=' then Reading(Ok(-1), text[1..], [])
      else if IsSpace(text[0]) then ReadStep(text[1..], bits)
      else if DecodeChar(text[0]).None? then Reading(Thrown, text[1..], bits)
      else ReadStep(text[1..], bits + Msb(DecodeChar(text[0]).value, 6))
  {
  }

  /** What is still to be read is the next result and what is to be read after it. */
  lemma {:induction false} StepDecodes(text: string, bits: seq<bool>)
    ensures var s, whole := ReadStep(text, bits), Decoded(text, bits);
      match s.result
      case Thrown => whole == None
      case Ok(b) =>
        if b == -1 then whole == Some([])
        else
          && 0 <= b < 256
          && var rest := Decoded(s.text, s.bits); whole == if rest.None? then None else Some([b] + rest.value)
    decreases |text|
  {
    hide Msb, DecodeChar, IsSpace, ByteOf;
    if |bits| >= 8 {
      DecodedByte(text, bits);
    } else {
      DecodedChar(text, bits);
      ReadChar(text, bits);
      hide Decoded, ReadStep;
      if text == [] || text[0] == '=' {
      } else if IsSpace(text[0]) {
        StepDecodes(text[1..], bits);
      } else if DecodeChar(text[0]).Some? {
        StepDecodes(text[1..], bits + Msb(DecodeChar(text[0]).value, 6));
      }
    }
  }

  class Base64DecodeInputStream {
    const str: string
    var pos: nat
    var buffer: nat
    var buflen: nat

    ghost predicate Valid()
      reads this
    {
      pos <= |str| && buflen < 14
    }

    /** What the next call of read does. */
    ghost function Coming(): Reading
      requires Valid()
      reads this
    {
      ReadStep(str[pos..], Msb(buffer, buflen))
    }

    /** What the coming calls of read return, up to the end. */
    ghost function Rest(): Option<Bytes>
      requires Valid()
      reads this
    {
      Decoded(str[pos..], Msb(buffer, buflen))
    }

    constructor (str: string)
      ensures Valid() && buflen < 8 && Rest() == Decoded(str, [])
      ensures this.str == str && pos == 0
    {
      this.str, pos, buffer, buflen := str, 0, 0, 0;
      new;
      assert str[0..] == str;
    }

    /** The loop that takes characters until eight bits are at hand: false at the end of the data. */
    method Fill() returns (r: Result<bool>)
      requires Valid() && buflen < 8
      modifies this
      ensures Valid() && pos >= old(pos) && (r != Ok(true) ==> buflen < 8)
      ensures r == Ok(true) ==> buflen >= 8 && pos > old(pos) && Coming() == old(Coming())
      ensures r != Ok(true) ==>
        old(Coming()) == Reading(if r.Thrown? then Thrown else Ok(-1), str[pos..], Msb(buffer, buflen))
    {
      hide ReadStep, Msb, IsSpace, DecodeChar, ShiftIn;
      while buflen < 8
        invariant Valid() && old(pos) <= pos && Coming() == old(Coming())
        invariant buflen >= 8 ==> pos > old(pos)
        decreases |str| - pos
      {
        ReadChar(str[pos..], Msb(buffer, buflen));
        if pos >= |str| {
          if buflen == 0 {
            NoBits(buffer);
            return Ok(false);
          }
          return Thrown;
        }
        var c := str[pos];
        assert str[pos..][1..] == str[pos + 1..];
        pos := pos + 1;
        if c == '=' {
          buflen := 0;
          NoBits(buffer);
          return Ok(false);
        } else if IsSpace(c) {
          continue;
        }
        var n := DecodeChar(c);
        if n.None? {
          return Thrown;
        }
        SextetFits(n.value);
        ShiftInBits(buffer, buflen, 6, n.value);
        buffer := ShiftIn(buffer, 6, n.value);
        buflen := buflen + 6;
      }
      r := Ok(true);
    }

    /** One byte, or -1 at the end, and what the next call starts from. */
    method Read() returns (r: Result<int>)
      requires Valid() && buflen < 8
      modifies this
      ensures Valid() && buflen < 8 && pos >= old(pos) && (r.Ok? && r.value >= 0 ==> pos > old(pos))
      ensures old(Coming()) == Reading(r, str[pos..], Msb(buffer, buflen))
      ensures r == Thrown ==> old(Rest()) == None
      ensures r.Ok? ==> -1 <= r.value < 256
      ensures r == Ok(-1) ==> old(Rest()) == Some([])
      ensures r.Ok? && r.value >= 0 ==>
        old(Rest()) == if Rest().None? then None else Some([r.value] + Rest().value)
    {
      StepDecodes(str[pos..], Msb(buffer, buflen));
      hide Decoded, Msb, Shr, ByteOf;
      var filled := Fill();
      if filled.Thrown? {
        return Thrown;
      }
      if !filled.value {
        return Ok(-1);
      }
      var n := Low8(Shr(buffer, buflen - 8));
      TopByte(buffer, buflen);
      buflen := buflen - 8;
      r := Ok(n);
    }
  }

  /** Reading to the end. */
  method DecodeAll(str: string) returns (r: Result<Bytes>)
    ensures r == if Decoded(str, []).None? then Thrown else Ok(Decoded(str, []).value)
  {
    hide Decoded, ReadStep, Msb;
    var stream := new Base64DecodeInputStream(str);
    var bytes: Bytes := [];
    if stream.Rest().Some? {
      assert bytes + stream.Rest().value == stream.Rest().value;
    }
    while true
      invariant fresh(stream) && stream.Valid() && stream.buflen < 8 && stream.str == str
      invariant Decoded(str, []) == if stream.Rest().None? then None else Some(bytes + stream.Rest().value)
      decreases |str| - stream.pos
    {
      hide Base64DecodeInputStream.Rest, Base64DecodeInputStream.Coming;
      ghost var before := stream.Rest();
      var b := stream.Read();
      if b.Thrown? {
        return Thrown;
      }
      if b.value == -1 {
        assert bytes + [] == bytes;
        return Ok(bytes);
      }
      if stream.Rest().Some? {
        assert bytes + ([b.value] + stream.Rest().value) == bytes + [b.value] + stream.Rest().value;
      }
      bytes := bytes + [b.value];
    }
  }

  // ---------- round trip ----------

  lemma OneChar(n: Sextet, rest: string, bits: seq<bool>)
    requires |bits| < 8
    ensures Decoded([EncodeChar(n)] + rest, bits) == Decoded(rest, bits + Msb(n, 6))
  {
    AlphabetRoundTrip(n);
    hide EncodeChar, IsSpace, DecodeChar;
    assert ([EncodeChar(n)] + rest)[1..] == rest;
  }

  lemma SixBitsBack(bits: seq<bool>)
    requires |bits| == 6
    ensures Msb(SixBits(bits), 6) == bits
  {
    MsbOfFrom(bits);
  }

  lemma OneByte(str: string, bits: seq<bool>, more: seq<bool>)
    requires |bits| == 8
    ensures var rest := Decoded(str, more);
      Decoded(str, bits + more) == if rest.None? then None else Some([ByteOf(bits)] + rest.value)
  {
    assert (bits + more)[..8] == bits && (bits + more)[8..] == more;
  }

  lemma {:induction false} BytesFront(bytes: seq<nat>)
    requires bytes != []
    ensures MsbBytes(bytes) == Msb(bytes[0], 8) + MsbBytes(bytes[1..])
  {
    var n := |bytes| - 1;
    if n == 0 {
    } else {
      BytesFront(bytes[..n]);
      assert bytes[..n][1..] == bytes[1..][..n - 1];
      Assoc(Msb(bytes[0], 8), MsbBytes(bytes[..n][1..]), Msb(bytes[n], 8));
    }
  }

  lemma FirstByte(bytes: Bytes)
    requires bytes != []
    ensures MsbBytes(bytes)[..8] == Msb(bytes[0], 8) && MsbBytes(bytes)[8..] == MsbBytes(bytes[1..])
    ensures ByteOf(Msb(bytes[0], 8)) == bytes[0]
  {
    BytesFront(bytes);
    assert Pow2(8) == 256;
    FromMsbOf(bytes[0], 8);
    hide MsbBytes, Msb;
  }

  lemma NextGroup(pre: seq<bool>, bits: seq<bool>, pad: string)
    requires |pre| < 8 && |bits| >= 6
    ensures Decoded(Text(bits) + pad, pre) == Decoded(Text(bits[6..]) + pad, pre + bits[..6])
  {
    hide Decoded, Text, SixBits, EncodeChar;
    var group, rest := bits[..6], bits[6..];
    TextFront(bits);
    OneChar(SixBits(group), Text(rest) + pad, pre);
    SixBitsBack(group);
    assert [EncodeChar(SixBits(group))] + Text(rest) + pad == [EncodeChar(SixBits(group))] + (Text(rest) + pad);
  }

  lemma NoTextLeft()
    ensures Decoded([], []) == Some([])
  {
  }

  lemma PadStops(pad: string, bits: seq<bool>)
    requires pad != [] && pad[0] == '=' && |bits| < 8
    ensures Decoded(pad, bits) == Some([])
  {
  }

  lemma NothingLeft(pre: seq<bool>, bytes: Bytes, pad: string)
    requires |pre| < 8 && pre + [] == MsbBytes(bytes) && (pad == [] || pad[0] == '=')
    ensures Decoded(Text([]) + pad, pre) == Some(bytes)
  {
    assert |MsbBytes(bytes)| == |pre|;
    assert pre == [] && bytes == [];
    assert Text([]) + pad == pad;
    hide MsbBytes;
    if pad == [] {
      NoTextLeft();
    } else {
      PadStops(pad, []);
    }
  }

  lemma LastBits(pre: seq<bool>, bits: seq<bool>, bytes: Bytes, pad: string)
    requires |pre| < 8 && 0 < |bits| < 6 && pre + bits == MsbBytes(bytes)
    requires pad != [] && pad[0] == '='
    ensures Decoded(Text(bits) + pad, pre) == Some(bytes)
  {
    assert |bytes| == 1 by {
      assert |MsbBytes(bytes)| == |pre| + |bits|;
    }
    var zeros := Zeros(6 - |bits|);
    var group := bits + zeros;
    assert Text(bits) == [EncodeChar(SixBits(group))];
    hide Decoded, Text, MsbBytes, SixBits, EncodeChar;
    OneChar(SixBits(group), pad, pre);
    SixBitsBack(group);
    FirstByte(bytes);
    Assoc(pre, bits, zeros);
    assert MsbBytes(bytes)[..8] == pre + bits;
    OneByte(pad, pre + bits, zeros);
    PadStops(pad, zeros);
    assert [bytes[0]] + [] == bytes;
  }

  /** Text after some bits at hand: padding is needed exactly when the text ends inside a group. */
  lemma {:induction false} TextDecodes(pre: seq<bool>, bits: seq<bool>, bytes: Bytes, pad: string)
    requires |pre| < 8 && pre + bits == MsbBytes(bytes)
    requires (pad == [] || pad[0] == '=') && (|bits| % 6 != 0 ==> pad != [])
    ensures Decoded(Text(bits) + pad, pre) == Some(bytes)
    decreases |bits|, 0
  {
    hide Decoded, Text, MsbBytes;
    if bits == [] {
      NothingLeft(pre, bytes, pad);
    } else if |bits| < 6 {
      LastBits(pre, bits, bytes, pad);
    } else {
      NextGroup(pre, bits, pad);
      assert (pre + bits[..6]) + bits[6..] == pre + bits;
      GroupDecodes(pre + bits[..6], bits[6..], bytes, pad);
    }
  }

  lemma SplitFirst(now: seq<bool>, rest: seq<bool>)
    requires |now| >= 8
    ensures now[..8] + now[8..] == now && (now + rest)[..8] == now[..8] && (now + rest)[8..] == now[8..] + rest
  {
  }

  lemma {:induction false} GroupDecodes(now: seq<bool>, rest: seq<bool>, bytes: Bytes, pad: string)
    requires |now| < 14 && now + rest == MsbBytes(bytes)
    requires (pad == [] || pad[0] == '=') && (|rest| % 6 != 0 ==> pad != [])
    ensures Decoded(Text(rest) + pad, now) == Some(bytes)
    decreases |rest|, 1
  {
    hide Decoded, Text, MsbBytes;
    if |now| < 8 {
      TextDecodes(now, rest, bytes, pad);
    } else {
      FirstByte(bytes);
      SplitFirst(now, rest);
      OneByte(Text(rest) + pad, now[..8], now[8..]);
      TextDecodes(now[8..], rest, bytes[1..], pad);
      assert [bytes[0]] + bytes[1..] == bytes;
    }
  }

  lemma PaddingFacts(n: nat)
    ensures 8 * n % 6 != 0 ==> Padding(n) != []
    ensures Padding(n) == [] || Padding(n)[0] == '='
  {
  }

  /** Decoding the encoded text gives the bytes back, for every length. */
  lemma DecodesEncoded(bytes: Bytes)
    ensures Decoded(Encoded(bytes), []) == Some(bytes)
  {
    hide Decoded, Text, MsbBytes, Padding;
    PaddingFacts(|bytes|);
    assert [] + MsbBytes(bytes) == MsbBytes(bytes);
    assert |MsbBytes(bytes)| == 8 * |bytes|;
    TextDecodes([], MsbBytes(bytes), bytes, Padding(|bytes|));
  }

  lemma {:induction false} TextLength(bits: seq<bool>)
    ensures |Text(bits)| == (|bits| + 5) / 6
  {
    if |bits| >= 6 {
      TextLength(bits[6..]);
    }
  }

  lemma DivSix(x: nat, q: nat, r: nat)
    requires x == 6 * q + r && r < 6
    ensures x / 6 == q
  {
  }

  lemma DivThree(x: nat, q: nat, r: nat)
    requires x == 3 * q + r && r < 3
    ensures x / 3 == q && x % 3 == r
  {
  }

  lemma LengthInThrees(q: nat, r: nat)
    requires r < 3
    ensures var n := 3 * q + r; (8 * n + 5) / 6 + (3 - n % 3) % 3 == 4 * ((n + 2) / 3)
  {
    var n := 3 * q + r;
    DivThree(n, q, r);
    if r == 0 {
      DivSix(8 * n + 5, 4 * q, 5);
      DivThree(n + 2, q, 2);
    } else if r == 1 {
      DivSix(8 * n + 5, 4 * q + 2, 1);
      DivThree(n + 2, q + 1, 0);
    } else {
      DivSix(8 * n + 5, 4 * q + 3, 3);
      DivThree(n + 2, q + 1, 1);
    }
  }

  /** Four characters for every three bytes begun. */
  lemma EncodedLength(bytes: seq<nat>)
    ensures |Encoded(bytes)| == 4 * ((|bytes| + 2) / 3)
  {
    TextLength(MsbBytes(bytes));
    LengthInThrees(|bytes| / 3, |bytes| % 3);
    hide Text, MsbBytes;
  }

  // ---------- the encoding as RFC 4648 has it ----------

  const UPPER: string := "ABCDEFGHIJKLMNOPQRSTUVWXYZ"
  const LOWER: string := "abcdefghijklmnopqrstuvwxyz"
  const REST: string := "0123456789+/"

  /** Table 1 of RFC 4648. */
  lemma UpperCase(n: Sextet)
    requires n < 26
    ensures EncodeChar(n) == UPPER[n]
  {
  }

  lemma LowerCase(n: Sextet)
    requires 26 <= n < 52
    ensures EncodeChar(n) == LOWER[n - 26]
  {
  }

  lemma DigitsAndSigns(n: Sextet)
    requires 52 <= n
    ensures EncodeChar(n) == REST[n - 52]
  {
  }

  lemma SixOf(n: Sextet)
    ensures SixBits(Msb(n, 6)) == n
  {
    assert Pow2(6) == 64;
    FromMsbOf(n, 6);
  }

  lemma ShlStep(x: nat, k: nat)
    ensures Shl(x, k + 1) == 2 * Shl(x, k) && Shl(x, 0) == x
  {
  }

  lemma ShlBySix(x: nat)
    ensures Shl(x, 6) == 64 * x && Shl(x, 8) == 256 * x
  {
    hide Shl;
    ShlStep(x, 0);
    ShlStep(x, 1);
    ShlStep(x, 2);
    ShlStep(x, 3);
    ShlStep(x, 4);
    ShlStep(x, 5);
    ShlStep(x, 6);
    ShlStep(x, 7);
  }

  lemma SixMoreBits(x: nat, k: nat, n: Sextet)
    ensures Msb(64 * x + n, k + 6) == Msb(x, k) + Msb(n, 6)
  {
    SextetFits(n);
    ShlBySix(x);
    hide *;
    MsbShift(x, k, n, 6);
  }

  lemma EightMoreBits(x: nat, k: nat, n: byte)
    ensures Msb(256 * x + n, k + 8) == Msb(x, k) + Msb(n, 8)
  {
    assert Pow2(8) == 256;
    ShlBySix(x);
    hide *;
    MsbShift(x, k, n, 8);
  }

  lemma GroupOfSix(n: Sextet)
    ensures Text(Msb(n, 6)) == [EncodeChar(n)]
  {
    SixOf(n);
    TextFront(Msb(n, 6));
    hide Msb, EncodeChar, SixBits;
    assert Msb(n, 6)[..6] == Msb(n, 6) && Msb(n, 6)[6..] == [];
  }

  /** The characters of four groups of six bits. */
  lemma FourGroups(i: Sextet, j: Sextet, k: Sextet, l: Sextet)
    ensures Text(Msb(i, 6) + Msb(j, 6) + Msb(k, 6) + Msb(l, 6))
      == [EncodeChar(i), EncodeChar(j), EncodeChar(k), EncodeChar(l)]
  {
    GroupOfSix(i);
    GroupOfSix(j);
    GroupOfSix(k);
    GroupOfSix(l);
    hide Msb, Text, EncodeChar;
    TextAppend(Msb(i, 6) + Msb(j, 6) + Msb(k, 6), Msb(l, 6));
    TextAppend(Msb(i, 6) + Msb(j, 6), Msb(k, 6));
    TextAppend(Msb(i, 6), Msb(j, 6));
  }

  lemma SixesOf(i: Sextet, j: Sextet, k: Sextet, l: Sextet)
    ensures Msb(64 * (64 * (64 * i + j) + k) + l, 24) == Msb(i, 6) + Msb(j, 6) + Msb(k, 6) + Msb(l, 6)
  {
    hide *;
    SixMoreBits(i, 6, j);
    SixMoreBits(64 * i + j, 12, k);
    SixMoreBits(64 * (64 * i + j) + k, 18, l);
  }

  lemma NoBytes()
    ensures MsbBytes([]) == []
  {
  }

  lemma EightsOf(a: byte, b: byte, c: byte)
    ensures Msb(256 * (256 * a + b) + c, 24) == MsbBytes([a, b, c])
  {
    hide *;
    MsbBytesAppend([], a);
    MsbBytesAppend([a], b);
    MsbBytesAppend([a, b], c);
    EightMoreBits(a, 8, b);
    EightMoreBits(256 * a + b, 16, c);
    NoBytes();
    assert [] + [a] == [a] && [a] + [b] == [a, b] && [a, b] + [c] == [a, b, c];
    assert [] + Msb(a, 8) == Msb(a, 8);
  }

  lemma DigitsOfGroup(n: nat)
    requires n < 0x1000000
    ensures n / 262144 < 64
    ensures n == 64 * (64 * (64 * (n / 262144) + n / 4096 % 64) + n / 64 % 64) + n % 64
  {
    var x, y := n / 64, n / 4096;
    assert y == x / 64 && n / 262144 == y / 64;
    assert n == 64 * x + n % 64 && x == 64 * y + x % 64 && y == 64 * (y / 64) + y % 64;
  }

  lemma NoPadding(a: byte, b: byte, c: byte)
    ensures Encoded([a, b, c]) == Text(MsbBytes([a, b, c]))
  {
    hide MsbBytes, Text;
    assert Padding(3) == [];
  }

  /** Three bytes are one number of 24 bits, and its four digits to the base 64 are the characters (section 4 of
      RFC 4648). */
  lemma GroupOfThree(a: byte, b: byte, c: byte)
    ensures var n: nat := 256 * (256 * a + b) + c;
      && n / 262144 < 64
      && Encoded([a, b, c])
         == [EncodeChar(n / 262144), EncodeChar(n / 4096 % 64), EncodeChar(n / 64 % 64), EncodeChar(n % 64)]
  {
    hide *;
    var n: nat := 256 * (256 * a + b) + c;
    DigitsOfGroup(n);
    EightsOf(a, b, c);
    SixesOf(n / 262144, n / 4096 % 64, n / 64 % 64, n % 64);
    FourGroups(n / 262144, n / 4096 % 64, n / 64 % 64, n % 64);
    NoPadding(a, b, c);
  }

  lemma {:induction false} MsbBytesConcat(a: seq<nat>, b: seq<nat>)
    ensures MsbBytes(a + b) == MsbBytes(a) + MsbBytes(b)
  {
    if b == [] {
      assert a + b == a;
    } else {
      var n := |b| - 1;
      MsbBytesConcat(a, b[..n]);
      assert (a + b)[..|a + b| - 1] == a + b[..n];
      hide Msb;
    }
  }

  /** The groups of three follow each other. */
  lemma EncodedInGroups(first: seq<nat>, rest: seq<nat>)
    requires |first| % 3 == 0
    ensures Encoded(first + rest) == Encoded(first) + Encoded(rest)
  {
    MsbBytesConcat(first, rest);
    hide Text, MsbBytes;
    TextAppend(MsbBytes(first), MsbBytes(rest));
    assert Padding(|first|) == [] && Padding(|first + rest|) == Padding(|rest|);
    assert Text(MsbBytes(first)) + [] == Text(MsbBytes(first));
  }

  /** White space is skipped, and everything else is a character of the alphabet, '=' or an error. */
  lemma BlanksAreSkipped(text: string, bits: seq<bool>, c: char)
    requires |bits| < 8 && c in {' ', '\t', '\n', '\r'}
    ensures ReadStep([c] + text, bits) == ReadStep(text, bits)
  {
    assert ([c] + text)[1..] == text;
  }

  lemma InAlphabet(c: char)
    requires DecodeChar(c).Some?
    ensures c in UPPER || c in LOWER || c in REST
  {
    if 'A' <= c <= 'Z' {
      assert UPPER[c as int - 0x41] == c;
    } else if 'a' <= c <= 'z' {
      assert LOWER[c as int - 0x61] == c;
    } else if '0' <= c <= '9' {
      assert REST[c as int - 0x30] == c;
    } else {
      assert REST[10] == '+' && REST[11] == '/';
    }
  }

  lemma OthersThrow(text: string, bits: seq<bool>, c: char)
    requires |bits| < 8 && c != '=' && !IsSpace(c) && c !in UPPER && c !in LOWER && c !in REST
    ensures ReadStep([c] + text, bits).result == Thrown
  {
    assert ([c] + text)[1..] == text;
    if DecodeChar(c).Some? {
      InAlphabet(c);
    }
  }
}
