/** The WebSocket frames of src/ws/ws.go (sections 5.2 and 5.3 of RFC 6455): one frame per message. */
module WsFrame {
  import opened Basics
  import opened BitStrings

  /** Go slices are shorter than 2^63. */
  const MAX_LENGTH := 0x8000_0000_0000_0000

  const CONTINUATION: byte := 0x0
  const BINARY: byte := 0x2
  const CLOSE: byte := 0x8
  const PING: byte := 0x9
  const PONG: byte := 0xA

  // ---------- masking ----------

  function XorByte(x: byte, key: byte): byte {
    assert Pow2(8) == 256;
    XorBound(x, key, 8);
    Xor(x, key)
  }

  function Mask(data: Bytes, key: Bytes): (r: Bytes)
    requires |key| == 4
    ensures |r| == |data|
  {
    seq(|data|, i requires 0 <= i < |data| => XorByte(data[i], key[i % 4]))
  }

  lemma XorByteTwice(x: byte, key: byte)
    ensures XorByte(XorByte(x, key), key) == x
  {
    XorTwice(x, key);
  }

  lemma MaskTwice(data: Bytes, key: Bytes)
    requires |key| == 4
    ensures Mask(Mask(data, key), key) == data
  {
    hide XorByte;
    forall i | 0 <= i < |data| ensures Mask(Mask(data, key), key)[i] == data[i] {
      XorByteTwice(data[i], key[i % 4]);
    }
  }

  /** Masking is the exclusive or, bit by bit, with the key bytes in turn. */
  lemma XorByteBits(x: byte, key: byte, i: nat)
    ensures (Shr(XorByte(x, key), i) % 2 == 1) == ((Shr(x, i) % 2 == 1) != (Shr(key, i) % 2 == 1))
  {
    XorBits(x, key, i);
  }

  lemma MaskedA()
    ensures XorByte(0x41, 0x63) == 0x22
  {
    hide Xor;
    XorHalves(0x41, 0x63);
    XorHalves(0x20, 0x31);
    XorHalves(0x10, 0x18);
    XorHalves(0x8, 0xC);
    XorHalves(0x4, 0x6);
    XorHalves(0x2, 0x3);
    XorSame(0x1);
  }

  lemma MaskBits(data: Bytes, key: Bytes, k: nat, i: nat)
    requires |key| == 4 && k < |data|
    ensures (Shr(Mask(data, key)[k], i) % 2 == 1) == ((Shr(data[k], i) % 2 == 1) != (Shr(key[k % 4], i) % 2 == 1))
  {
    XorByteBits(data[k], key[k % 4], i);
    hide XorByte, Shr;
  }

  // ---------- big-endian lengths ----------

  function BigEndian(n: nat, k: nat): (b: Bytes)
    ensures |b| == k
  {
    if k == 0 then [] else BigEndian(n / 256, k - 1) + [n % 256]
  }

  function FromBigEndian(b: Bytes): nat {
    if b == [] then 0 else 256 * FromBigEndian(b[..|b| - 1]) + b[|b| - 1]
  }

  function Pow256(k: nat): nat {
    if k == 0 then 1 else 256 * Pow256(k - 1)
  }

  lemma {:induction false} BigEndianRoundTrip(n: nat, k: nat)
    requires n < Pow256(k)
    ensures FromBigEndian(BigEndian(n, k)) == n
  {
    if k == 0 {
    } else {
      BigEndianRoundTrip(n / 256, k - 1);
      assert BigEndian(n, k)[..k - 1] == BigEndian(n / 256, k - 1);
    }
  }

  lemma {:induction false} ShrFurther(n: nat, i: nat, j: nat)
    ensures Shr(n, i + j) == Shr(Shr(n, i), j)
  {
    if i == 0 {
    } else {
      ShrFurther(n / 2, i - 1, j);
    }
  }

  lemma {:induction false} ShrInBytes(n: nat, k: nat)
    ensures Shr(n, 8 * (k + 1)) == Shr(n / 256, 8 * k)
  {
    ShrFurther(n, 8, 8 * k);
    ShrEight(n);
  }

  /** The most significant byte comes first. */
  lemma {:induction false} BigEndianAt(n: nat, k: nat, i: nat)
    requires i < k
    ensures BigEndian(n, k)[i] == Shr(n, 8 * (k - 1 - i)) % 256
  {
    if i == k - 1 {
      assert Shr(n, 0) == n;
    } else {
      BigEndianAt(n / 256, k - 1, i);
      ShrInBytes(n, k - 2 - i);
      hide Shr;
    }
  }

  // ---------- writing ----------

  /** The mask bit, the length and its extension; a length is written modulo 2^64. */
  function LengthField(n: nat, masked: bool): (b: Bytes)
    ensures b != []
  {
    var bit := if masked then 0x80 else 0;
    if n < 126 then [bit + n]
    else if n < 65536 then [bit + 126] + BigEndian(n, 2)
    else [bit + 127] + BigEndian(n, 8)
  }

  ghost predicate ValidKey(key: Option<Bytes>) {
    key.Some? ==> |key.value| == 4
  }

  function Head(opcode: byte, key: Option<Bytes>, n: nat): Bytes
    requires opcode < 16
  {
    [0x80 + opcode] + LengthField(n, key.Some?) + (if key.Some? then key.value else [])
  }

  function Body(key: Option<Bytes>, payload: Bytes): Bytes
    requires ValidKey(key)
  {
    if key.Some? then Mask(payload, key.value) else payload
  }

  function Encode(opcode: byte, key: Option<Bytes>, payload: Bytes): Bytes
    requires opcode < 16 && ValidKey(key)
  {
    Head(opcode, key, |payload|) + Body(key, payload)
  }

  /** The header of section 5.2 of RFC 6455: FIN without extensions and the opcode, the mask bit, and the
      length in its shortest form. */
  lemma HeadFormat(opcode: byte, key: Option<Bytes>, n: nat)
    requires opcode < 16 && ValidKey(key)
    ensures var h, extra := Head(opcode, key, n), if n < 126 then 0 else if n < 65536 then 2 else 8;
      && |h| == 2 + extra + (if key.Some? then 4 else 0)
      && h[0] / 128 == 1 && h[0] / 16 % 8 == 0 && h[0] % 16 == opcode
      && (h[1] / 128 == 1 <==> key.Some?)
      && h[1] % 128 == (if extra == 0 then n else if extra == 2 then 126 else 127)
      && h[2..2 + extra] == BigEndian(n, extra)
      && (key.Some? ==> h[2 + extra..] == key.value)
  {
    hide BigEndian;
  }

  /** The opcodes of section 11.8 of RFC 6455. */
  lemma Opcodes()
    ensures Head(CONTINUATION, None, 0) == [0x80, 0] && Head(BINARY, None, 5) == [0x82, 5]
    ensures Head(CLOSE, None, 0) == [0x88, 0] && Head(PING, None, 0) == [0x89, 0] && Head(PONG, None, 0) == [0x8A, 0]
  {
  }

  // ---------- reading ----------

  datatype Parsed = Parsed(opcode: byte, payload: Bytes, rest: Bytes)

  function ParsePayload(opcode: byte, masked: bool, length: nat, input: Bytes): (r: Option<Parsed>)
    ensures r.Some? ==> |r.value.rest| <= |input| && r.value.opcode == opcode
  {
    var skip := if masked then 4 else 0;
    if |input| < skip + length then None
    else
      var raw := input[skip..skip + length];
      Some(Parsed(opcode, if masked then Mask(raw, input[..4]) else raw, input[skip + length..]))
  }

  function ParseBody(opcode: byte, masked: bool, length7: nat, extra: nat, input: Bytes): (r: Option<Parsed>)
    ensures r.Some? ==> |r.value.rest| <= |input| && r.value.opcode == opcode
  {
    if |input| < extra then None
    else
      var length := if extra == 0 then length7 else FromBigEndian(input[..extra]);
      ParsePayload(opcode, masked, length, input[extra..])
  }

  /** One frame off the front of the input; None when the input ends inside it. */
  function Parse(input: Bytes): (r: Option<Parsed>)
    ensures r.Some? ==> |r.value.rest| < |input| && r.value.opcode < 16
  {
    if |input| < 2 then None
    else
      var length7 := input[1] % 128;
      var extra := if length7 == 126 then 2 else if length7 == 127 then 8 else 0;
      ParseBody(input[0] % 16, input[1] >= 128, length7, extra, input[2..])
  }

  // ---------- round trip ----------

  /** What follows the length field of a frame. */
  function Tail(key: Option<Bytes>, payload: Bytes, rest: Bytes): Bytes
    requires ValidKey(key)
  {
    (if key.Some? then key.value else []) + Body(key, payload) + rest
  }

  lemma ParsePayloadOfBody(opcode: byte, key: Option<Bytes>, payload: Bytes, rest: Bytes)
    requires ValidKey(key)
    ensures ParsePayload(opcode, key.Some?, |payload|, Tail(key, payload, rest))
         == Some(Parsed(opcode, payload, rest))
  {
    var k := if key.Some? then key.value else [];
    var input := k + Body(key, payload) + rest;
    assert input[|k|..|k| + |payload|] == Body(key, payload);
    assert input[|k| + |payload|..] == rest;
    if key.Some? {
      assert input[..4] == key.value;
      MaskTwice(payload, key.value);
    }
  }

  lemma ParseBodyOfLength(opcode: byte, masked: bool, n: nat, tail: Bytes)
    requires n < MAX_LENGTH
    ensures var field := LengthField(n, masked);
      && |field| == 1 + (if field[0] % 128 == 126 then 2 else if field[0] % 128 == 127 then 8 else 0)
      && (field[0] >= 128 <==> masked)
      && ParseBody(opcode, masked, field[0] % 128, |field| - 1, field[1..] + tail) == ParsePayload(opcode, masked, n, tail)
  {
    assert Pow256(2) == 65536;
    assert Pow256(4) == 0x1_0000_0000;
    assert Pow256(8) == 0x1_0000_0000_0000_0000;
    var field := LengthField(n, masked);
    if n < 126 {
      assert field[1..] + tail == tail;
    } else {
      var k := if n < 65536 then 2 else 8;
      BigEndianRoundTrip(n, k);
      assert field[1..] == BigEndian(n, k);
      assert (field[1..] + tail)[..k] == BigEndian(n, k) && (field[1..] + tail)[k..] == tail;
    }
  }

  lemma EncodeShape(opcode: byte, key: Option<Bytes>, payload: Bytes, rest: Bytes)
    requires opcode < 16 && ValidKey(key)
    ensures Encode(opcode, key, payload) + rest
         == [0x80 + opcode] + LengthField(|payload|, key.Some?) + Tail(key, payload, rest)
  {
    hide Body, LengthField;
    var k := if key.Some? then key.value else [];
    Assoc4([0x80 + opcode] + LengthField(|payload|, key.Some?), k, Body(key, payload), rest);
  }

  lemma ParseHead(a: byte, field: Bytes, tail: Bytes)
    requires field != []
    ensures var length7 := field[0] % 128;
      var extra := if length7 == 126 then 2 else if length7 == 127 then 8 else 0;
      Parse([a] + field + tail) == ParseBody(a % 16, field[0] >= 128, length7, extra, field[1..] + tail)
  {
    hide ParseBody;
    var input := [a] + field + tail;
    assert input[2..] == field[1..] + tail;
  }

  /** Reading a written frame gives its opcode and payload back, in either mask mode and with every
      length encoding, and leaves exactly what follows it. */
  lemma ParseEncode(opcode: byte, key: Option<Bytes>, payload: Bytes, rest: Bytes)
    requires opcode < 16 && ValidKey(key) && |payload| < MAX_LENGTH
    ensures Parse(Encode(opcode, key, payload) + rest) == Some(Parsed(opcode, payload, rest))
  {
    hide Parse, ParseBody, ParsePayload, Encode, Body, LengthField;
    var field, tail := LengthField(|payload|, key.Some?), Tail(key, payload, rest);
    EncodeShape(opcode, key, payload, rest);
    ParseHead(0x80 + opcode, field, tail);
    ParseBodyOfLength(opcode, key.Some?, |payload|, tail);
    ParsePayloadOfBody(opcode, key, payload, rest);
  }
}
