/** Conn of src/ws/ws.go: a byte stream over frames, with leftovers and control frames. */
module WsConn {
  import opened Basics
  import opened WsFrame

  const CLIENT_KEY: Bytes := [0x63, 0x62, 0x61, 0x60]

  function KeyOf(mask: bool): (key: Option<Bytes>)
    ensures ValidKey(key)
  {
    if mask then Some(CLIENT_KEY) else None
  }

  /** Broken stands for the error of an input that ends inside a frame, PongFailed for that of a write. */
  datatype ReadResult = Data(bytes: Bytes) | Eof | Broken | Unsupported(opcode: byte) | PongFailed

  /** What a Read without leftovers does to the input: the control frames it skips on the way to a data
      frame, the payloads of the pings among them, and what stays behind. */
  datatype Outcome = Outcome(result: ReadResult, rest: Bytes, remain: Bytes, pings: seq<Bytes>)

  function Min(a: nat, b: nat): nat {
    if a <= b then a else b
  }

  function ReadFrames(input: Bytes, n: nat): Outcome
    decreases |input|
  {
    match Parse(input)
    case None => Outcome(Broken, [], [], [])
    case Some(f) =>
      if f.opcode == CLOSE then Outcome(Eof, f.rest, [], [])
      else if f.opcode == PING then
        var o := ReadFrames(f.rest, n);
        o.(pings := [f.payload] + o.pings)
      else if f.opcode == PONG then ReadFrames(f.rest, n)
      else if f.opcode == BINARY || f.opcode == CONTINUATION then
        var k := Min(n, |f.payload|);
        Outcome(Data(f.payload[..k]), f.rest, f.payload[k..], [])
      else Outcome(Unsupported(f.opcode), f.rest, [], [])
  }

  lemma ReadFramesUnfold(input: Bytes, n: nat)
    ensures match Parse(input)
      case None => ReadFrames(input, n) == Outcome(Broken, [], [], [])
      case Some(f) =>
        && (f.opcode == CLOSE ==> ReadFrames(input, n) == Outcome(Eof, f.rest, [], []))
        && (f.opcode == PING ==>
          var o := ReadFrames(f.rest, n); ReadFrames(input, n) == o.(pings := [f.payload] + o.pings))
        && (f.opcode == PONG ==> ReadFrames(input, n) == ReadFrames(f.rest, n))
        && (f.opcode == BINARY || f.opcode == CONTINUATION ==>
          var k := Min(n, |f.payload|);
          ReadFrames(input, n) == Outcome(Data(f.payload[..k]), f.rest, f.payload[k..], []))
        && (f.opcode !in {CLOSE, PING, PONG, BINARY, CONTINUATION} ==>
          ReadFrames(input, n) == Outcome(Unsupported(f.opcode), f.rest, [], []))
  {
  }

  /** What a read makes of the first frame: a close frame ends the stream, control frames are passed over, data
      is delivered as far as it fits, and every other opcode is an error. */
  lemma FirstFrameRead(opcode: byte, key: Option<Bytes>, payload: Bytes, rest: Bytes, n: nat)
    requires opcode < 16 && ValidKey(key) && |payload| < MAX_LENGTH
    ensures var o, later := ReadFrames(Encode(opcode, key, payload) + rest, n), ReadFrames(rest, n);
      if opcode == 8 then o == Outcome(Eof, rest, [], [])
      else if opcode == 9 then o == later.(pings := [payload] + later.pings)
      else if opcode == 10 then o == later
      else if opcode == 0 || opcode == 2 then
        if |payload| <= n then o == Outcome(Data(payload), rest, [], [])
        else o == Outcome(Data(payload[..n]), rest, payload[n..], [])
      else o == Outcome(Unsupported(opcode), rest, [], [])
  {
    ParseEncode(opcode, key, payload, rest);
    ReadFramesUnfold(Encode(opcode, key, payload) + rest, n);
    hide Parse, Encode, ReadFrames;
    if |payload| <= n {
      assert payload[..|payload|] == payload && payload[|payload|..] == [];
    }
  }

  /** The client masks with the key 63 62 61 60: one byte 41 goes out as 22. */
  lemma ClientFrame()
    ensures Encode(BINARY, KeyOf(true), [0x41]) == [0x82, 0x81, 0x63, 0x62, 0x61, 0x60, 0x22]
    ensures Encode(BINARY, KeyOf(false), [0x41]) == [0x82, 0x01, 0x41]
  {
    hide XorByte;
    MaskedA();
  }

  /** The pong frames that answer a list of pings. */
  function Pongs(key: Option<Bytes>, pings: seq<Bytes>): Bytes
    requires ValidKey(key)
  {
    if pings == [] then [] else Encode(PONG, key, pings[0]) + Pongs(key, pings[1..])
  }

  lemma ParseShortens(input: Bytes)
    ensures var r := Parse(input); r.Some? ==> |r.value.rest| < |input|
  {
  }

  lemma {:induction false} PongsAppend(key: Option<Bytes>, pings: seq<Bytes>, p: Bytes)
    requires ValidKey(key)
    ensures Pongs(key, pings + [p]) == Pongs(key, pings) + Encode(PONG, key, p)
    ensures Pongs(key, []) == []
  {
    hide Encode;
    if pings == [] {
      assert [p][1..] == [];
    } else {
      assert (pings + [p])[1..] == pings[1..] + [p];
      PongsAppend(key, pings[1..], p);
    }
  }

  lemma {:induction false} PongsConcat(key: Option<Bytes>, a: seq<Bytes>, b: seq<Bytes>)
    requires ValidKey(key)
    ensures Pongs(key, a + b) == Pongs(key, a) + Pongs(key, b)
  {
    hide Encode;
    if a == [] {
      assert a + b == b;
    } else {
      PongsConcat(key, a[1..], b);
      assert (a + b)[1..] == a[1..] + b;
    }
  }

  /** A frame in two writes is cut like a frame in one. */
  lemma FrameCut(sent: Bytes, head: Bytes, body: Bytes, room: nat)
    ensures |sent| + |head| > room ==> Cut(sent + head, room) == Cut(sent + (head + body), room)
    ensures Cut(Cut(sent + head, room) + body, room) == Cut(sent + (head + body), room)
  {
    CutTwice(sent + head, body, room);
    assert sent + head + body == sent + (head + body);
  }

  class Conn {
    var br: Bytes
    const mask: bool
    var eof: bool
    var remain: Bytes
    var sent: Bytes
    /** The connection takes this many bytes; then its writes fail. */
    const room: nat

    ghost predicate Valid()
      reads this
    {
      |sent| <= room
    }

    constructor (mask: bool, input: Bytes, room: nat)
      ensures Valid()
      ensures this.mask == mask && this.room == room && br == input && !eof && remain == [] && sent == []
    {
      this.mask, this.room := mask, room;
      br, eof, remain, sent := input, false, [], [];
    }

    /** Write of the underlying connection. */
    method Send(b: Bytes) returns (ok: bool)
      modifies this`sent
      ensures Valid() && sent == Cut(old(sent) + b, room) && (ok <==> |old(sent)| + |b| <= room)
    {
      ok := |sent| + |b| <= room;
      sent := Cut(sent + b, room);
    }

    method BuildHead(opcode: byte, n: nat) returns (head: Bytes)
      requires opcode < 16
      ensures head == Head(opcode, KeyOf(mask), n)
    {
      hide BigEndian;
      head := [0x80 + opcode];
      var lenByte: byte := if mask then 0x80 else 0;
      if n < 126 {
        head := head + [lenByte + n];
      } else if n < 65536 {
        head := head + [lenByte + 126] + BigEndian(n, 2);
      } else {
        head := head + [lenByte + 127];
        head := head + BigEndian(n, 8);
      }
      assert head == [0x80 + opcode] + LengthField(n, mask);
      if mask {
        head := head + CLIENT_KEY;
      }
    }

    method MaskPayload(payload: Bytes) returns (r: Bytes)
      ensures r == Mask(payload, CLIENT_KEY)
    {
      hide XorByte;
      var masked := new byte[|payload|](_ => 0);
      for i := 0 to |payload|
        invariant forall k :: 0 <= k < i ==> masked[k] == XorByte(payload[k], CLIENT_KEY[k % 4])
      {
        masked[i] := XorByte(payload[i], CLIENT_KEY[i % 4]);
      }
      r := masked[..];
    }

    /** The header, then the payload, each by its own write to the connection. */
    method WriteFrame(opcode: byte, payload: Bytes) returns (ok: bool)
      requires opcode < 16
      modifies this`sent
      ensures var frame := Encode(opcode, KeyOf(mask), payload);
        Valid() && sent == Cut(old(sent) + frame, room) && (ok <==> |old(sent)| + |frame| <= room)
    {
      hide Head, Mask;
      var head := BuildHead(opcode, |payload|);
      var body := payload;
      if mask {
        body := MaskPayload(payload);
      }
      FrameCut(sent, head, body, room);
      ok := Send(head);
      if !ok {
        return false;
      }
      ok := Send(body);
    }

    /** The number of bytes written, or the error. */
    method Write(p: Bytes) returns (n: nat, ok: bool)
      modifies this`sent
      ensures var frame := Encode(BINARY, KeyOf(mask), p);
        && Valid() && sent == Cut(old(sent) + frame, room) && (ok <==> |old(sent)| + |frame| <= room)
        && n == (if ok then |p| else 0)
    {
      ok := WriteFrame(BINARY, p);
      n := if ok then |p| else 0;
    }

    /** io.ReadFull; a short input is used up. */
    method ReadFull(k: nat) returns (b: Option<Bytes>)
      modifies this`br
      ensures |old(br)| < k ==> b.None? && br == []
      ensures |old(br)| >= k ==> b == Some(old(br)[..k]) && br == old(br)[k..]
    {
      if |br| < k {
        br := [];
        return None;
      }
      b := Some(br[..k]);
      br := br[k..];
    }

    method ReadPayload(opcode: byte, masked: bool, length: nat) returns (f: Option<(byte, Bytes)>)
      modifies this`br
      ensures match ParsePayload(opcode, masked, length, old(br))
        case None => f.None? && br == []
        case Some(p) => f == Some((p.opcode, p.payload)) && br == p.rest
    {
      hide Mask;
      var maskKey: Bytes := [0, 0, 0, 0];
      if masked {
        var b := ReadFull(4);
        if b.None? {
          return None;
        }
        maskKey := b.value;
      }
      var payload := ReadFull(length);
      if payload.None? {
        return None;
      }
      var data := payload.value;
      var skip := if masked then 4 else 0;
      assert data == old(br)[skip..skip + length];
      if masked {
        data := Unmask(data, maskKey);
      }
      f := Some((opcode, data));
    }

    method ReadLength(opcode: byte, masked: bool, length7: nat) returns (f: Option<(byte, Bytes)>)
      modifies this`br
      ensures match ParseBody(opcode, masked, length7, if length7 == 126 then 2 else if length7 == 127 then 8 else 0, old(br))
        case None => f.None? && br == []
        case Some(p) => f == Some((p.opcode, p.payload)) && br == p.rest
    {
      hide ParsePayload, FromBigEndian;
      var length := length7;
      if length == 126 {
        var b := ReadFull(2);
        if b.None? {
          return None;
        }
        length := FromBigEndian(b.value);
      } else if length == 127 {
        var b := ReadFull(8);
        if b.None? {
          return None;
        }
        length := FromBigEndian(b.value);
      }
      f := ReadPayload(opcode, masked, length);
    }

    method NextFrame() returns (f: Option<(byte, Bytes)>)
      modifies this`br
      ensures match Parse(old(br))
        case None => f.None? && br == []
        case Some(p) => f == Some((p.opcode, p.payload)) && br == p.rest
    {
      hide ParseBody;
      var h := ReadFull(1);
      if h.None? {
        return None;
      }
      var h1 := h.value[0];
      h := ReadFull(1);
      if h.None? {
        return None;
      }
      var h2 := h.value[0];
      assert br == old(br)[2..];
      f := ReadLength(h1 % 16, h2 >= 128, h2 % 128);
    }

    method Unmask(data: Bytes, key: Bytes) returns (r: Bytes)
      requires |key| == 4
      ensures r == Mask(data, key)
    {
      var payload := new byte[|data|](i requires 0 <= i < |data| => data[i]);
      for i := 0 to |data|
        invariant forall k :: 0 <= k < |data| ==>
          payload[k] == if k < i then XorByte(data[k], key[k % 4]) else data[k]
      {
        payload[i] := XorByte(payload[i], key[i % 4]);
      }
      r := payload[..];
    }

    method Read(n: nat) returns (r: ReadResult)
      requires Valid()
      modifies this
      ensures Valid()
      ensures old(remain) != [] ==>
        var k := Min(n, |old(remain)|);
        && r == Data(old(remain)[..k]) && remain == old(remain)[k..]
        && br == old(br) && eof == old(eof) && sent == old(sent)
      ensures old(remain) == [] && old(eof) ==>
        r == Eof && remain == [] && br == old(br) && eof && sent == old(sent)
      ensures old(remain) == [] && !old(eof) ==>
        var o := ReadFrames(old(br), n);
        var all := old(sent) + Pongs(KeyOf(mask), o.pings);
        && sent == Cut(all, room)
        && if |all| <= room then r == o.result && br == o.rest && remain == o.remain && (eof <==> r == Eof)
           else r == PongFailed && remain == [] && !eof
    {
      if |remain| > 0 {
        var k := Min(n, |remain|);
        r := Data(remain[..k]);
        remain := remain[k..];
        return;
      }
      if eof {
        return Eof;
      }
      r := NextData(n);
    }

    /** The loop of Read: skip control frames up to a data frame. */
    method NextData(n: nat) returns (r: ReadResult)
      requires Valid() && remain == [] && !eof
      modifies this
      ensures Valid()
      ensures var o := ReadFrames(old(br), n);
        var all := old(sent) + Pongs(KeyOf(mask), o.pings);
        && sent == Cut(all, room)
        && if |all| <= room then r == o.result && br == o.rest && remain == o.remain && (eof <==> r == Eof)
           else r == PongFailed && remain == [] && !eof
    {
      hide Parse, ReadFrames, Pongs, Encode;
      ghost var goal := ReadFrames(br, n);
      ghost var seen: seq<Bytes> := [];
      PongsAppend(KeyOf(mask), [], []);
      while true
        invariant remain == [] && !eof
        invariant goal == ReadFrames(br, n).(pings := seen + ReadFrames(br, n).pings)
        invariant Valid() && sent == old(sent) + Pongs(KeyOf(mask), seen)
        decreases |br|
      {
        ReadFramesUnfold(br, n);
        ParseShortens(br);
        assert seen + [] == seen;
        var f := NextFrame();
        if f.None? {
          return Broken;
        }
        var (opcode, payload) := f.value;
        if opcode == CLOSE {
          eof := true;
          return Eof;
        } else if opcode == PING {
          PongsAppend(KeyOf(mask), seen, payload);
          PongsConcat(KeyOf(mask), seen + [payload], ReadFrames(br, n).pings);
          assert seen + ([payload] + ReadFrames(br, n).pings) == seen + [payload] + ReadFrames(br, n).pings;
          var ok := WriteFrame(PONG, payload);
          if !ok {
            return PongFailed;
          }
          seen := seen + [payload];
        } else if opcode == PONG {
        } else if opcode == BINARY || opcode == CONTINUATION {
          var k := Min(n, |payload|);
          remain := payload[k..];
          return Data(payload[..k]);
        } else {
          return Unsupported(opcode);
        }
      }
    }
  }
}
