/** A Conn against a peer that writes binary, ping and pong frames: over every run the bytes read
    are the bytes written, in order, and every ping is answered with its own payload. */
module WsStream {
  import opened Basics
  import opened WsFrame
  import opened WsConn

  // ---------- what a stretch of wire carries ----------

  /** The wire is a concatenation of whole data, ping and pong frames. */
  ghost predicate Whole(wire: Bytes)
    decreases |wire|
  {
    wire == [] ||
    (Parse(wire).Some? && Parse(wire).value.opcode in {BINARY, CONTINUATION, PING, PONG} && Whole(Parse(wire).value.rest))
  }

  ghost predicate IsData(opcode: byte) {
    opcode == BINARY || opcode == CONTINUATION
  }

  ghost function DataOn(wire: Bytes): Bytes
    decreases |wire|
  {
    match Parse(wire)
    case None => []
    case Some(f) => (if IsData(f.opcode) then f.payload else []) + DataOn(f.rest)
  }

  ghost function PingsOn(wire: Bytes): seq<Bytes>
    decreases |wire|
  {
    match Parse(wire)
    case None => []
    case Some(f) => (if f.opcode == PING then [f.payload] else []) + PingsOn(f.rest)
  }

  // ---------- the runs ----------

  datatype Event =
    | PeerFrame(opcode: byte, key: Option<Bytes>, payload: Bytes)
    | AppRead(n: nat)
  {
    /** What a peer that follows ws.go puts on the wire, masked or not. */
    ghost predicate Valid() {
      PeerFrame? ==> opcode in {BINARY, PING, PONG} && ValidKey(key) && |payload| < MAX_LENGTH
    }
  }

  /** `wire` is what the peer has sent and Read has not taken; `written`, `pinged` and `ponged` record
      the peer's data, the pings sent to us and the pongs sent back. */
  datatype State = State(wire: Bytes, remain: Bytes, written: Bytes, delivered: Bytes, pinged: seq<Bytes>, ponged: seq<Bytes>)

  const INIT := State([], [], [], [], [], [])

  /** A read that finds no data frame blocks after it has dealt with the control frames before it. */
  ghost function Step(s: State, e: Event): State
    requires e.Valid()
  {
    match e
    case PeerFrame(opcode, key, payload) =>
      s.(wire := s.wire + Encode(opcode, key, payload),
         written := s.written + (if opcode == BINARY then payload else []),
         pinged := s.pinged + (if opcode == PING then [payload] else []))
    case AppRead(n) =>
      if s.remain != [] then
        var k := Min(n, |s.remain|);
        s.(delivered := s.delivered + s.remain[..k], remain := s.remain[k..])
      else
        var o := ReadFrames(s.wire, n);
        s.(wire := o.rest, remain := o.remain, ponged := s.ponged + o.pings,
           delivered := s.delivered + (if o.result.Data? then o.result.bytes else []))
  }

  ghost function Run(events: seq<Event>): State
    requires forall e :: e in events ==> e.Valid()
  {
    if events == [] then INIT else Step(Run(events[..|events| - 1]), events[|events| - 1])
  }

  // ---------- frames on the wire ----------

  lemma ParsePayloadAppend(opcode: byte, masked: bool, length: nat, w: Bytes, x: Bytes)
    requires ParsePayload(opcode, masked, length, w).Some?
    ensures var p := ParsePayload(opcode, masked, length, w).value;
      ParsePayload(opcode, masked, length, w + x) == Some(p.(rest := p.rest + x))
  {
    var skip := if masked then 4 else 0;
    assert (w + x)[skip..skip + length] == w[skip..skip + length];
    assert (w + x)[skip + length..] == w[skip + length..] + x;
    assert masked ==> (w + x)[..4] == w[..4];
  }

  lemma ParseBodyAppend(opcode: byte, masked: bool, length7: nat, extra: nat, w: Bytes, x: Bytes)
    requires ParseBody(opcode, masked, length7, extra, w).Some?
    ensures var p := ParseBody(opcode, masked, length7, extra, w).value;
      ParseBody(opcode, masked, length7, extra, w + x) == Some(p.(rest := p.rest + x))
  {
    assert (w + x)[..extra] == w[..extra] && (w + x)[extra..] == w[extra..] + x;
    var length := if extra == 0 then length7 else FromBigEndian(w[..extra]);
    ParsePayloadAppend(opcode, masked, length, w[extra..], x);
  }

  lemma ParseAppend(w: Bytes, x: Bytes)
    requires Parse(w).Some?
    ensures Parse(w + x) == Some(Parse(w).value.(rest := Parse(w).value.rest + x))
  {
    var length7 := w[1] % 128;
    var extra := if length7 == 126 then 2 else if length7 == 127 then 8 else 0;
    assert (w + x)[2..] == w[2..] + x;
    ParseBodyAppend(w[0] % 16, w[1] >= 128, length7, extra, w[2..], x);
  }

  lemma ParseNothing()
    ensures Parse([]) == None
  {
  }

  lemma WireStep(w: Bytes)
    ensures if w == [] then Whole(w) && DataOn(w) == [] && PingsOn(w) == []
      else
        var f := Parse(w);
        && (Whole(w) <==> f.Some? && f.value.opcode in {BINARY, CONTINUATION, PING, PONG} && Whole(f.value.rest))
        && (Whole(w) ==>
              && DataOn(w) == (if IsData(f.value.opcode) then f.value.payload else []) + DataOn(f.value.rest)
              && PingsOn(w) == (if f.value.opcode == PING then [f.value.payload] else []) + PingsOn(f.value.rest))
  {
    ParseNothing();
    hide Parse;
  }

  lemma WireOne(w: Bytes, f: Parsed)
    requires Parse(w) == Some(f) && f.rest == [] && f.opcode in {BINARY, PING, PONG} && w != []
    ensures Whole(w)
    ensures DataOn(w) == if f.opcode == BINARY then f.payload else []
    ensures PingsOn(w) == if f.opcode == PING then [f.payload] else []
  {
    ParseNothing();
    hide Parse;
  }

  lemma {:induction false} WireGrows(w: Bytes, opcode: byte, key: Option<Bytes>, payload: Bytes)
    requires Whole(w) && PeerFrame(opcode, key, payload).Valid()
    ensures var w' := w + Encode(opcode, key, payload);
      && Whole(w')
      && DataOn(w') == DataOn(w) + (if opcode == BINARY then payload else [])
      && PingsOn(w') == PingsOn(w) + (if opcode == PING then [payload] else [])
    decreases |w|
  {
    hide Parse, Encode, Whole, DataOn, PingsOn;
    var frame := Encode(opcode, key, payload);
    WireStep(w);
    WireStep(w + frame);
    if w == [] {
      ParseEncode(opcode, key, payload, []);
      ParseNothing();
      assert w + frame == frame == frame + [];
      WireOne(frame, Parsed(opcode, payload, []));
    } else {
      var f := Parse(w).value;
      ParseAppend(w, frame);
      WireGrows(f.rest, opcode, key, payload);
      assert (if IsData(f.opcode) then f.payload else []) + (DataOn(f.rest) + (if opcode == BINARY then payload else []))
        == DataOn(w) + (if opcode == BINARY then payload else []);
    }
  }

  /** A read takes control frames and then one data frame, or all of the wire. */
  lemma {:induction false} ReadTakes(w: Bytes, n: nat)
    requires Whole(w)
    ensures var o := ReadFrames(w, n);
      && Whole(o.rest)
      && (o.result.Data? || (o.result.Broken? && o.rest == [] && o.remain == []))
      && (if o.result.Data? then o.result.bytes else []) + o.remain + DataOn(o.rest) == DataOn(w)
      && o.pings + PingsOn(o.rest) == PingsOn(w)
    decreases |w|
  {
    ReadFramesUnfold(w, n);
    ParseNothing();
    hide Parse, ReadFrames;
    if w != [] {
      var f := Parse(w).value;
      if f.opcode == PING || f.opcode == PONG {
        ReadTakes(f.rest, n);
        assert DataOn(w) == [] + DataOn(f.rest) == DataOn(f.rest);
      } else {
        var k := Min(n, |f.payload|);
        assert f.payload[..k] + f.payload[k..] == f.payload;
      }
    }
  }

  // ---------- the theorem ----------

  ghost predicate Inv(s: State) {
    && Whole(s.wire)
    && s.delivered + s.remain + DataOn(s.wire) == s.written
    && s.ponged + PingsOn(s.wire) == s.pinged
  }

  lemma StepKeepsInv(s: State, e: Event)
    requires Inv(s) && e.Valid()
    ensures Inv(Step(s, e))
  {
    hide Whole, DataOn, PingsOn, Encode, ReadFrames;
    match e {
      case PeerFrame(opcode, key, payload) =>
        WireGrows(s.wire, opcode, key, payload);
        var d := if opcode == BINARY then payload else [];
        assert s.delivered + s.remain + (DataOn(s.wire) + d) == s.written + d;
        var p := if opcode == PING then [payload] else [];
        assert s.ponged + (PingsOn(s.wire) + p) == s.pinged + p;
      case AppRead(n) =>
        if s.remain != [] {
          var k := Min(n, |s.remain|);
          assert s.delivered + s.remain[..k] + s.remain[k..] == s.delivered + s.remain;
        } else {
          ReadTakes(s.wire, n);
          var o := ReadFrames(s.wire, n);
          var d := if o.result.Data? then o.result.bytes else [];
          assert s.delivered + d + o.remain + DataOn(o.rest) == s.delivered + (d + o.remain + DataOn(o.rest));
          assert s.delivered + s.remain == s.delivered;
          assert s.ponged + o.pings + PingsOn(o.rest) == s.ponged + (o.pings + PingsOn(o.rest));
        }
    }
  }

  /** Over every run, what was delivered, then the leftovers, then the data still on the wire is what
      the peer wrote; and the pongs sent, then the pings still on the wire are the pings received. */
  lemma {:induction false} StreamRefines(events: seq<Event>)
    requires forall e :: e in events ==> e.Valid()
    ensures Inv(Run(events))
  {
    if events == [] {
      ParseNothing();
    } else {
      StreamRefines(events[..|events| - 1]);
      StepKeepsInv(Run(events[..|events| - 1]), events[|events| - 1]);
    }
  }

  ghost predicate FirstDataNonempty(wire: Bytes)
    decreases |wire|
  {
    match Parse(wire)
    case None => false
    case Some(f) =>
      if IsData(f.opcode) then f.payload != []
      else f.opcode in {PING, PONG} && FirstDataNonempty(f.rest)
  }

  lemma {:induction false} FirstDataRead(w: Bytes, n: nat)
    requires n > 0 && FirstDataNonempty(w)
    ensures ReadFrames(w, n).result.Data? && ReadFrames(w, n).result.bytes != []
    decreases |w|
  {
    ReadFramesUnfold(w, n);
    hide Parse, ReadFrames;
    var f := Parse(w).value;
    if !IsData(f.opcode) {
      ParseShortens(w);
      FirstDataRead(f.rest, n);
    }
  }

  /** A read with a nonempty buffer makes progress whenever data of at least one byte is waiting in the
      leftovers or in the first data frame of the wire. */
  lemma ReadProgress(events: seq<Event>, n: nat)
    requires forall e :: e in events ==> e.Valid()
    requires n > 0 && (Run(events).remain != [] || FirstDataNonempty(Run(events).wire))
    ensures |Step(Run(events), AppRead(n)).delivered| > |Run(events).delivered|
  {
    var s := Run(events);
    if s.remain == [] {
      FirstDataRead(s.wire, n);
    }
  }
}
