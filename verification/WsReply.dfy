/** Reading and writing at once on one connection of src/ws/ws.go: writers call Write, one reader calls Read
    and answers every ping with a pong of the same payload, under the lock of WsLock. */
module WsReply {
  import opened Basics
  import opened WsFrame
  import opened WsLock
  import WsStream

  const READER: Thread := 0

  /** `arrived` is all that the peer has sent, `incoming` what Read has not taken of it, and `pinged` the pings
      among the frames that it has taken; after a close frame it takes no more. */
  datatype Duplex = Duplex(out: State, incoming: Bytes, arrived: Bytes, pinged: seq<Bytes>, eof: bool)

  const START := Duplex(INIT, [], [], [], false)

  datatype Move =
    | Arrive(bytes: Bytes)          // from the peer, in pieces of any size
    | Take                          // Read takes a frame, and calls writeFrame for a ping
    | Write(t: Thread, data: Bytes) // Write calls writeFrame
    | Advance(e: Step)              // a thread inside writeFrame goes on

  ghost predicate Can(d: Duplex, m: Move) {
    match m
    case Arrive(_) => true
    case Take =>
      PcOf(d.out, READER).Idle? && !d.eof && Parse(d.incoming).Some? && |Parse(d.incoming).value.payload| < MAX_LENGTH
    case Write(t, data) => t != READER && PcOf(d.out, t).Idle? && |data| < MAX_LENGTH
    case Advance(e) => !e.Call? && Enabled(d.out, e)
  }

  ghost function Taken(d: Duplex, key: Option<Bytes>, f: Parsed): Duplex
    requires ValidKey(key) && PcOf(d.out, READER).Idle? && |f.payload| < MAX_LENGTH
  {
    if f.opcode == PING then
      d.(out := Next(d.out, key, Call(READER, Frame(PONG, f.payload))), incoming := f.rest, pinged := d.pinged + [f.payload])
    else d.(incoming := f.rest, eof := f.opcode == CLOSE)
  }

  ghost function After(d: Duplex, key: Option<Bytes>, m: Move): Duplex
    requires ValidKey(key) && Can(d, m)
  {
    match m
    case Arrive(bytes) => d.(incoming := d.incoming + bytes, arrived := d.arrived + bytes)
    case Take => Taken(d, key, Parse(d.incoming).value)
    case Write(t, data) => d.(out := Next(d.out, key, Call(t, Frame(BINARY, data))))
    case Advance(e) => d.(out := Next(d.out, key, e))
  }

  ghost predicate IsRun(key: Option<Bytes>, states: seq<Duplex>, moves: seq<Move>)
    requires ValidKey(key)
  {
    && |states| == |moves| + 1 && states[0] == START
    && forall i :: 0 <= i < |moves| ==> Can(states[i], moves[i]) && states[i + 1] == After(states[i], key, moves[i])
  }

  // ---------- the invariant ----------

  ghost function PongFrames(pings: seq<Bytes>): seq<Frame>
  {
    seq(|pings|, i requires 0 <= i < |pings| => Frame(PONG, pings[i]))
  }

  /** The reader writes pongs and the writers write data. */
  ghost predicate ByThread(calls: seq<(Thread, Frame)>) {
    forall i :: 0 <= i < |calls| ==> calls[i].1.opcode == if calls[i].0 == READER then PONG else BINARY
  }

  /** The pings taken so far are those of the arrived bytes that are not still to come. */
  ghost predicate Accounted(d: Duplex) {
    forall x: Bytes :: WsStream.PingsOn(d.arrived + x) == d.pinged + WsStream.PingsOn(d.incoming + x)
  }

  ghost predicate Answers(d: Duplex) {
    && ByThread(d.out.calls)
    && Of(d.out.calls, READER) == PongFrames(d.pinged)
  }

  ghost predicate Inv(d: Duplex, key: Option<Bytes>, log: seq<(Thread, Frame)>)
    requires ValidKey(key)
  {
    WsLock.Inv(d.out, key, log) && Answers(d) && Accounted(d)
  }

  ghost function LogAfter(d: Duplex, m: Move, log: seq<(Thread, Frame)>): seq<(Thread, Frame)>
    requires Can(d, m)
  {
    if m.Advance? then NextLog(d.out, m.e, log) else log
  }

  /** What a move does to the writing side: nothing, or one step of it. */
  ghost function Inner(d: Duplex, m: Move): Option<Step>
    requires Can(d, m)
  {
    match m
    case Arrive(_) => None
    case Take =>
      var f := Parse(d.incoming).value;
      if f.opcode == PING then Some(Call(READER, Frame(PONG, f.payload))) else None
    case Write(t, data) => Some(Call(t, Frame(BINARY, data)))
    case Advance(e) => Some(e)
  }

  lemma InnerStep(d: Duplex, key: Option<Bytes>, m: Move, log: seq<(Thread, Frame)>)
    requires ValidKey(key) && Can(d, m)
    ensures Inner(d, m).None? ==> After(d, key, m).out == d.out && LogAfter(d, m, log) == log
    ensures Inner(d, m).Some? ==>
      var e := Inner(d, m).value;
      && Enabled(d.out, e) && After(d, key, m).out == Next(d.out, key, e)
      && LogAfter(d, m, log) == NextLog(d.out, e, log)
  {
    hide Parse, Next;
  }

  lemma LockSideKept(d: Duplex, key: Option<Bytes>, m: Move, log: seq<(Thread, Frame)>)
    requires ValidKey(key) && WsLock.Inv(d.out, key, log) && Can(d, m)
    ensures WsLock.Inv(After(d, key, m).out, key, LogAfter(d, m, log))
  {
    hide WsLock.Inv, Enabled, Next, NextLog, After, LogAfter, Inner;
    InnerStep(d, key, m, log);
    if Inner(d, m).Some? {
      WsLock.StepKeepsInv(d.out, key, log, Inner(d, m).value);
    }
  }

  lemma PongFramesAppend(pings: seq<Bytes>, p: Bytes)
    ensures PongFrames(pings + [p]) == PongFrames(pings) + [Frame(PONG, p)]
  {
  }

  /** A further writeFrame call. */
  lemma CallAnswers(calls: seq<(Thread, Frame)>, t: Thread, f: Frame)
    requires ByThread(calls) && f.opcode == if t == READER then PONG else BINARY
    ensures ByThread(calls + [(t, f)])
    ensures Of(calls + [(t, f)], READER) == Of(calls, READER) + (if t == READER then [f] else [])
  {
    OfAppend(calls, (t, f), READER);
  }

  lemma AnswersKept(d: Duplex, key: Option<Bytes>, m: Move)
    requires ValidKey(key) && Answers(d) && Can(d, m)
    ensures Answers(After(d, key, m))
  {
    hide Parse, Of, ByThread, PongFrames, Enabled;
    match m
    case Arrive(_) =>
    case Take =>
      var f := Parse(d.incoming).value;
      CallAnswers(d.out.calls, READER, Frame(PONG, f.payload));
      PongFramesAppend(d.pinged, f.payload);
    case Write(t, data) => CallAnswers(d.out.calls, t, Frame(BINARY, data));
    case Advance(e) =>
  }

  /** A frame taken off the front. */
  lemma TakenAccounted(incoming: Bytes, x: Bytes)
    requires Parse(incoming).Some?
    ensures var f := Parse(incoming).value;
      WsStream.PingsOn(incoming + x) == (if f.opcode == PING then [f.payload] else []) + WsStream.PingsOn(f.rest + x)
  {
    WsStream.ParseAppend(incoming, x);
    hide Parse;
  }

  lemma AccountedKept(d: Duplex, key: Option<Bytes>, m: Move)
    requires ValidKey(key) && Accounted(d) && Can(d, m)
    ensures Accounted(After(d, key, m))
  {
    hide Parse, WsStream.PingsOn, Enabled, Next;
    var d' := After(d, key, m);
    forall x: Bytes ensures WsStream.PingsOn(d'.arrived + x) == d'.pinged + WsStream.PingsOn(d'.incoming + x) {
      if m.Arrive? {
        Assoc(d.arrived, m.bytes, x);
        Assoc(d.incoming, m.bytes, x);
        assert WsStream.PingsOn(d.arrived + (m.bytes + x)) == d.pinged + WsStream.PingsOn(d.incoming + (m.bytes + x));
      } else if m.Take? {
        TakenAccounted(d.incoming, x);
        assert WsStream.PingsOn(d.arrived + x) == d.pinged + WsStream.PingsOn(d.incoming + x);
        var f := Parse(d.incoming).value;
        Assoc(d.pinged, if f.opcode == PING then [f.payload] else [], WsStream.PingsOn(f.rest + x));
      }
    }
  }

  lemma StartInv(key: Option<Bytes>)
    requires ValidKey(key)
    ensures Inv(START, key, [])
  {
    assert MutualExclusion(INIT) && WireWhole(INIT, key, []) && InCallOrder(INIT, []);
    assert Of([], READER) == PongFrames([]);
  }

  lemma {:induction false} RunKeepsInv(key: Option<Bytes>, states: seq<Duplex>, moves: seq<Move>)
    returns (log: seq<(Thread, Frame)>)
    requires ValidKey(key) && IsRun(key, states, moves)
    ensures Inv(states[|moves|], key, log)
  {
    if moves == [] {
      log := [];
      StartInv(key);
    } else {
      var n := |moves| - 1;
      var before := RunKeepsInv(key, states[..n + 1], moves[..n]);
      hide WsLock.Inv, Answers, Accounted, Can, After, LogAfter;
      LockSideKept(states[n], key, moves[n], before);
      AnswersKept(states[n], key, moves[n]);
      AccountedKept(states[n], key, moves[n]);
      log := LogAfter(states[n], moves[n], before);
    }
  }

  // ---------- the pongs on the wire ----------

  /** The payloads of the pong frames. */
  ghost function PongsIn(frames: seq<Frame>): seq<Bytes> {
    if frames == [] then []
    else
      var last := frames[|frames| - 1];
      PongsIn(frames[..|frames| - 1]) + (if last.opcode == PONG then [last.payload] else [])
  }

  lemma {:induction false} OfHolds(log: seq<(Thread, Frame)>, i: nat)
    requires i < |log|
    ensures log[i].1 in Of(log, log[i].0)
  {
    if i < |log| - 1 {
      OfHolds(log[..|log| - 1], i);
    }
  }

  lemma {:induction false} OfComesFrom(log: seq<(Thread, Frame)>, t: Thread, f: Frame) returns (i: nat)
    requires f in Of(log, t)
    ensures i < |log| && log[i] == (t, f)
  {
    var n := |log| - 1;
    if log[n] == (t, f) {
      i := n;
    } else {
      i := OfComesFrom(log[..n], t, f);
    }
  }

  /** What is on the wire was called for, and so is a pong exactly if the reader wrote it. */
  lemma LogByThread(s: State, log: seq<(Thread, Frame)>)
    requires InCallOrder(s, log) && ByThread(s.calls)
    ensures ByThread(log)
  {
    forall i | 0 <= i < |log| ensures log[i].1.opcode == if log[i].0 == READER then PONG else BINARY {
      var t, f := log[i].0, log[i].1;
      OfHolds(log, i);
      assert Of(log, t) + Pending(PcOf(s, t)) == Of(s.calls, t);
      assert f in Of(s.calls, t);
      var j := OfComesFrom(s.calls, t, f);
    }
  }

  lemma {:induction false} PongsOfLog(log: seq<(Thread, Frame)>)
    requires ByThread(log)
    ensures Of(log, READER) == PongFrames(PongsIn(Logged(log)))
  {
    if log == [] {
    } else {
      var n := |log| - 1;
      PongsOfLog(log[..n]);
      assert Logged(log)[..n] == Logged(log[..n]);
      PongFramesAppend(PongsIn(Logged(log[..n])), log[n].1.payload);
      hide PongFrames;
    }
  }

  lemma SamePayloads(pongs: seq<Bytes>, pending: seq<Frame>, pings: seq<Bytes>)
    requires PongFrames(pongs) + pending == PongFrames(pings)
    ensures pongs <= pings && |pings| == |pongs| + |pending|
  {
    var all := PongFrames(pongs) + pending;
    assert |all| == |pings|;
    forall i | 0 <= i < |pongs| ensures pongs[i] == pings[i] {
      assert all[i] == Frame(PONG, pongs[i]) && all[i] == Frame(PONG, pings[i]);
    }
  }

  lemma AllArrived(d: Duplex)
    requires Accounted(d)
    ensures d.pinged + WsStream.PingsOn(d.incoming) == WsStream.PingsOn(d.arrived)
  {
    assert d.arrived + [] == d.arrived && d.incoming + [] == d.incoming;
  }

  lemma NothingLeft()
    ensures Frames([]) == []
  {
  }

  /** Reading and writing at once, at the granularity of single writes. At every moment the pongs that are
      whole on the wire carry the payloads of the first pings taken, in order, and at most one pong is
      missing. With the lock free and the reader outside writeFrame, the wire is whole frames whose pongs
      are exactly the pings among the frames that arrived and are not still waiting. */
  lemma PongsAnswerPings(key: Option<Bytes>, states: seq<Duplex>, moves: seq<Move>) returns (log: seq<(Thread, Frame)>)
    requires ValidKey(key) && IsRun(key, states, moves)
    ensures var d := states[|moves|];
      && WireWhole(d.out, key, log) && InCallOrder(d.out, log)
      && PongsIn(Logged(log)) <= d.pinged && |d.pinged| <= |PongsIn(Logged(log))| + 1
      && d.pinged + WsStream.PingsOn(d.incoming) == WsStream.PingsOn(d.arrived)
    ensures var d := states[|moves|];
      d.out.holder.None? && PcOf(d.out, READER).Idle? ==>
        Frames(d.out.wire) == Logged(log) && PongsIn(Frames(d.out.wire)) == d.pinged
  {
    log := RunKeepsInv(key, states, moves);
    var d := states[|moves|];
    LogByThread(d.out, log);
    PongsOfLog(log);
    assert Of(log, READER) + Pending(PcOf(d.out, READER)) == Of(d.out.calls, READER);
    SamePayloads(PongsIn(Logged(log)), Pending(PcOf(d.out, READER)), d.pinged);
    AllArrived(d);
    hide Of, PongsIn, PongFrames, Frames, Parse, EncodeAll, Logged, IsRun, WsStream.PingsOn;
    if d.out.holder.None? {
      FramesOfEncodeAll(key, log, []);
      NothingLeft();
      assert EncodeAll(key, log) + [] == EncodeAll(key, log);
      assert Logged(log) + [] == Logged(log);
    }
  }
}
