/** Several goroutines writing frames on one connection (Write, and the pong reply inside Read), at the
    granularity of single writes to the connection; wmu in src/ws/ws.go keeps frames whole. */
module WsLock {
  import opened Basics
  import opened WsFrame

  type Thread = nat

  type Opcode = x: byte | x < 16

  datatype Frame = Frame(opcode: Opcode, payload: Bytes) {
    ghost predicate Valid() {
      |payload| < MAX_LENGTH
    }
  }

  /** Where a thread is inside writeFrame. */
  datatype Pc = Idle | Waiting(f: Frame) | Locked(f: Frame) | HeadWritten(f: Frame) | BodyWritten(f: Frame)

  /** `calls` are the writeFrame calls made so far, in order of the calls of each thread. */
  datatype State = State(wire: Bytes, holder: Option<Thread>, pcs: map<Thread, Pc>, calls: seq<(Thread, Frame)>)

  function PcOf(s: State, t: Thread): Pc {
    if t in s.pcs then s.pcs[t] else Idle
  }

  datatype Step = Call(t: Thread, f: Frame) | Lock(t: Thread) | WriteHead(t: Thread) | WriteBody(t: Thread) | Unlock(t: Thread)

  ghost predicate Enabled(s: State, e: Step) {
    match e
    case Call(t, f) => f.Valid() && PcOf(s, t).Idle?
    case Lock(t) => PcOf(s, t).Waiting? && s.holder.None?
    case WriteHead(t) => PcOf(s, t).Locked?
    case WriteBody(t) => PcOf(s, t).HeadWritten?
    case Unlock(t) => PcOf(s, t).BodyWritten?
  }

  ghost function Next(s: State, key: Option<Bytes>, e: Step): State
    requires ValidKey(key) && Enabled(s, e)
  {
    match e
    case Call(t, f) => s.(pcs := s.pcs[t := Waiting(f)], calls := s.calls + [(t, f)])
    case Lock(t) => s.(pcs := s.pcs[t := Locked(PcOf(s, t).f)], holder := Some(t))
    case WriteHead(t) =>
      var f := PcOf(s, t).f;
      s.(pcs := s.pcs[t := HeadWritten(f)], wire := s.wire + Head(f.opcode, key, |f.payload|))
    case WriteBody(t) =>
      var f := PcOf(s, t).f;
      s.(pcs := s.pcs[t := BodyWritten(f)], wire := s.wire + Body(key, f.payload))
    case Unlock(t) => s.(pcs := s.pcs[t := Idle], holder := None)
  }

  ghost predicate PcsValid(s: State) {
    forall t: Thread :: t in s.pcs && !s.pcs[t].Idle? ==> s.pcs[t].f.Valid()
  }

  const INIT := State([], None, map[], [])

  /** The states along a run; every step is enabled where it is taken. */
  ghost predicate IsRun(key: Option<Bytes>, states: seq<State>, steps: seq<Step>)
    requires ValidKey(key)
  {
    && |states| == |steps| + 1 && states[0] == INIT
    && forall i :: 0 <= i < |steps| ==>
      Enabled(states[i], steps[i]) && states[i + 1] == Next(states[i], key, steps[i])
  }

  // ---------- the invariant ----------

  ghost function EncodeAll(key: Option<Bytes>, log: seq<(Thread, Frame)>): Bytes
    requires ValidKey(key)
  {
    if log == [] then []
    else EncodeAll(key, log[..|log| - 1]) + Encode(log[|log| - 1].1.opcode, key, log[|log| - 1].1.payload)
  }

  ghost function Of(log: seq<(Thread, Frame)>, t: Thread): seq<Frame> {
    if log == [] then []
    else Of(log[..|log| - 1], t) + (if log[|log| - 1].0 == t then [log[|log| - 1].1] else [])
  }

  /** The frame that a thread has called for and not yet put fully on the wire. */
  ghost function Pending(pc: Pc): seq<Frame> {
    if pc.Waiting? || pc.Locked? || pc.HeadWritten? then [pc.f] else []
  }

  ghost predicate Holds(pc: Pc) {
    pc.Locked? || pc.HeadWritten? || pc.BodyWritten?
  }

  ghost predicate MutualExclusion(s: State) {
    forall t: Thread :: s.holder == Some(t) <==> Holds(PcOf(s, t))
  }

  /** Whole frames, except for the header of the holder's frame. */
  ghost predicate WireWhole(s: State, key: Option<Bytes>, log: seq<(Thread, Frame)>)
    requires ValidKey(key)
  {
    s.wire == EncodeAll(key, log) +
      if s.holder.Some? && PcOf(s, s.holder.value).HeadWritten?
      then (var f := PcOf(s, s.holder.value).f; Head(f.opcode, key, |f.payload|)) else []
  }

  /** Every thread's frames, in the order of its calls. */
  ghost predicate InCallOrder(s: State, log: seq<(Thread, Frame)>) {
    forall t: Thread :: Of(log, t) + Pending(PcOf(s, t)) == Of(s.calls, t)
  }

  ghost predicate LogValid(log: seq<(Thread, Frame)>) {
    forall i :: 0 <= i < |log| ==> log[i].1.Valid()
  }

  /** `log` lists the frames that are fully on the wire. */
  ghost predicate Inv(s: State, key: Option<Bytes>, log: seq<(Thread, Frame)>)
    requires ValidKey(key)
  {
    && PcsValid(s) && LogValid(log)
    && MutualExclusion(s) && WireWhole(s, key, log) && InCallOrder(s, log)
  }

  lemma OfAppend(log: seq<(Thread, Frame)>, x: (Thread, Frame), t: Thread)
    ensures Of(log + [x], t) == Of(log, t) + (if x.0 == t then [x.1] else [])
  {
    assert (log + [x])[..|log|] == log;
  }

  lemma EncodeAllAppend(key: Option<Bytes>, log: seq<(Thread, Frame)>, x: (Thread, Frame))
    requires ValidKey(key)
    ensures EncodeAll(key, log + [x]) == EncodeAll(key, log) + Head(x.1.opcode, key, |x.1.payload|) + Body(key, x.1.payload)
  {
    assert (log + [x])[..|log|] == log;
    hide Head, Body;
  }

  ghost function NextLog(s: State, e: Step, log: seq<(Thread, Frame)>): seq<(Thread, Frame)>
    requires Enabled(s, e)
  {
    if e.WriteBody? then log + [(e.t, PcOf(s, e.t).f)] else log
  }

  lemma PcAfter(s: State, key: Option<Bytes>, e: Step, t: Thread)
    requires ValidKey(key) && Enabled(s, e) && t != e.t
    ensures PcOf(Next(s, key, e), t) == PcOf(s, t)
  {
  }

  lemma StepKeepsExclusion(s: State, key: Option<Bytes>, e: Step)
    requires ValidKey(key) && MutualExclusion(s) && Enabled(s, e)
    ensures MutualExclusion(Next(s, key, e))
  {
    var s' := Next(s, key, e);
    forall t: Thread ensures s'.holder == Some(t) <==> Holds(PcOf(s', t)) {
      if t != e.t {
        PcAfter(s, key, e, t);
        assert s.holder == Some(t) <==> Holds(PcOf(s, t));
      }
      assert s.holder == Some(e.t) <==> Holds(PcOf(s, e.t));
    }
  }

  lemma StepKeepsWire(s: State, key: Option<Bytes>, log: seq<(Thread, Frame)>, e: Step)
    requires ValidKey(key) && MutualExclusion(s) && WireWhole(s, key, log) && Enabled(s, e)
    ensures WireWhole(Next(s, key, e), key, NextLog(s, e, log))
  {
    hide Head, Body, EncodeAll, Encode;
    assert s.holder == Some(e.t) <==> Holds(PcOf(s, e.t));
    if s.holder.Some? && s.holder.value != e.t {
      PcAfter(s, key, e, s.holder.value);
    }
    if e.WriteBody? {
      EncodeAllAppend(key, log, (e.t, PcOf(s, e.t).f));
    }
  }

  lemma StepKeepsOrder(s: State, key: Option<Bytes>, log: seq<(Thread, Frame)>, e: Step)
    requires ValidKey(key) && InCallOrder(s, log) && Enabled(s, e)
    ensures InCallOrder(Next(s, key, e), NextLog(s, e, log))
  {
    hide Head, Body, Of;
    var s', log' := Next(s, key, e), NextLog(s, e, log);
    forall t: Thread ensures Of(log', t) + Pending(PcOf(s', t)) == Of(s'.calls, t) {
      if t != e.t {
        PcAfter(s, key, e, t);
      }
      if e.Call? {
        OfAppend(s.calls, (e.t, e.f), t);
      }
      if e.WriteBody? {
        OfAppend(log, (e.t, PcOf(s, e.t).f), t);
      }
      assert Of(log, t) + Pending(PcOf(s, t)) == Of(s.calls, t);
    }
  }

  lemma StepKeepsValid(s: State, key: Option<Bytes>, log: seq<(Thread, Frame)>, e: Step)
    requires ValidKey(key) && PcsValid(s) && LogValid(log) && Enabled(s, e)
    ensures PcsValid(Next(s, key, e)) && LogValid(NextLog(s, e, log))
  {
  }

  lemma StepKeepsInv(s: State, key: Option<Bytes>, log: seq<(Thread, Frame)>, e: Step)
    requires ValidKey(key) && Inv(s, key, log) && Enabled(s, e)
    ensures Inv(Next(s, key, e), key, NextLog(s, e, log))
  {
    StepKeepsValid(s, key, log, e);
    StepKeepsExclusion(s, key, e);
    StepKeepsWire(s, key, log, e);
    StepKeepsOrder(s, key, log, e);
    hide PcsValid, LogValid, MutualExclusion, WireWhole, InCallOrder, NextLog;
  }

  lemma {:induction false} RunKeepsInv(key: Option<Bytes>, states: seq<State>, steps: seq<Step>)
    returns (log: seq<(Thread, Frame)>)
    requires ValidKey(key) && IsRun(key, states, steps)
    ensures Inv(states[|steps|], key, log)
  {
    if steps == [] {
      log := [];
      assert MutualExclusion(INIT) && WireWhole(INIT, key, []) && InCallOrder(INIT, []);
    } else {
      var n := |steps| - 1;
      var before := RunKeepsInv(key, states[..n + 1], steps[..n]);
      StepKeepsInv(states[n], key, before, steps[n]);
      log := NextLog(states[n], steps[n], before);
    }
  }

  // ---------- what the other side sees ----------

  /** The frames that Parse takes off the wire one after the other. */
  ghost function Frames(wire: Bytes): seq<Frame>
    decreases |wire|
  {
    match Parse(wire)
    case None => []
    case Some(p) => [Frame(p.opcode, p.payload)] + Frames(p.rest)
  }

  ghost function Logged(log: seq<(Thread, Frame)>): seq<Frame> {
    seq(|log|, i requires 0 <= i < |log| => log[i].1)
  }

  lemma {:induction false} FramesOfEncodeAll(key: Option<Bytes>, log: seq<(Thread, Frame)>, tail: Bytes)
    requires ValidKey(key) && LogValid(log)
    ensures Frames(EncodeAll(key, log) + tail) == Logged(log) + Frames(tail)
    decreases |log|
  {
    hide Parse, Encode;
    if log == [] {
      assert EncodeAll(key, log) + tail == tail;
    } else {
      var n := |log| - 1;
      var f := log[n].1;
      var frame := Encode(f.opcode, key, f.payload);
      ParseEncode(f.opcode, key, f.payload, tail);
      FramesOfEncodeAll(key, log[..n], frame + tail);
      assert EncodeAll(key, log) + tail == EncodeAll(key, log[..n]) + (frame + tail);
      assert Frames(frame + tail) == [f] + Frames(tail);
      assert Logged(log) == Logged(log[..n]) + [f];
    }
  }

  /** Whenever the lock is free, the wire is a sequence of whole frames, and they are, thread by
      thread and in order, exactly the frames whose writeFrame calls have got past the lock. */
  lemma LockKeepsFramesWhole(key: Option<Bytes>, states: seq<State>, steps: seq<Step>) returns (log: seq<(Thread, Frame)>)
    requires ValidKey(key) && IsRun(key, states, steps) && states[|steps|].holder.None?
    ensures states[|steps|].wire == EncodeAll(key, log) && Frames(states[|steps|].wire) == Logged(log)
    ensures forall t: Thread :: Of(log, t) <= Of(states[|steps|].calls, t)
    ensures forall t: Thread :: PcOf(states[|steps|], t).Idle? ==> Of(log, t) == Of(states[|steps|].calls, t)
  {
    log := RunKeepsInv(key, states, steps);
    FramesOfEncodeAll(key, log, []);
    assert EncodeAll(key, log) + [] == EncodeAll(key, log);
    assert Frames([]) == [];
  }
}
