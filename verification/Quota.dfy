/** Traffic counting, quota rollover and persistence of src/server/protection.go, at the granularity
    of single atomic operations: the counter is updated without the lock. */
module Quota {
  import opened Basics

  type Time = int

  const DAY: int := 24 * 60 * 60 * 1_000_000_000

  /** quotaState, the content of traffic.txt. */
  datatype Saved = Saved(windowStart: Time, total: nat)

  /** Where the holder of the lock is: in maybeRollover after the counter was cleared, about to load the
      counter in persistLocked, about to write the file, or with the file truncated and not yet filled. */
  datatype Holder = Free | Cleared | Persisting | Writing(image: Saved) | Filling(image: Saved)

  /** The file is None while it cannot be read. `last` is the last pair that was written whole, and `counted`
      are the bytes counted since the last rollover or restart, on top of what was restored. */
  datatype State = State(total: nat, windowStart: Time, disk: Option<Saved>, last: Option<Saved>,
                         holder: Holder, now: Time, counted: nat)

  datatype Step =
    | Tick(to: Time)         // the clock never goes back
    | Count(n: nat)          // countingConn
    | StartRollover          // the lock, the check, and clearing the counter
    | StampWindow            // windowStart = time.Now()
    | StartPersist           // persistTotal takes the lock
    | LoadImage              // persistLocked reads the counter
    | TruncateFile           // os.WriteFile opens and truncates the file
    | FillFile               // and writes it; the lock is released
    | FailFile               // or fails before or after truncating, which goes unnoticed
    | Restart                // crash, and a new process loads the file if it can be read

  predicate Due(s: State, quotaDays: nat) {
    quotaDays > 0 && s.now - s.windowStart > quotaDays * DAY
  }

  ghost predicate Enabled(s: State, quotaDays: nat, e: Step) {
    match e
    case Tick(to) => to >= s.now
    case Count(n) => true
    case StartRollover => s.holder.Free? && Due(s, quotaDays)
    case StampWindow => s.holder.Cleared?
    case StartPersist => s.holder.Free?
    case LoadImage => s.holder.Persisting?
    case TruncateFile => s.holder.Writing?
    case FillFile => s.holder.Filling?
    case FailFile => s.holder.Writing? || s.holder.Filling?
    case Restart => true
  }

  ghost function Next(s: State, quotaDays: nat, e: Step): State
    requires Enabled(s, quotaDays, e)
  {
    match e
    case Tick(to) => s.(now := to)
    case Count(n) => s.(total := s.total + n, counted := s.counted + n)
    case StartRollover => s.(total := 0, counted := 0, holder := Cleared)
    case StampWindow => s.(windowStart := s.now, holder := Persisting)
    case StartPersist => s.(holder := Persisting)
    case LoadImage => s.(holder := Writing(Saved(s.windowStart, s.total)))
    case TruncateFile => s.(disk := None, holder := Filling(s.holder.image))
    case FillFile => s.(disk := Some(s.holder.image), last := Some(s.holder.image), holder := Free)
    case FailFile => s.(holder := Free)
    case Restart =>
      match s.disk
      case None => s.(total := 0, counted := 0, windowStart := s.now, holder := Free)
      case Some(d) => s.(total := d.total, counted := d.total, windowStart := d.windowStart, holder := Free)
  }

  /** The states along some steps; every step is enabled where it is taken. */
  ghost predicate Follows(quotaDays: nat, states: seq<State>, steps: seq<Step>) {
    && |states| == |steps| + 1
    && forall i :: 0 <= i < |steps| ==>
      Enabled(states[i], quotaDays, steps[i]) && states[i + 1] == Next(states[i], quotaDays, steps[i])
  }

  ghost predicate IsRun(quotaDays: nat, states: seq<State>, steps: seq<Step>) {
    Follows(quotaDays, states, steps) && states[0] == State(0, states[0].now, None, None, Free, states[0].now, 0)
  }

  /** Lexicographic order. */
  predicate Below(a: Saved, b: Saved) {
    a.windowStart < b.windowStart || (a.windowStart == b.windowStart && a.total <= b.total)
  }

  ghost predicate LastBelow(s: State, b: Saved) {
    s.last.Some? ==> Below(s.last.value, b)
  }

  /** The file never runs ahead of memory, except while a rollover has cleared the counter and not yet
      stamped the new window, when the lock keeps every writer out. */
  ghost predicate Inv(s: State) {
    && s.total == s.counted
    && s.windowStart <= s.now
    && (s.disk.Some? ==> s.last == s.disk)
    && (s.last.Some? ==> s.last.value.windowStart <= s.windowStart)
    && match s.holder
       case Free => LastBelow(s, Saved(s.windowStart, s.total))
       case Cleared => s.windowStart < s.now
       case Persisting => LastBelow(s, Saved(s.windowStart, s.total))
       case Writing(image) => LastBelow(s, image) && image.windowStart == s.windowStart && image.total <= s.total
       case Filling(image) =>
         s.disk.None? && LastBelow(s, image) && image.windowStart == s.windowStart && image.total <= s.total
  }

  /** A crash that finds the file unreadable loses the total. The new window starts at the crash: the pair that
      was written last is not undercut if its window began earlier or if it counted nothing. */
  predicate Harmless(s: State) {
    s.disk.Some? || s.last.None? || s.last.value.windowStart < s.now || s.last.value.total == 0
  }

  lemma StepKeepsInv(s: State, quotaDays: nat, e: Step)
    requires Inv(s) && Enabled(s, quotaDays, e) && (e == Restart ==> Harmless(s))
    ensures var t := Next(s, quotaDays, e);
      && Inv(t)
      && (s.last.Some? ==> t.last.Some? && Below(s.last.value, t.last.value))
      && (t.disk.Some? || s.disk.None? || e == TruncateFile)
  {
  }

  /** No restart of the run finds the file torn within the clock reading in which the window of a nonzero
      total began. */
  ghost predicate RestartsHarmless(states: seq<State>, steps: seq<Step>)
    requires |states| == |steps| + 1
  {
    forall i :: 0 <= i < |steps| && steps[i] == Restart ==> Harmless(states[i])
  }

  lemma {:induction false} RunKeepsInv(quotaDays: nat, states: seq<State>, steps: seq<Step>, i: nat)
    requires IsRun(quotaDays, states, steps) && RestartsHarmless(states, steps) && i <= |steps|
    ensures Inv(states[i])
  {
    if i == 0 {
    } else {
      RunKeepsInv(quotaDays, states, steps, i - 1);
      StepKeepsInv(states[i - 1], quotaDays, steps[i - 1]);
    }
  }

  lemma {:induction false} LastNeverDecreases(quotaDays: nat, states: seq<State>, steps: seq<Step>, i: nat, j: nat)
    requires IsRun(quotaDays, states, steps) && RestartsHarmless(states, steps) && i <= j <= |steps|
    requires states[i].last.Some?
    ensures states[j].last.Some? && Below(states[i].last.value, states[j].last.value)
    decreases j - i
  {
    if i == j {
    } else {
      LastNeverDecreases(quotaDays, states, steps, i, j - 1);
      RunKeepsInv(quotaDays, states, steps, j - 1);
      StepKeepsInv(states[j - 1], quotaDays, steps[j - 1]);
    }
  }

  /** Over every interleaving, with crashes at any moment and failing writes, what can be read from the
      file never decreases. */
  lemma DiskNeverDecreases(quotaDays: nat, states: seq<State>, steps: seq<Step>, i: nat, j: nat)
    requires IsRun(quotaDays, states, steps) && RestartsHarmless(states, steps) && i <= j <= |steps|
    requires states[i].disk.Some? && states[j].disk.Some?
    ensures Below(states[i].disk.value, states[j].disk.value)
  {
    RunKeepsInv(quotaDays, states, steps, i);
    RunKeepsInv(quotaDays, states, steps, j);
    LastNeverDecreases(quotaDays, states, steps, i, j);
  }

  /** Once readable, the file is unreadable only from a truncation on. */
  lemma {:induction false} DiskStaysReadable(quotaDays: nat, states: seq<State>, steps: seq<Step>, i: nat, j: nat)
    requires IsRun(quotaDays, states, steps) && i <= j <= |steps| && states[i].disk.Some?
    requires forall k :: i <= k < j ==> steps[k] != TruncateFile
    ensures states[j].disk.Some?
    decreases j - i
  {
    if i == j {
    } else {
      DiskStaysReadable(quotaDays, states, steps, i, j - 1);
    }
  }

  /** A crash between truncating and writing loses the total, and what is written next starts over. */
  lemma TornFileLosesTotal(s: State, quotaDays: nat)
    requires Inv(s) && s.holder.Filling?
    ensures var t := Next(s, quotaDays, Restart);
      t.total == 0 && t.windowStart == s.now && t.disk.None? && t.last == s.last
  {
  }

  /** One more step. */
  lemma Then(quotaDays: nat, states: seq<State>, steps: seq<Step>, e: Step) returns (longer: seq<State>, taken: seq<Step>)
    requires Follows(quotaDays, states, steps) && Enabled(states[|steps|], quotaDays, e)
    ensures Follows(quotaDays, longer, taken) && taken == steps + [e] && |longer| == |taken| + 1
    ensures longer == states + [Next(states[|steps|], quotaDays, e)]
  {
    hide Enabled, Next;
    longer, taken := states + [Next(states[|steps|], quotaDays, e)], steps + [e];
  }

  ghost predicate NoRestart(steps: seq<Step>) {
    forall i :: 0 <= i < |steps| ==> steps[i] != Restart
  }

  /** The lock holder writes the file, as far as truncating it. */
  lemma ThenTruncated(quotaDays: nat, states: seq<State>, steps: seq<Step>) returns (longer: seq<State>, taken: seq<Step>)
    requires Follows(quotaDays, states, steps) && states[|steps|].holder.Free?
    ensures Follows(quotaDays, longer, taken) && |taken| == |steps| + 3 && |longer| == |taken| + 1
    ensures longer[..|states|] == states
    ensures NoRestart(steps) ==> NoRestart(taken)
    ensures var s := states[|steps|];
      longer[|taken|] == s.(disk := None, holder := Filling(Saved(s.windowStart, s.total)))
  {
    hide Follows;
    longer, taken := Then(quotaDays, states, steps, StartPersist);
    longer, taken := Then(quotaDays, longer, taken, LoadImage);
    longer, taken := Then(quotaDays, longer, taken, TruncateFile);
  }

  // ---------- which restarts are harmless ----------

  predicate AtOrAbove(a: Option<Saved>, b: Option<Saved>) {
    b.Some? ==> a.Some? && Below(b.value, a.value)
  }

  /** Until the next restart, the last written pair is not undercut. */
  ghost predicate NeverUndercut(quotaDays: nat, start: State, b: Option<Saved>) {
    forall states: seq<State>, steps: seq<Step> ::
      Follows(quotaDays, states, steps) && states[0] == start && NoRestart(steps) ==> AtOrAbove(states[|steps|].last, b)
  }

  lemma {:induction false} StaysAbove(quotaDays: nat, states: seq<State>, steps: seq<Step>)
    requires Follows(quotaDays, states, steps) && NoRestart(steps) && Inv(states[0])
    ensures Inv(states[|steps|]) && AtOrAbove(states[|steps|].last, states[0].last)
  {
    if steps == [] {
    } else {
      var n := |steps| - 1;
      hide Inv, Enabled, Next;
      StaysAbove(quotaDays, states[..n + 1], steps[..n]);
      StepKeepsInv(states[n], quotaDays, steps[n]);
    }
  }

  /** After a restart that is not harmless the next write undercuts what was written before. */
  lemma Undercut(quotaDays: nat, s: State)
    requires Inv(s) && !Harmless(s)
    ensures !NeverUndercut(quotaDays, Next(s, quotaDays, Restart), s.last)
  {
    var start := Next(s, quotaDays, Restart);
    var states, steps := ThenTruncated(quotaDays, [start], []);
    assert states[0] == states[..1][0];
    states, steps := Then(quotaDays, states, steps, FillFile);
    hide Follows;
    assert states[|steps|].last == Some(Saved(s.now, 0));
  }

  /** The exact condition: a restart is harmless if and only if, whatever follows until the next one, the
      last written pair never decreases. */
  lemma HarmlessIff(quotaDays: nat, s: State)
    requires Inv(s)
    ensures Harmless(s) <==> NeverUndercut(quotaDays, Next(s, quotaDays, Restart), s.last)
  {
    var start := Next(s, quotaDays, Restart);
    if Harmless(s) {
      StepKeepsInv(s, quotaDays, Restart);
      assert start.last == s.last;
      hide Inv, Enabled, Next;
      forall states: seq<State>, steps: seq<Step>
        | Follows(quotaDays, states, steps) && states[0] == start && NoRestart(steps)
        ensures AtOrAbove(states[|steps|].last, s.last)
      {
        StaysAbove(quotaDays, states, steps);
      }
    } else {
      Undercut(quotaDays, s);
    }
  }

  lemma FiveWritten() returns (states: seq<State>, steps: seq<Step>)
    ensures IsRun(1, states, steps) && |states| == |steps| + 1
    ensures states[|steps|] == State(5, 0, Some(Saved(0, 5)), Some(Saved(0, 5)), Free, 0, 5)
  {
    states, steps := [State(0, 0, None, None, Free, 0, 0)], [];
    states, steps := Then(1, states, steps, Count(5));
    states, steps := ThenTruncated(1, states, steps);
    states, steps := Then(1, states, steps, FillFile);
  }

  /** The condition on restarts is needed: within one reading of the clock, a torn file leads from a
      pair with 5 bytes to one with none. */
  lemma TornFileDecreases() returns (states: seq<State>, steps: seq<Step>, i: nat, j: nat)
    ensures IsRun(1, states, steps) && i < j <= |steps|
    ensures states[i].disk == Some(Saved(0, 5)) && states[j].disk == Some(Saved(0, 0))
  {
    states, steps := FiveWritten();
    i := |steps|;
    ghost var before := states;
    hide Follows;
    states, steps := ThenTruncated(1, states, steps);
    states, steps := Then(1, states, steps, Restart);
    states, steps := ThenTruncated(1, states, steps);
    states, steps := Then(1, states, steps, FillFile);
    j := |steps|;
    assert states[..|before|] == before;
    assert states[0] == before[0] && states[i] == before[i];
  }

  // ---------- the steps in numbers ----------

  /** A rollover begins if and only if the lock is free and a quota of some days has run for longer than
      those days; nothing else clears the counter of a running process, and the lock admits one holder. */
  lemma RolloverBegins(s: State, quotaDays: nat, e: Step)
    ensures Enabled(s, quotaDays, StartRollover) <==>
      s.holder == Free && quotaDays >= 1 && s.now - s.windowStart > quotaDays * 86_400_000_000_000
    ensures Enabled(s, quotaDays, e) && !e.StartRollover? && !e.Restart? ==> Next(s, quotaDays, e).total >= s.total
    ensures Enabled(s, quotaDays, e) && s.holder == Free ==>
      e.Tick? || e.Count? || e.Restart? || e in {StartRollover, StartPersist}
    ensures Enabled(s, quotaDays, StartPersist) <==> s.holder == Free
  {
  }

  /** A rollover from its check to its file, with bytes counted in between: the new window begins now, the
      bytes counted before the counter is loaded are in the file, and none is lost. */
  lemma RolloverRun(s: State, quotaDays: nat, a: nat, b: nat, c: nat) returns (states: seq<State>)
    requires s.holder == Free && Due(s, quotaDays)
    ensures var steps := [StartRollover, Count(a), StampWindow, Count(b), LoadImage, TruncateFile, Count(c), FillFile];
      Follows(quotaDays, states, steps)
    ensures |states| == 9 && states[0] == s
    ensures states[8] == State(a + b + c, s.now, Some(Saved(s.now, a + b)), Some(Saved(s.now, a + b)), Free, s.now, a + b + c)
  {
    var s1 := Next(s, quotaDays, StartRollover);
    var s2 := Next(s1, quotaDays, Count(a));
    var s3 := Next(s2, quotaDays, StampWindow);
    var s4 := Next(s3, quotaDays, Count(b));
    var s5 := Next(s4, quotaDays, LoadImage);
    var s6 := Next(s5, quotaDays, TruncateFile);
    var s7 := Next(s6, quotaDays, Count(c));
    states := [s, s1, s2, s3, s4, s5, s6, s7, Next(s7, quotaDays, FillFile)];
  }

  /** A process that finds a readable file goes on from it, and one that finds none starts a window of its
      own with nothing counted. A write that fails leaves the file as it is and gives the lock back. */
  lemma RestartRestores(s: State, quotaDays: nat)
    ensures var t := Next(s, quotaDays, Restart);
      && Saved(t.windowStart, t.total) == (if s.disk.Some? then s.disk.value else Saved(s.now, 0))
      && t.holder == Free && t.now == s.now && t.disk == s.disk
    ensures Enabled(s, quotaDays, FailFile) <==> s.holder.Writing? || s.holder.Filling?
    ensures s.holder.Writing? || s.holder.Filling? ==> Next(s, quotaDays, FailFile) == s.(holder := Free)
  {
  }

  /** The bytes counted by the steps i .. j. */
  ghost function CountedBetween(steps: seq<Step>, i: nat, j: nat): nat
    requires i <= j <= |steps|
  {
    if i == j then 0
    else CountedBetween(steps, i, j - 1) + (if steps[j - 1].Count? then steps[j - 1].n else 0)
  }

  /** In every state the counter holds the bytes counted since the last rollover, on top of what the
      last restart restored: between two states with neither in between it grows by what was counted. */
  lemma {:induction false} TotalIsCounted(quotaDays: nat, states: seq<State>, steps: seq<Step>, i: nat, j: nat)
    requires IsRun(quotaDays, states, steps) && i <= j <= |steps|
    requires forall k :: i <= k < j ==> !steps[k].StartRollover? && !steps[k].Restart?
    ensures states[j].total == states[i].total + CountedBetween(steps, i, j)
    decreases j - i
  {
    if i < j {
      TotalIsCounted(quotaDays, states, steps, i, j - 1);
    }
  }
}
