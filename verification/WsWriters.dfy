/** Several goroutines writing to one connection: `writeFrame` takes the lock, sends the header, sends
    the payload and gives the lock back, and the steps of different writers interleave freely. One of the
    writers may be the reader, sending pongs. No write fails. */
module WsWriters {
  import opened Bytes
  import opened Wrappers
  import opened WsCodec

  datatype Out = Out(opcode: byte, payload: bytes)

  datatype Phase = Waiting | Locked | HeaderSent | PayloadSent

  /** A writer: how many of its calls have returned, and where the current one is. */
  datatype Writer = Writer(returned: nat, phase: Phase)

  /** The connection: its writers, who holds the lock, the bytes sent, and the frames completed so far
      with their writers. */
  datatype State = State(writers: seq<Writer>, holder: Option<nat>, output: bytes, log: seq<(nat, Out)>)

  /** `jobs[i]` are the frames writer `i` sends, one call after the other. */
  type Jobs = seq<seq<Out>>

  predicate Initial(jobs: Jobs, s: State) {
    |s.writers| == |jobs| && s.holder == None && s.output == [] && s.log == [] &&
    forall i :: 0 <= i < |s.writers| ==> s.writers[i] == Writer(0, Waiting)
  }

  predicate Busy(queue: seq<Out>, w: Writer) { w.returned < |queue| }

  /** The frame writer `w` is sending. */
  function Current(queue: seq<Out>, w: Writer): Out
    requires Busy(queue, w)
  {
    queue[w.returned]
  }

  function SetWriter(s: State, i: nat, w: Writer): State
    requires i < |s.writers|
  {
    s.(writers := s.writers[i := w])
  }

  predicate CanStep(jobs: Jobs, s: State, i: nat) {
    i < |s.writers| == |jobs| && Busy(jobs[i], s.writers[i]) && (s.writers[i].phase == Waiting ==> s.holder == None)
  }

  /** The next step of writer `i`: lock, header, payload, unlock. */
  function Advance(jobs: Jobs, s: State, i: nat): State
    requires CanStep(jobs, s, i)
  {
    var w := s.writers[i];
    var f := Current(jobs[i], w);
    match w.phase
    case Waiting => SetWriter(s, i, w.(phase := Locked)).(holder := Some(i))
    case Locked => SetWriter(s, i, w.(phase := HeaderSent)).(output := s.output + Header(f.opcode, |f.payload|))
    case HeaderSent =>
      SetWriter(s, i, w.(phase := PayloadSent)).(output := s.output + f.payload, log := s.log + [(i, f)])
    case PayloadSent => SetWriter(s, i, Writer(w.returned + 1, Waiting)).(holder := None)
  }

  /** Any schedule: every state follows from the one before by a step of some writer. */
  predicate Schedulable(jobs: Jobs, s: State, schedule: seq<nat>)
    decreases |schedule|
  {
    schedule == [] || (CanStep(jobs, s, schedule[0]) && Schedulable(jobs, Advance(jobs, s, schedule[0]), schedule[1..]))
  }

  /** The state after a schedule. */
  function RunOf(jobs: Jobs, s: State, schedule: seq<nat>): State
    requires Schedulable(jobs, s, schedule)
    decreases |schedule|
  {
    if schedule == [] then s else RunOf(jobs, Advance(jobs, s, schedule[0]), schedule[1..])
  }

  // ---- what is on the wire ----

  function Printed(log: seq<(nat, Out)>): bytes {
    if log == [] then []
    else
      var f := log[|log| - 1].1;
      Printed(log[..|log| - 1]) + ServerFrame(f.opcode, f.payload)
  }

  /** The part of the lock holder's frame that is already sent. */
  function Partial(jobs: Jobs, s: State): bytes
    requires |s.writers| == |jobs|
  {
    if s.holder.Some? && s.holder.value < |jobs| then
      var w, queue := s.writers[s.holder.value], jobs[s.holder.value];
      if w.phase == HeaderSent && Busy(queue, w) then Header(Current(queue, w).opcode, |Current(queue, w).payload|) else []
    else []
  }

  /** Bytes past the last whole frame are the beginning of the frame the lock holder is sending. */
  predicate BegunByHolder(jobs: Jobs, s: State) {
    && |s.writers| == |jobs|
    && (Partial(jobs, s) == [] ||
       (s.holder.Some? && s.holder.value < |jobs| &&
        var queue, w := jobs[s.holder.value], s.writers[s.holder.value];
        Busy(queue, w) && Partial(jobs, s) <= ServerFrame(Current(queue, w).opcode, Current(queue, w).payload)))
  }

  /** The frames of writer `i`, in the order in which they were completed. */
  function OnlyOf(log: seq<(nat, Out)>, i: nat): seq<Out> {
    if log == [] then []
    else
      var last := log[|log| - 1];
      OnlyOf(log[..|log| - 1], i) + (if last.0 == i then [last.1] else [])
  }

  /** The number of frames of a writer that are on the wire in full. */
  function Done(w: Writer): nat {
    if w.phase == PayloadSent then w.returned + 1 else w.returned
  }

  /** Writer `i` is inside its call exactly while it holds the lock, and its completed frames are the
      first frames of its queue. */
  ghost predicate InOrder(queue: seq<Out>, w: Writer, holder: Option<nat>, log: seq<(nat, Out)>, i: nat) {
    && w.returned <= |queue| && (w.phase != Waiting ==> Busy(queue, w))
    && (w.phase != Waiting <==> holder == Some(i))
    && OnlyOf(log, i) == queue[..Done(w)]
  }

  ghost predicate Known(jobs: Jobs, entry: (nat, Out)) { entry.0 < |jobs| && entry.1 in jobs[entry.0] }

  /** The invariant of the wire. */
  ghost predicate Consistent(jobs: Jobs, s: State) {
    && |s.writers| == |jobs|
    && (forall i :: 0 <= i < |jobs| ==> InOrder(jobs[i], s.writers[i], s.holder, s.log, i))
    && (s.holder.Some? ==> s.holder.value < |jobs|)
    && s.output == Printed(s.log) + Partial(jobs, s)
    && (forall k :: 0 <= k < |s.log| ==> Known(jobs, s.log[k]))
  }

  lemma LogGrows(log: seq<(nat, Out)>, i: nat, f: Out, j: nat)
    ensures OnlyOf(log + [(i, f)], j) == OnlyOf(log, j) + (if i == j then [f] else [])
    ensures Printed(log + [(i, f)]) == Printed(log) + ServerFrame(f.opcode, f.payload)
  {
    assert (log + [(i, f)])[..|log|] == log;
  }

  lemma StartIsConsistent(jobs: Jobs, s: State)
    requires Initial(jobs, s)
    ensures Consistent(jobs, s)
  {
    forall i | 0 <= i < |jobs|
      ensures InOrder(jobs[i], s.writers[i], s.holder, s.log, i)
    {
      assert jobs[i][..0] == [];
    }
  }

  /** The step of writer `i` keeps every writer in order. */
  lemma StepKeepsOrder(jobs: Jobs, s: State, i: nat, j: nat)
    requires Consistent(jobs, s) && CanStep(jobs, s, i) && j < |jobs|
    ensures var s' := Advance(jobs, s, i); |s'.writers| == |jobs| && InOrder(jobs[j], s'.writers[j], s'.holder, s'.log, j)
  {
    hide Printed, Partial, Header, OnlyOf;
    assert InOrder(jobs[j], s.writers[j], s.holder, s.log, j);
    assert InOrder(jobs[i], s.writers[i], s.holder, s.log, i);
    var w, f := s.writers[i], Current(jobs[i], s.writers[i]);
    if w.phase == HeaderSent {
      LogGrows(s.log, i, f, j);
      assert jobs[i][..w.returned + 1] == jobs[i][..w.returned] + [f];
    }
  }

  /** The step of writer `i` adds to the wire what belongs there. */
  lemma StepKeepsWire(jobs: Jobs, s: State, i: nat)
    requires Consistent(jobs, s) && CanStep(jobs, s, i)
    ensures var s' := Advance(jobs, s, i); |s'.writers| == |jobs| && s'.output == Printed(s'.log) + Partial(jobs, s')
  {
    hide OnlyOf, Printed, Header;
    assert InOrder(jobs[i], s.writers[i], s.holder, s.log, i);
    var f := Current(jobs[i], s.writers[i]);
    if s.writers[i].phase == HeaderSent {
      LogGrows(s.log, i, f, i);
      assert s.output + f.payload == Printed(s.log) + (Header(f.opcode, |f.payload|) + f.payload);
    }
  }

  /** Every step keeps the invariant. */
  lemma StepKeeps(jobs: Jobs, s: State, i: nat)
    requires Consistent(jobs, s) && CanStep(jobs, s, i)
    ensures Consistent(jobs, Advance(jobs, s, i))
  {
    hide InOrder, Printed, Partial, Header;
    StepKeepsWire(jobs, s, i);
    forall j | 0 <= j < |jobs|
      ensures InOrder(jobs[j], Advance(jobs, s, i).writers[j], Advance(jobs, s, i).holder, Advance(jobs, s, i).log, j)
    {
      StepKeepsOrder(jobs, s, i, j);
    }
  }

  lemma {:induction false} RunIsConsistent(jobs: Jobs, s: State, schedule: seq<nat>)
    requires Consistent(jobs, s) && Schedulable(jobs, s, schedule)
    ensures Consistent(jobs, RunOf(jobs, s, schedule))
    decreases |schedule|
  {
    hide Consistent, Advance;
    if schedule != [] {
      StepKeeps(jobs, s, schedule[0]);
      RunIsConsistent(jobs, Advance(jobs, s, schedule[0]), schedule[1..]);
    }
  }

  /** Frames are never torn: after any schedule the bytes on the wire are whole frames, followed by a
      prefix of the frame the lock holder is sending; and the frames of each writer stand in its
      own order, none lost and none repeated. */
  lemma FramesAreNeverTorn(jobs: Jobs, start: State, schedule: seq<nat>)
    requires Initial(jobs, start) && Schedulable(jobs, start, schedule)
    ensures var s := RunOf(jobs, start, schedule);
      && |s.writers| == |jobs| && s.output == Printed(s.log) + Partial(jobs, s)
      && (forall i :: 0 <= i < |jobs| ==> Done(s.writers[i]) <= |jobs[i]| && OnlyOf(s.log, i) == jobs[i][..Done(s.writers[i])])
    ensures BegunByHolder(jobs, RunOf(jobs, start, schedule))
  {
    hide Schedulable, RunOf, Printed, Header, OnlyOf;
    StartIsConsistent(jobs, start);
    RunIsConsistent(jobs, start, schedule);
  }

  /** No schedule gets stuck: while some call has not returned, some writer can take its next step. */
  lemma NobodyWaitsForever(jobs: Jobs, start: State, schedule: seq<nat>)
    requires Initial(jobs, start) && Schedulable(jobs, start, schedule)
    ensures var s := RunOf(jobs, start, schedule);
      |s.writers| == |jobs| &&
      ((exists i :: 0 <= i < |jobs| && Busy(jobs[i], s.writers[i])) ==> exists i :: CanStep(jobs, s, i))
  {
    hide Schedulable, RunOf, Printed, Header, OnlyOf, Partial;
    StartIsConsistent(jobs, start);
    RunIsConsistent(jobs, start, schedule);
    var s := RunOf(jobs, start, schedule);
    if i :| 0 <= i < |jobs| && Busy(jobs[i], s.writers[i]) {
      var next := if s.holder.Some? then s.holder.value else i;
      assert InOrder(jobs[next], s.writers[next], s.holder, s.log, next);
      assert CanStep(jobs, s, next);
    }
  }

  // ---- what the peer decodes ----

  /** Reads `n` frames. */
  function ParseMany(s: bytes, n: nat): Option<(seq<Frame>, bytes)>
    decreases n
  {
    if n == 0 then Some(([], s))
    else match Parse(s)
      case Failed(_, _) => None
      case Got(f, rest) =>
        match ParseMany(rest, n - 1)
        case None => None
        case Some((more, tail)) => Some(([f] + more, tail))
  }

  function Frames(log: seq<(nat, Out)>): seq<Frame> {
    seq(|log|, k requires 0 <= k < |log| => Frame(true, log[k].1.opcode, log[k].1.payload))
  }

  predicate Readable(f: Out) { f.opcode < 16 && |f.payload| <= MAX_PAYLOAD }

  lemma {:induction false} PrintedFirst(log: seq<(nat, Out)>)
    requires log != []
    ensures Printed(log) == ServerFrame(log[0].1.opcode, log[0].1.payload) + Printed(log[1..])
  {
    var f := log[|log| - 1].1;
    if |log| == 1 {
      assert log[..0] == [] && log[1..] == [];
    } else {
      PrintedFirst(log[..|log| - 1]);
      assert log[..|log| - 1][1..] == log[1..][..|log| - 2];
    }
  }

  lemma ParseManyStep(s: bytes, f: Frame, rest: bytes, more: seq<Frame>, tail: bytes)
    requires Parse(s) == Got(f, rest) && ParseMany(rest, |more|) == Some((more, tail))
    ensures ParseMany(s, |[f] + more|) == Some(([f] + more, tail))
  {
    hide Parse;
  }

  lemma FirstParses(log: seq<(nat, Out)>, tail: bytes)
    requires log != [] && Readable(log[0].1)
    ensures Parse(Printed(log) + tail) == Got(Frame(true, log[0].1.opcode, log[0].1.payload), Printed(log[1..]) + tail)
  {
    hide Parse, ServerFrame, Printed;
    var f, after := log[0].1, Printed(log[1..]) + tail;
    PrintedFirst(log);
    assert Printed(log) + tail == ServerFrame(f.opcode, f.payload) + after;
    PowersOf256();
    ServerFrameRoundTrip(f.opcode, f.payload, after);
  }

  lemma {:induction false} PrintedParses(log: seq<(nat, Out)>, tail: bytes)
    requires forall k :: 0 <= k < |log| ==> Readable(log[k].1)
    ensures ParseMany(Printed(log) + tail, |log|) == Some((Frames(log), tail))
    decreases |log|
  {
    hide Parse, ParseMany, Printed;
    if log == [] {
      NothingPrinted(tail);
    } else {
      var first := Frame(true, log[0].1.opcode, log[0].1.payload);
      assert Frames(log) == [first] + Frames(log[1..]);
      PrintedParses(log[1..], tail);
      FirstParses(log, tail);
      ParseManyStep(Printed(log) + tail, first, Printed(log[1..]) + tail, Frames(log[1..]), tail);
    }
  }

  lemma NothingPrinted(tail: bytes)
    ensures ParseMany(Printed([]) + tail, 0) == Some((Frames([]), tail))
  {
    assert Printed([]) + tail == tail && Frames([]) == [];
  }

  /** The peer decodes an interleaving of what the writers send: the completed frames, in the order of
      the log, with each writer's frames in its own order, and then the begun frame's bytes. */
  lemma PeerDecodesInterleaving(jobs: Jobs, start: State, schedule: seq<nat>)
    requires Initial(jobs, start) && Schedulable(jobs, start, schedule)
    requires forall i, f :: 0 <= i < |jobs| && f in jobs[i] ==> Readable(f)
    ensures var s := RunOf(jobs, start, schedule);
      && |s.writers| == |jobs| && ParseMany(s.output, |s.log|) == Some((Frames(s.log), Partial(jobs, s)))
      && (forall i :: 0 <= i < |jobs| ==> Done(s.writers[i]) <= |jobs[i]| && OnlyOf(s.log, i) == jobs[i][..Done(s.writers[i])])
  {
    hide Schedulable, RunOf, Printed, Header, OnlyOf, Partial, ParseMany;
    StartIsConsistent(jobs, start);
    RunIsConsistent(jobs, start, schedule);
    var s := RunOf(jobs, start, schedule);
    forall k | 0 <= k < |s.log|
      ensures Readable(s.log[k].1)
    {
      assert Known(jobs, s.log[k]);
    }
    PrintedParses(s.log, Partial(jobs, s));
  }
}
