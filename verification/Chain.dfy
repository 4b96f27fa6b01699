/** The handler chain of one request (context.go, router.go): one index shared by every activation of
    `Next`, which handlers may call as often as they like. */
module Chain {
  import opened Wrappers

  const ABORT_INDEX := 1_073_741_824

  /** What a handler does: ask for the rest of the chain and look at the result, abort, look whether the
      chain is aborted, and in the end return nil (`true`) or an error (`false`). */
  datatype Program =
    | Return(ok: bool)
    | Abort(andThen: Program)
    | Next(onNil: Program, onError: Program)
    | IfAborted(yes: Program, no: Program)

  /** A chain is no longer than the abort index reaches. */
  type Handlers = hs: seq<Program> | |hs| <= ABORT_INDEX + 1

  datatype Event = Start(handler: nat) | Finish(handler: nat, ok: bool) | Aborted(handler: nat)

  /** The result of `Next` or of a handler, the index it leaves, and what happened. */
  datatype Outcome = Outcome(ok: bool, index: nat, trace: seq<Event>)

  /** Handlers that can still start when the index stands at `i`. */
  function Left(hs: Handlers, i: nat): nat { if i + 1 < |hs| then |hs| - i - 1 else 0 }

  /** The loop of `Next` from index `i` on. */
  function Loop(hs: Handlers, i: nat): (r: Outcome)
    ensures i < |hs| ==> Left(hs, r.index) < |hs| - i
    ensures i >= |hs| ==> Left(hs, r.index) == 0
    decreases if i < |hs| then |hs| - i else 0, 0
  {
    if i >= |hs| then Outcome(true, i, [])
    else
      var r := Exec(hs, hs[i], i, i);
      var trace := [Start(i)] + r.trace + [Finish(i, r.ok)];
      if !r.ok then Outcome(false, r.index, trace)
      else
        var rest := Loop(hs, r.index + 1);
        Outcome(rest.ok, rest.index, trace + rest.trace)
  }

  /** Handler `self` carrying out `p` while the index stands at `i`. */
  function Exec(hs: Handlers, p: Program, i: nat, self: nat): (r: Outcome)
    ensures Left(hs, r.index) <= Left(hs, i)
    decreases Left(hs, i), 1, p
  {
    match p
    case Return(ok) => Outcome(ok, i, [])
    case Abort(andThen) =>
      var r := Exec(hs, andThen, ABORT_INDEX, self);
      r.(trace := [Aborted(self)] + r.trace)
    case Next(onNil, onError) =>
      var n := Loop(hs, i + 1);
      var r := Exec(hs, if n.ok then onNil else onError, n.index, self);
      r.(trace := n.trace + r.trace)
    case IfAborted(yes, no) => Exec(hs, if i >= ABORT_INDEX then yes else no, i, self)
  }

  /** `runChain`: the index starts before the first handler. */
  function RunChain(hs: Handlers): Outcome { Loop(hs, 0) }

  // ---- in order, at most once, not after an abort ----

  function Starts(trace: seq<Event>): seq<nat> {
    if trace == [] then []
    else if trace[0].Start? then [trace[0].handler] + Starts(trace[1..])
    else Starts(trace[1..])
  }

  function Range(lo: nat, hi: nat): (r: seq<nat>)
    requires lo <= hi
    ensures |r| == hi - lo && forall k :: 0 <= k < |r| ==> r[k] == lo + k
  {
    seq(hi - lo, k requires 0 <= k => lo + k)
  }

  predicate Aborts(trace: seq<Event>) { exists a :: 0 <= a < |trace| && trace[a].Aborted? }

  predicate Fails(trace: seq<Event>) { exists a :: 0 <= a < |trace| && trace[a].Finish? && !trace[a].ok }

  predicate NoStartAfterAbort(trace: seq<Event>) {
    forall a, b :: 0 <= a < b < |trace| && trace[a].Aborted? ==> !trace[b].Start?
  }

  predicate NoStartAfterFailure(trace: seq<Event>) {
    forall a, b :: 0 <= a < b < |trace| && trace[a].Finish? && !trace[a].ok ==> !trace[b].Start?
  }

  function Min(a: nat, b: nat): nat { if a < b then a else b }

  lemma {:induction false} StartsJoin(a: seq<Event>, b: seq<Event>)
    ensures Starts(a + b) == Starts(a) + Starts(b)
  {
    if a == [] {
      assert a + b == b;
    } else {
      assert (a + b)[1..] == a[1..] + b;
      StartsJoin(a[1..], b);
    }
  }

  lemma {:induction false} NothingStarts(trace: seq<Event>)
    requires Starts(trace) == []
    ensures forall a :: 0 <= a < |trace| ==> !trace[a].Start?
  {
    if trace != [] { NothingStarts(trace[1..]); }
  }

  /** What a stretch of the run does to the chain, when the next handler to start is `from`. */
  predicate InOrder(hs: Handlers, from: nat, r: Outcome) {
    var hi := from + |Starts(r.trace)|;
    && hi <= (if from < |hs| then |hs| else from) && Starts(r.trace) == Range(from, hi)
    && (if Aborts(r.trace) then r.index >= ABORT_INDEX else Min(r.index + 1, |hs|) == Min(hi, |hs|))
    && (from > ABORT_INDEX ==> r.index >= ABORT_INDEX)
    && NoStartAfterAbort(r.trace)
  }

  /** Two stretches one after the other. */
  lemma InOrderJoin(hs: Handlers, from: nat, a: Outcome, b: Outcome, r: Outcome)
    requires InOrder(hs, from, a) && InOrder(hs, a.index + 1, b)
    requires r.index == b.index && r.trace == a.trace + b.trace
    ensures InOrder(hs, from, r)
  {
    StartsJoin(a.trace, b.trace);
    var mid := from + |Starts(a.trace)|;
    if a.index + 1 >= |hs| {
      NothingStarts(b.trace);
    }
    AbortsJoin(a.trace, b.trace);
  }

  lemma AbortsJoin(a: seq<Event>, b: seq<Event>)
    ensures Aborts(a + b) <==> Aborts(a) || Aborts(b)
    ensures Fails(a + b) <==> Fails(a) || Fails(b)
  {
    forall k | 0 <= k < |a|
      ensures (a + b)[k] == a[k]
    {}
    forall k | 0 <= k < |b|
      ensures (a + b)[|a| + k] == b[k]
    {}
  }

  lemma NothingDone(hs: Handlers, from: nat, ok: bool, index: nat)
    requires Min(index + 1, |hs|) == Min(from, |hs|) && (from > ABORT_INDEX ==> index >= ABORT_INDEX)
    ensures InOrder(hs, from, Outcome(ok, index, []))
  {}

  lemma OneHandler(hs: Handlers, i: nat, r: Outcome)
    requires i < |hs| && InOrder(hs, i + 1, r)
    ensures InOrder(hs, i, Outcome(r.ok, r.index, [Start(i)] + r.trace + [Finish(i, r.ok)]))
  {
    hide Starts, Aborts;
    var trace, last := [Start(i)] + r.trace + [Finish(i, r.ok)], [Finish(i, r.ok)];
    StartsJoin([Start(i)] + r.trace, last);
    StartsJoin([Start(i)], r.trace);
    AbortsJoin([Start(i)] + r.trace, last);
    AbortsJoin([Start(i)], r.trace);
    OneEvent(Start(i));
    OneEvent(Finish(i, r.ok));
    assert Starts(trace) == [i] + Starts(r.trace) + [];
  }

  lemma OneEvent(e: Event)
    ensures Starts([e]) == if e.Start? then [e.handler] else []
    ensures Aborts([e]) == e.Aborted?
  {
    assert [e][0] == e && Starts([e][1..]) == [];
  }

  lemma AfterAbort(hs: Handlers, from: nat, self: nat, r: Outcome)
    requires InOrder(hs, ABORT_INDEX + 1, r)
    ensures InOrder(hs, from, Outcome(r.ok, r.index, [Aborted(self)] + r.trace))
  {
    hide Starts, Aborts;
    NothingStarts(r.trace);
    AbortsJoin([Aborted(self)], r.trace);
    StartsJoin([Aborted(self)], r.trace);
    OneEvent(Aborted(self));
  }

  lemma {:induction false} LoopInOrder(hs: Handlers, i: nat)
    ensures InOrder(hs, i, Loop(hs, i))
    decreases if i < |hs| then |hs| - i else 0, 0
  {
    hide InOrder, Exec;
    if i < |hs| {
      var r := Exec(hs, hs[i], i, i);
      ExecInOrder(hs, hs[i], i, i);
      OneHandler(hs, i, r);
      if r.ok {
        LoopInOrder(hs, r.index + 1);
        var first := Outcome(r.ok, r.index, [Start(i)] + r.trace + [Finish(i, r.ok)]);
        InOrderJoin(hs, i, first, Loop(hs, r.index + 1), Loop(hs, i));
      }
    } else {
      NothingDone(hs, i, true, i);
    }
  }

  lemma {:induction false} ExecInOrder(hs: Handlers, p: Program, i: nat, self: nat)
    ensures InOrder(hs, i + 1, Exec(hs, p, i, self))
    decreases Left(hs, i), 1, p
  {
    hide InOrder, Loop;
    match p
    case Return(ok) =>
      NothingDone(hs, i + 1, ok, i);
    case Abort(andThen) =>
      ExecInOrder(hs, andThen, ABORT_INDEX, self);
      AfterAbort(hs, i + 1, self, Exec(hs, andThen, ABORT_INDEX, self));
    case Next(onNil, onError) =>
      var n := Loop(hs, i + 1);
      LoopInOrder(hs, i + 1);
      var after := if n.ok then onNil else onError;
      ExecInOrder(hs, after, n.index, self);
      InOrderJoin(hs, i + 1, n, Exec(hs, after, n.index, self), Exec(hs, p, i, self));
    case IfAborted(yes, no) =>
      ExecInOrder(hs, if i >= ABORT_INDEX then yes else no, i, self);
  }

  /** For any handlers: they start in chain order, each at most once and none skipped, none starts after
      an abort, and a chain that ends without an error and without an abort has run every handler, even
      when some error was swallowed on the way. */
  lemma ChainRunsInOrder(hs: Handlers)
    ensures var r := RunChain(hs);
      && |Starts(r.trace)| <= |hs| && Starts(r.trace) == Range(0, |Starts(r.trace)|)
      && NoStartAfterAbort(r.trace)
      && (r.ok && !Aborts(r.trace) ==> |Starts(r.trace)| == |hs|)
  {
    LoopInOrder(hs, 0);
    LoopOkReachesEnd(hs, 0);
  }

  /** An abort below is seen above: when some handler that `Next` ran aborted, the caller of `Next` finds
      the chain aborted, and its further calls of `Next` start nothing. */
  lemma AbortIsSeen(hs: Handlers, i: nat, self: nat, yes: Program, no: Program, k: nat)
    requires Aborts(Loop(hs, i).trace) && k > Loop(hs, i).index
    ensures var n := Loop(hs, i);
      && Exec(hs, IfAborted(yes, no), n.index, self) == Exec(hs, yes, n.index, self)
      && Loop(hs, k) == Outcome(true, k, [])
  {
    LoopInOrder(hs, i);
  }

  /** The most calls of `Next` that a handler makes. */
  function Calls(p: Program): nat {
    match p
    case Return(ok) => 0
    case Abort(andThen) => Calls(andThen)
    case Next(onNil, onError) => 1 + (if Calls(onNil) > Calls(onError) then Calls(onNil) else Calls(onError))
    case IfAborted(yes, no) => if Calls(yes) > Calls(no) then Calls(yes) else Calls(no)
  }

  /** How far the handlers from `i` on can move the index, without an abort. */
  function Reach(hs: Handlers, i: nat): nat
    decreases if i < |hs| then |hs| - i else 0
  {
    if i >= |hs| then 0 else 1 + Calls(hs[i]) + Reach(hs, i + 1)
  }

  lemma {:induction false} LoopReach(hs: Handlers, i: nat)
    requires !Aborts(Loop(hs, i).trace)
    ensures var r := Loop(hs, i); r.index + Reach(hs, r.index + 1) <= i + Reach(hs, i)
    decreases if i < |hs| then |hs| - i else 0, 0
  {
    hide Aborts, Exec;
    if i < |hs| {
      var r := Exec(hs, hs[i], i, i);
      var first := [Start(i)] + r.trace + [Finish(i, r.ok)];
      AbortsJoin([Start(i)] + r.trace, [Finish(i, r.ok)]);
      AbortsJoin([Start(i)], r.trace);
      if r.ok {
        AbortsJoin(first, Loop(hs, r.index + 1).trace);
        LoopReach(hs, r.index + 1);
      }
      ExecReach(hs, hs[i], i, i);
    }
  }

  lemma {:induction false} ExecReach(hs: Handlers, p: Program, i: nat, self: nat)
    requires !Aborts(Exec(hs, p, i, self).trace)
    ensures var r := Exec(hs, p, i, self); r.index + Reach(hs, r.index + 1) <= i + Calls(p) + Reach(hs, i + 1)
    decreases Left(hs, i), 1, p
  {
    hide Aborts, Loop, Reach;
    match p
    case Return(ok) =>
    case Abort(andThen) =>
      AbortsJoin([Aborted(self)], Exec(hs, andThen, ABORT_INDEX, self).trace);
      OneEvent(Aborted(self));
    case Next(onNil, onError) =>
      var n := Loop(hs, i + 1);
      var after := if n.ok then onNil else onError;
      AbortsJoin(n.trace, Exec(hs, after, n.index, self).trace);
      LoopReach(hs, i + 1);
      ExecReach(hs, after, n.index, self);
    case IfAborted(yes, no) =>
      ExecReach(hs, if i >= ABORT_INDEX then yes else no, i, self);
  }

  /** While the handlers cannot call `Next` 2^30 times, a handler finds the chain aborted after a call of `Next`
      exactly when some handler aborted during the call. */
  lemma AbortedExactlyWhen(hs: Handlers, i: nat, self: nat, yes: Program, no: Program)
    requires i + Reach(hs, i) < 1_073_741_824
    ensures var n := Loop(hs, i);
      Exec(hs, IfAborted(yes, no), n.index, self) == Exec(hs, if Aborts(n.trace) then yes else no, n.index, self)
  {
    LoopInOrder(hs, i);
    if !Aborts(Loop(hs, i).trace) { LoopReach(hs, i); }
  }

  lemma {:induction false} LoopOkReachesEnd(hs: Handlers, i: nat)
    ensures Loop(hs, i).ok ==> Loop(hs, i).index >= |hs|
    decreases if i < |hs| then |hs| - i else 0, 0
  {
    if i < |hs| {
      var r := Exec(hs, hs[i], i, i);
      if r.ok { LoopOkReachesEnd(hs, r.index + 1); }
    }
  }

  // ---- errors ----

  /** The chain stops at the first error and reports it: no handler starts after a failure, and the chain
      ends without an error exactly when no handler failed. */
  predicate StopsAtFirstError(r: Outcome) {
    NoStartAfterFailure(r.trace) && (r.ok <==> !Fails(r.trace))
  }

  /** What a handler does with the error of its first `Next`, if it calls `Next` before it returns or aborts. */
  function OnFirstError(p: Program): Option<Program> {
    match p
    case Return(_) => None
    case Abort(_) => None
    case Next(_, onError) => Some(onError)
    case IfAborted(_, no) => OnFirstError(no)
  }

  /** Returns an error and starts nothing; in an aborted chain `Next` starts nothing and returns nil. */
  predicate FailsQuietly(p: Program, aborted: bool) {
    match p
    case Return(ok) => !ok
    case Abort(andThen) => FailsQuietly(andThen, true)
    case Next(onNil, _) => aborted && FailsQuietly(onNil, true)
    case IfAborted(yes, no) => FailsQuietly(if aborted then yes else no, aborted)
  }

  /** A handler that passes on the first error `Next` returns to it, whether or not the chain was aborted
      below. What it does after a nil `Next`, or after it aborts, is its own business. */
  predicate Safe(p: Program) {
    match OnFirstError(p)
    case None => true
    case Some(onError) => FailsQuietly(onError, false) && FailsQuietly(onError, true)
  }

  predicate AllSafe(hs: seq<Program>) { forall k :: 0 <= k < |hs| ==> Safe(hs[k]) }

  predicate OnlyAborts(trace: seq<Event>) { forall a :: 0 <= a < |trace| ==> trace[a].Aborted? }

  /** Past the last handler nothing starts. */
  lemma {:induction false} PastTheEnd(hs: Handlers, p: Program, i: nat, self: nat)
    requires i + 1 >= |hs|
    ensures OnlyAborts(Exec(hs, p, i, self).trace)
    decreases p
  {
    match p
    case Return(_) =>
    case Abort(andThen) => PastTheEnd(hs, andThen, ABORT_INDEX, self);
    case Next(onNil, _) =>
      assert Loop(hs, i + 1) == Outcome(true, i + 1, []);
      PastTheEnd(hs, onNil, i + 1, self);
    case IfAborted(yes, no) => PastTheEnd(hs, if i >= ABORT_INDEX then yes else no, i, self);
  }

  lemma {:induction false} QuietFailure(hs: Handlers, p: Program, i: nat, self: nat)
    requires FailsQuietly(p, i >= ABORT_INDEX)
    ensures var r := Exec(hs, p, i, self); !r.ok && OnlyAborts(r.trace)
    decreases p
  {
    match p
    case Return(_) =>
    case Abort(andThen) => QuietFailure(hs, andThen, ABORT_INDEX, self);
    case Next(onNil, _) =>
      assert Loop(hs, i + 1) == Outcome(true, i + 1, []);
      QuietFailure(hs, onNil, i + 1, self);
    case IfAborted(yes, no) => QuietFailure(hs, if i >= ABORT_INDEX then yes else no, i, self);
  }

  /** A stretch of the run that reports the failures in it and starts nothing after one. */
  predicate StopsAtFailure(r: Outcome) {
    (Fails(r.trace) ==> !r.ok) && NoStartAfterFailure(r.trace)
  }

  /** A stretch followed by aborts alone. */
  lemma AbortsAddNothing(trace: seq<Event>, aborts: seq<Event>)
    requires OnlyAborts(aborts)
    ensures Fails(trace + aborts) <==> Fails(trace)
    ensures NoStartAfterFailure(trace + aborts) <==> NoStartAfterFailure(trace)
  {
    var all := trace + aborts;
    AbortsJoin(trace, aborts);
    assert forall a :: 0 <= a < |trace| ==> all[a] == trace[a];
    assert forall a :: |trace| <= a < |all| ==> all[a] == aborts[a - |trace|];
    if NoStartAfterFailure(all) {
      forall a, b | 0 <= a < b < |trace| && trace[a].Finish? && !trace[a].ok
        ensures !trace[b].Start?
      {
        assert all[a] == trace[a] && all[b] == trace[b];
      }
    }
  }

  lemma {:induction false} LoopStops(hs: Handlers, i: nat)
    requires AllSafe(hs)
    ensures StopsAtFirstError(Loop(hs, i))
    decreases if i < |hs| then |hs| - i else 0, 0
  {
    hide Exec, Safe;
    if i < |hs| {
      var r := Exec(hs, hs[i], i, i);
      assert Safe(hs[i]);
      ExecStops(hs, hs[i], i, i);
      OneTurnStops(i, r);
      if r.ok {
        var turn := [Start(i)] + r.trace + [Finish(i, r.ok)];
        LoopStops(hs, r.index + 1);
        AbortsJoin(turn, Loop(hs, r.index + 1).trace);
        NoFailureBefore(turn, Loop(hs, r.index + 1).trace);
      }
    }
  }

  lemma OneTurnStops(i: nat, r: Outcome)
    requires StopsAtFailure(r)
    ensures var turn := [Start(i)] + r.trace + [Finish(i, r.ok)];
      NoStartAfterFailure(turn) && (r.ok <==> !Fails(turn))
  {
    var last := [Finish(i, r.ok)];
    AbortsJoin([Start(i)], r.trace);
    AbortsJoin([Start(i)] + r.trace, last);
    assert Fails(last) <==> !r.ok by { assert last[0] == Finish(i, r.ok); }
  }

  lemma NoFailureBefore(a: seq<Event>, b: seq<Event>)
    requires !Fails(a) && NoStartAfterFailure(b)
    ensures NoStartAfterFailure(a + b)
  {
    assert forall k :: |a| <= k < |a + b| ==> (a + b)[k] == b[k - |a|];
  }

  lemma {:induction false} ExecStops(hs: Handlers, p: Program, i: nat, self: nat)
    requires AllSafe(hs) && Safe(p)
    ensures StopsAtFailure(Exec(hs, p, i, self))
    decreases Left(hs, i), 1, p
  {
    match p
    case Return(_) =>
    case Abort(andThen) => PastTheEnd(hs, andThen, ABORT_INDEX, self);
    case Next(onNil, onError) =>
      var n := Loop(hs, i + 1);
      LoopStops(hs, i + 1);
      if n.ok {
        LoopOkReachesEnd(hs, i + 1);
        PastTheEnd(hs, onNil, n.index, self);
        AbortsAddNothing(n.trace, Exec(hs, onNil, n.index, self).trace);
      } else {
        QuietFailure(hs, onError, n.index, self);
        AbortsAddNothing(n.trace, Exec(hs, onError, n.index, self).trace);
      }
    case IfAborted(_, no) =>
      if i >= ABORT_INDEX { PastTheEnd(hs, p, i, self); } else { ExecStops(hs, no, i, self); }
  }

  /** When every handler passes on the first error of `Next`, the chain stops at the first error and
      reports it. */
  lemma ErrorsStopTheChain(hs: Handlers)
    requires AllSafe(hs)
    ensures StopsAtFirstError(RunChain(hs))
  {
    LoopStops(hs, 0);
  }

  // ---- any other handler breaks the rule in some chain ----

  predicate HasStart(trace: seq<Event>) { exists a :: 0 <= a < |trace| && trace[a].Start? }

  lemma FailureThenStart(a: seq<Event>, b: seq<Event>, c: seq<Event>)
    requires Fails(a) && HasStart(b)
    ensures !NoStartAfterFailure(a + b + c)
  {
    var all := a + b + c;
    var i :| 0 <= i < |a| && a[i].Finish? && !a[i].ok;
    var j :| 0 <= j < |b| && b[j].Start?;
    assert all[i] == a[i] && all[|a| + j] == b[j];
  }

  /** A program that does not fail quietly returns nil or starts a handler, when one is left. */
  lemma {:induction false} NotQuiet(hs: Handlers, p: Program, i: nat, self: nat)
    requires !FailsQuietly(p, i >= ABORT_INDEX) && (i < ABORT_INDEX ==> i + 1 < |hs|)
    ensures var r := Exec(hs, p, i, self); r.ok || HasStart(r.trace)
    decreases p
  {
    match p
    case Return(_) =>
    case Abort(andThen) =>
      NotQuiet(hs, andThen, ABORT_INDEX, self);
      var inner := Exec(hs, andThen, ABORT_INDEX, self);
      if HasStart(inner.trace) { StartsLater([Aborted(self)], inner.trace); }
    case Next(onNil, _) =>
      if i >= ABORT_INDEX {
        assert Loop(hs, i + 1) == Outcome(true, i + 1, []);
        NotQuiet(hs, onNil, i + 1, self);
        var inner := Exec(hs, onNil, i + 1, self);
        assert [] + inner.trace == inner.trace;
      } else {
        assert Loop(hs, i + 1).trace[0] == Start(i + 1);
        assert Exec(hs, p, i, self).trace[0] == Start(i + 1);
      }
    case IfAborted(yes, no) => NotQuiet(hs, if i >= ABORT_INDEX then yes else no, i, self);
  }

  lemma StartsLater(a: seq<Event>, b: seq<Event>)
    requires HasStart(b)
    ensures HasStart(a + b)
  {
    var j :| 0 <= j < |b| && b[j].Start?;
    assert (a + b)[|a| + j] == b[j];
  }

  /** The first handler of a chain whose rest fails, up to what it does with the error. */
  lemma {:induction false} FirstNextFails(hs: Handlers, p: Program, onError: Program)
    requires OnFirstError(p) == Some(onError) && !Loop(hs, 1).ok
    ensures var n := Loop(hs, 1); var x := Exec(hs, onError, n.index, 0);
      Exec(hs, p, 0, 0) == Outcome(x.ok, x.index, n.trace + x.trace)
    decreases p
  {
    match p
    case Next(_, _) =>
    case IfAborted(_, no) => FirstNextFails(hs, no, onError);
  }

  /** A chain whose first handler does not fail quietly on the error of the rest. */
  lemma BreaksTheRule(hs: Handlers, onError: Program)
    requires |hs| > 0 && OnFirstError(hs[0]) == Some(onError)
    requires var n := Loop(hs, 1);
      !n.ok && Fails(n.trace) && !FailsQuietly(onError, n.index >= ABORT_INDEX) && (n.index < ABORT_INDEX ==> n.index + 1 < |hs|)
    ensures !StopsAtFirstError(RunChain(hs))
  {
    hide FailsQuietly, HasStart, NoStartAfterFailure, Fails, Loop;
    var n := Loop(hs, 1);
    var x := Exec(hs, onError, n.index, 0);
    FirstNextFails(hs, hs[0], onError);
    NotQuiet(hs, onError, n.index, 0);
    var rest := if x.ok then Loop(hs, x.index + 1) else Outcome(false, x.index, []);
    if x.ok && !rest.ok { NotOkStarted(hs, x.index + 1); }
    RunSplits(hs);
    FailureIsLost(n.trace, x.trace, x.ok, rest);
  }

  lemma RunSplits(hs: Handlers)
    requires |hs| > 0
    ensures var e := Exec(hs, hs[0], 0, 0);
      var rest := if e.ok then Loop(hs, e.index + 1) else Outcome(false, e.index, []);
      RunChain(hs).ok == rest.ok && RunChain(hs).trace == [Start(0)] + e.trace + [Finish(0, e.ok)] + rest.trace
  {
    hide Exec;
  }

  /** A failure below that is followed by a start, or by a nil error. */
  lemma FailureIsLost(below: seq<Event>, after: seq<Event>, ok: bool, rest: Outcome)
    requires Fails(below) && (ok || HasStart(after)) && (ok && !rest.ok ==> HasStart(rest.trace))
    ensures var trace := [Start(0)] + (below + after) + [Finish(0, ok)] + rest.trace;
      !(NoStartAfterFailure(trace) && (rest.ok <==> !Fails(trace)))
  {
    hide HasStart, NoStartAfterFailure, Fails;
    var before, last := [Start(0)] + below, [Finish(0, ok)];
    var trace := [Start(0)] + (below + after) + last + rest.trace;
    AbortsJoin([Start(0)], below);
    if HasStart(after) {
      assert trace == before + after + (last + rest.trace);
      FailureThenStart(before, after, last + rest.trace);
    } else {
      assert trace == before + (after + last) + rest.trace;
      AbortsJoin(before, after + last);
      AbortsJoin(before + (after + last), rest.trace);
      if !rest.ok {
        assert trace == before + (after + last) + rest.trace + [];
        FailureThenStart(before + (after + last), rest.trace, []);
      }
    }
  }

  lemma NotOkStarted(hs: Handlers, i: nat)
    requires !Loop(hs, i).ok
    ensures HasStart(Loop(hs, i).trace)
  {
    assert Loop(hs, i).trace[0] == Start(i);
  }

  /** The rest of a chain that shows what a handler does with an error, aborted or not. */
  function Failing(aborted: bool): seq<Program> {
    if aborted then [Abort(Return(false))] else [Return(false), Return(true)]
  }

  lemma FailingFails(p: Program, aborted: bool)
    ensures var hs := [p] + Failing(aborted); var n := Loop(hs, 1);
      !n.ok && Fails(n.trace) && n.index == if aborted then ABORT_INDEX else 1
    ensures AllSafe(Failing(aborted))
  {
    var hs := [p] + Failing(aborted);
    var n := Loop(hs, 1);
    if aborted {
      assert Exec(hs, Return(false), ABORT_INDEX, 1) == Outcome(false, ABORT_INDEX, []);
      assert Exec(hs, hs[1], 1, 1) == Outcome(false, ABORT_INDEX, [Aborted(1)]);
    } else {
      assert Exec(hs, hs[1], 1, 1) == Outcome(false, 1, []);
    }
    assert n.trace[|n.trace| - 1] == Finish(1, false);
  }

  /** A handler can stand before any safe handlers without breaking the rule if and only if it is safe. */
  lemma StopsAtFirstErrorExactlyWhen(p: Program)
    ensures Safe(p) <==>
      forall tail: seq<Program> :: |tail| <= ABORT_INDEX && AllSafe(tail) ==> StopsAtFirstError(RunChain([p] + tail))
  {
    if Safe(p) {
      forall tail: seq<Program> | |tail| <= ABORT_INDEX && AllSafe(tail)
        ensures StopsAtFirstError(RunChain([p] + tail))
      {
        assert forall k :: 0 < k < |[p] + tail| ==> ([p] + tail)[k] == tail[k - 1];
        ErrorsStopTheChain([p] + tail);
      }
    } else {
      var onError := OnFirstError(p).value;
      var aborted := FailsQuietly(onError, false);
      FailingFails(p, aborted);
      BreaksTheRule([p] + Failing(aborted), onError);
    }
  }

  // ---- nesting ----

  /** Reads a trace with a stack of started handlers; a handler that finishes must be the last started. */
  function Replay(trace: seq<Event>, open: seq<nat>): Option<seq<nat>>
    decreases |trace|
  {
    if trace == [] then Some(open)
    else match trace[0]
      case Start(k) => Replay(trace[1..], open + [k])
      case Aborted(_) => Replay(trace[1..], open)
      case Finish(k, _) =>
        if open != [] && open[|open| - 1] == k then Replay(trace[1..], open[..|open| - 1]) else None
  }

  lemma {:induction false} ReplayJoin(a: seq<Event>, b: seq<Event>, open: seq<nat>)
    requires Replay(a, open) == Some(open)
    ensures Replay(a + b, open) == Replay(b, open)
  {
    ReplayPrefix(a, b, open);
  }

  lemma {:induction false} ReplayPrefix(a: seq<Event>, b: seq<Event>, open: seq<nat>)
    ensures Replay(a + b, open) == match Replay(a, open) case None => None case Some(o) => Replay(b, o)
    decreases |a|
  {
    if a == [] {
      assert a + b == b;
    } else {
      assert (a + b)[1..] == a[1..] + b;
      match a[0]
      case Start(k) => ReplayPrefix(a[1..], b, open + [k]);
      case Aborted(_) => ReplayPrefix(a[1..], b, open);
      case Finish(k, _) => if open != [] && open[|open| - 1] == k { ReplayPrefix(a[1..], b, open[..|open| - 1]); }
    }
  }

  lemma {:induction false} LoopNests(hs: Handlers, i: nat, open: seq<nat>)
    ensures Replay(Loop(hs, i).trace, open) == Some(open)
    decreases if i < |hs| then |hs| - i else 0, 0
  {
    hide Exec;
    if i < |hs| {
      var r := Exec(hs, hs[i], i, i);
      ExecNests(hs, hs[i], i, i, open + [i]);
      TurnNests(i, r, open);
      if r.ok {
        LoopNests(hs, r.index + 1, open);
        ReplayJoin([Start(i)] + r.trace + [Finish(i, r.ok)], Loop(hs, r.index + 1).trace, open);
      }
    }
  }

  lemma TurnNests(i: nat, r: Outcome, open: seq<nat>)
    requires Replay(r.trace, open + [i]) == Some(open + [i])
    ensures Replay([Start(i)] + r.trace + [Finish(i, r.ok)], open) == Some(open)
  {
    var inner, last := open + [i], [Finish(i, r.ok)];
    ReplayJoin(r.trace, last, inner);
    assert inner[..|inner| - 1] == open;
    assert Replay(last, inner) == Some(open) by { assert last[1..] == []; }
    var all := [Start(i)] + (r.trace + last);
    assert all == [Start(i)] + r.trace + last && all[1..] == r.trace + last;
  }

  lemma {:induction false} ExecNests(hs: Handlers, p: Program, i: nat, self: nat, open: seq<nat>)
    ensures Replay(Exec(hs, p, i, self).trace, open) == Some(open)
    decreases Left(hs, i), 1, p
  {
    match p
    case Return(_) =>
    case Abort(andThen) =>
      ExecNests(hs, andThen, ABORT_INDEX, self, open);
      ReplayJoin([Aborted(self)], Exec(hs, andThen, ABORT_INDEX, self).trace, open);
    case Next(onNil, onError) =>
      var n := Loop(hs, i + 1);
      var after := if n.ok then onNil else onError;
      LoopNests(hs, i + 1, open);
      ExecNests(hs, after, n.index, self, open);
      ReplayJoin(n.trace, Exec(hs, after, n.index, self).trace, open);
    case IfAborted(yes, no) =>
      ExecNests(hs, if i >= ABORT_INDEX then yes else no, i, self, open);
  }

  /** For any handlers the trace is properly nested: a handler finishes before whoever called it. */
  lemma ChainNests(hs: Handlers)
    ensures Replay(RunChain(hs).trace, []) == Some([])
  {
    LoopNests(hs, 0, []);
  }

  // ---- wrap-around middleware ----

  /** Middleware of the usual form: code, one `Next`, code; an error of `Next` is passed on. */
  predicate Wraps(p: Program) { p.Next? && p.onNil.Return? && p.onError == Return(false) }

  /** Wrap-around middleware down to an endpoint. */
  predicate Layered(hs: seq<Program>) {
    hs != [] && hs[|hs| - 1].Return? && forall k :: 0 <= k < |hs| - 1 ==> Wraps(hs[k])
  }

  /** What handler `i` returns. */
  function ResultOf(hs: seq<Program>, i: nat): bool
    requires i < |hs| && Layered(hs)
    decreases |hs| - i
  {
    if i == |hs| - 1 then hs[i].ok
    else ResultOf(hs, i + 1) && hs[i].onNil.ok
  }

  /** In on the way down, out on the way up. */
  function Onion(hs: seq<Program>, i: nat): seq<Event>
    requires i < |hs| && Layered(hs)
    decreases |hs| - i
  {
    [Start(i)] + (if i == |hs| - 1 then [] else Onion(hs, i + 1)) + [Finish(i, ResultOf(hs, i))]
  }

  lemma {:induction false} LoopIsOnion(hs: Handlers, i: nat)
    requires i < |hs| && Layered(hs)
    ensures Loop(hs, i).trace == Onion(hs, i) && Loop(hs, i).ok == ResultOf(hs, i)
    decreases |hs| - i
  {
    var r := Exec(hs, hs[i], i, i);
    if i < |hs| - 1 {
      LoopIsOnion(hs, i + 1);
      LoopOkReachesEnd(hs, i + 1);
      var n := Loop(hs, i + 1);
      assert Wraps(hs[i]);
      OneNext(hs, hs[i], i);
      assert r == Outcome(ResultOf(hs, i), n.index, n.trace);
    }
    assert r.ok ==> Loop(hs, r.index + 1) == Outcome(true, r.index + 1, []);
  }

  lemma OneNext(hs: Handlers, p: Program, i: nat)
    requires Wraps(p)
    ensures var n := Loop(hs, i + 1); Exec(hs, p, i, i) == Outcome(n.ok && p.onNil.ok, n.index, n.trace)
  {
    hide Loop;
    var n := Loop(hs, i + 1);
    var after := if n.ok then p.onNil else p.onError;
    assert Exec(hs, after, n.index, i) == Outcome(after.ok, n.index, []);
  }

  /** Wrap-around middleware gives the onion trace: all start in order, and all finish in the reverse
      order, each passing on the first error it meets. */
  lemma MiddlewareWraps(hs: Handlers)
    requires Layered(hs)
    ensures RunChain(hs).trace == Onion(hs, 0) && RunChain(hs).ok == ResultOf(hs, 0)
  {
    LoopIsOnion(hs, 0);
  }

  /** Without the rule that errors are passed on, a handler starts after a failure: the first handler
      swallows the error of the second, and the chain goes on with the third. */
  lemma SwallowedErrorResumes()
    ensures var hs := [Next(Return(true), Return(true)), Return(false), Return(true)];
      RunChain(hs) ==
        Outcome(true, 3, [Start(0), Start(1), Finish(1, false), Finish(0, true), Start(2), Finish(2, true)])
  {
    var hs := [Next(Return(true), Return(true)), Return(false), Return(true)];
    assert Exec(hs, hs[1], 1, 1) == Outcome(false, 1, []);
    assert Loop(hs, 1) == Outcome(false, 1, [Start(1), Finish(1, false)]);
    assert Exec(hs, hs[0].onError, 1, 0) == Outcome(true, 1, []);
    assert Exec(hs, hs[0], 0, 0) == Outcome(true, 1, [Start(1), Finish(1, false)]);
    assert Loop(hs, 3) == Outcome(true, 3, []);
    assert Loop(hs, 2) == Outcome(true, 3, [Start(2), Finish(2, true)]);
  }
}
