/** `Context` with its shared index: the loop of `Next`, `Abort` and `runChain` as they run
    (context.go, router.go). */
module ContextObject {
  import opened Chain

  class Context {
    var handlers: Handlers
    var index: int
    ghost var trace: seq<Event>

    constructor ()
      ensures handlers == [] && index == -1 && trace == []
    {
      handlers, index, trace := [], -1, [];
    }

    predicate IsAborted()
      reads this
    {
      index >= ABORT_INDEX
    }

    method Abort()
      modifies `index
      ensures index == ABORT_INDEX && IsAborted()
    {
      index := ABORT_INDEX;
    }

    /** The state after a stretch of the run that started in the old state. */
    twostate predicate Ran(r: Outcome, ok: bool)
      reads this
    {
      ok == r.ok && index == r.index && trace == old(trace) + r.trace && handlers == old(handlers)
    }

    /** Runs the remaining handlers. */
    method Next() returns (ok: bool)
      requires index >= -1
      modifies this
      ensures Ran(Loop(old(handlers), old(index) + 1), ok)
      decreases if index + 1 < |handlers| then |handlers| - (index + 1) else 0, 0
    {
      hide Loop, Exec, Turn, Then;
      index := index + 1;
      ghost var hs, start, before, done := handlers, index, trace, [];
      NothingThen(Loop(hs, start));
      while index < |handlers|
        invariant start <= index && handlers == hs && trace == before + done
        invariant Loop(hs, start) == Then(done, Loop(hs, index))
        decreases |hs| - index
      {
        ghost var here := index;
        ok := RunHandler();
        LoopTurn(hs, here, done);
        done := TraceGrows(before, done, Turn(hs, here));
        if !ok {
          return false;
        }
        TurnAdvances(hs, here);
        index := index + 1;
      }
      LoopEnds(hs, index, done);
      return true;
    }

    /** One turn of the loop of `Next`: the handler at the index runs. */
    method RunHandler() returns (ok: bool)
      requires 0 <= index < |handlers|
      modifies this
      ensures var r := Exec(old(handlers), old(handlers[index]), old(index), old(index));
        ok == r.ok && index == r.index && trace == old(trace) + Turn(old(handlers), old(index)) && handlers == old(handlers)
      decreases Left(handlers, index), 2
    {
      hide Loop, Exec;
      ghost var here, sofar := index, trace;
      trace := trace + [Start(index)];
      ok := Invoke(handlers[index], index);
      trace := trace + [Finish(here, ok)];
      assert trace == sofar + Turn(handlers, here);
    }

    /** Handler `self` running: its calls of `Next` and `Abort` go to this context. */
    method Invoke(p: Program, ghost self: nat) returns (ok: bool)
      requires index >= 0
      modifies this
      ensures Ran(Exec(old(handlers), p, old(index), self), ok)
      decreases Left(handlers, index), 1, p
    {
      match p
      case Return(result) => return result;
      case Abort(andThen) =>
        trace := trace + [Aborted(self)];
        Abort();
        ok := Invoke(andThen, self);
      case Next(onNil, onError) =>
        var nil := Next();
        ok := Invoke(if nil then onNil else onError, self);
      case IfAborted(yes, no) =>
        ok := Invoke(if IsAborted() then yes else no, self);
    }

    /** Runs a matched chain from its first handler; what it returns decides whether the error handler
        of the router is called. */
    method RunChain(chain: Handlers) returns (ok: bool)
      modifies this
      ensures var r := Chain.RunChain(chain);
        ok == r.ok && index == r.index && trace == r.trace && handlers == chain
    {
      handlers, index, trace := chain, -1, [];
      ok := Next();
    }
  }

  /** A finished stretch followed by the rest. */
  function Then(done: seq<Event>, rest: Outcome): Outcome { rest.(trace := done + rest.trace) }

  lemma NothingThen(r: Outcome)
    ensures Then([], r) == r
  {
    assert [] + r.trace == r.trace;
  }

  /** What one turn of the loop adds to the trace. */
  function Turn(hs: Handlers, i: nat): seq<Event>
    requires i < |hs|
  {
    var r := Exec(hs, hs[i], i, i);
    [Start(i)] + r.trace + [Finish(i, r.ok)]
  }

  lemma LoopTurn(hs: Handlers, i: nat, done: seq<Event>)
    requires i < |hs|
    ensures var r := Exec(hs, hs[i], i, i);
      && (r.ok ==> Then(done, Loop(hs, i)) == Then(done + Turn(hs, i), Loop(hs, r.index + 1)))
      && (!r.ok ==> Then(done, Loop(hs, i)) == Outcome(false, r.index, done + Turn(hs, i)))
  {
    hide Exec;
    var r := Exec(hs, hs[i], i, i);
    if r.ok {
      var rest := Loop(hs, r.index + 1).trace;
      assert done + (Turn(hs, i) + rest) == done + Turn(hs, i) + rest;
    }
  }

  /** A handler that ran leaves fewer to start. */
  lemma TurnAdvances(hs: Handlers, i: nat)
    requires i < |hs|
    ensures Exec(hs, hs[i], i, i).index >= i || Exec(hs, hs[i], i, i).index >= |hs|
  {
  }

  lemma TraceGrows(before: seq<Event>, done: seq<Event>, turn: seq<Event>) returns (more: seq<Event>)
    ensures more == done + turn && before + more == before + done + turn
  {
    more := done + turn;
  }

  lemma LoopEnds(hs: Handlers, i: nat, done: seq<Event>)
    requires i >= |hs|
    ensures Then(done, Loop(hs, i)) == Outcome(true, i, done)
  {
    assert done + [] == done;
  }
}
