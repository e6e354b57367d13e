/**
 The operations that keep themselves going on `checkQueue`: one poll loop per host and the
 refresh loop.  A poll operation tests its cancel flag when it starts and again before it hands
 its successor to the main queue; the refresh operation tests it when it starts only.
 */
module PollLoop {

  /** `Poll(h)` is the loop of host `h`. */
  datatype Loop = Refresh | Poll(h: nat)

  datatype Phase =
    | Queued      // on checkQueue
    | Running     // past the test at the start
    | Passed      // past the second test, about to be handed to the main queue
    | Handed      // waiting on the main queue, where nothing cancels it

  datatype Operation = Operation(loop: Loop, phase: Phase, cancelled: bool)

  /** `adding` holds the operations that a reload in progress has still to add. */
  datatype State = State(ops: seq<Operation>, adding: seq<Loop>)

  datatype Step =
    | Start(i: nat)        // the queue starts operation i
    | Finish(i: nat)       // its body ends: second test, or the refresh loop renews itself
    | HandOver(i: nat)     // the block goes to the main queue
    | Renew(i: nat)        // the main queue runs it: a new operation on checkQueue
    | CancelAll            // the config sheet opens
    | Reload(hosts: seq<nat>)  // cancel everything, then add a refresh loop and these hosts
    | AddNext              // the reload adds its next operation

  predicate NoTwice(hosts: seq<nat>) {
    forall i, j :: 0 <= i < j < |hosts| ==> hosts[i] != hosts[j]
  }

  predicate Enabled(s: State, step: Step) {
    match step
    case Start(i) => i < |s.ops| && s.ops[i].phase.Queued?
    case Finish(i) => i < |s.ops| && s.ops[i].phase.Running?
    case HandOver(i) => i < |s.ops| && s.ops[i].phase.Passed?
    case Renew(i) => i < |s.ops| && s.ops[i].phase.Handed?
    case CancelAll => true
    case Reload(hosts) => s.adding == [] && NoTwice(hosts)
    case AddNext => s.adding != []
  }

  function WithoutOp(ops: seq<Operation>, i: nat): seq<Operation>
    requires i < |ops|
  {
    ops[..i] + ops[i + 1..]
  }

  /** Every operation known to checkQueue gets the flag; what waits on the main queue does not. */
  function Cancelled(op: Operation): Operation {
    if op.phase.Handed? then op else op.(cancelled := true)
  }

  function CancelEach(ops: seq<Operation>): seq<Operation> {
    if ops == [] then [] else CancelEach(ops[..|ops| - 1]) + [Cancelled(ops[|ops| - 1])]
  }

  function PollsOf(hosts: seq<nat>): seq<Loop> {
    if hosts == [] then [] else PollsOf(hosts[..|hosts| - 1]) + [Poll(hosts[|hosts| - 1])]
  }

  function NewOp(loop: Loop): Operation {
    Operation(loop, Queued, false)
  }

  function Next(s: State, step: Step): State
    requires Enabled(s, step)
  {
    match step
    case Start(i) =>
      if s.ops[i].cancelled then s.(ops := WithoutOp(s.ops, i))
      else s.(ops := s.ops[i := s.ops[i].(phase := Running)])
    case Finish(i) =>
      if s.ops[i].loop.Refresh? then s.(ops := s.ops[i := NewOp(Refresh)])
      else if s.ops[i].cancelled then s.(ops := WithoutOp(s.ops, i))
      else s.(ops := s.ops[i := s.ops[i].(phase := Passed)])
    case HandOver(i) => s.(ops := s.ops[i := s.ops[i].(phase := Handed)])
    case Renew(i) => s.(ops := s.ops[i := NewOp(s.ops[i].loop)])
    case CancelAll => s.(ops := CancelEach(s.ops))
    case Reload(hosts) => State(CancelEach(s.ops), [Refresh] + PollsOf(hosts))
    case AddNext => State(s.ops + [NewOp(s.adding[0])], s.adding[1..])
  }

  function Run(s: State, steps: seq<Step>): State {
    if steps == [] then s
    else
      var before, step := Run(s, steps[..|steps| - 1]), steps[|steps| - 1];
      if Enabled(before, step) then Next(before, step) else before
  }

  // ---------------------------------------------------------------- counting

  /** How many operations of a loop are outstanding: queued, running or waiting. */
  function Outstanding(ops: seq<Operation>, loop: Loop): nat {
    if ops == [] then 0
    else Outstanding(ops[..|ops| - 1], loop) + if ops[|ops| - 1].loop == loop then 1 else 0
  }

  /** An operation that will be succeeded by another unless it is cancelled first. */
  predicate Lasting(op: Operation) {
    !op.cancelled || op.phase.Passed? || op.phase.Handed? || (op.loop.Refresh? && op.phase.Running?)
  }

  /** An operation that a cancellation comes too late for. */
  predicate TooLate(op: Operation) {
    op.phase.Passed? || op.phase.Handed? || (op.loop.Refresh? && op.phase.Running?)
  }

  function CountLasting(ops: seq<Operation>, loop: Loop): nat {
    if ops == [] then 0
    else CountLasting(ops[..|ops| - 1], loop) +
         if ops[|ops| - 1].loop == loop && Lasting(ops[|ops| - 1]) then 1 else 0
  }

  function CountTooLate(ops: seq<Operation>, loop: Loop): nat {
    if ops == [] then 0
    else CountTooLate(ops[..|ops| - 1], loop) +
         if ops[|ops| - 1].loop == loop && TooLate(ops[|ops| - 1]) then 1 else 0
  }

  function Reloads(steps: seq<Step>): nat {
    if steps == [] then 0
    else Reloads(steps[..|steps| - 1]) + if steps[|steps| - 1].Reload? then 1 else 0
  }

  function Pending(adding: seq<Loop>, loop: Loop): nat {
    if adding == [] then 0
    else Pending(adding[1..], loop) + if adding[0] == loop then 1 else 0
  }

  /** What one operation contributes to the two counts. */
  function One(op: Operation, loop: Loop): nat {
    if op.loop == loop then 1 else 0
  }

  function OneLasting(op: Operation, loop: Loop): nat {
    if op.loop == loop && Lasting(op) then 1 else 0
  }

  lemma {:induction false} Replace(ops: seq<Operation>, i: nat, op: Operation, loop: Loop)
    requires i < |ops|
    ensures Outstanding(ops[i := op], loop) == Outstanding(ops, loop) - One(ops[i], loop) + One(op, loop)
    ensures CountLasting(ops[i := op], loop) ==
            CountLasting(ops, loop) - OneLasting(ops[i], loop) + OneLasting(op, loop)
  {
    var n := |ops| - 1;
    if i < n {
      Replace(ops[..n], i, op, loop);
      assert ops[i := op][..n] == ops[..n][i := op];
    } else {
      assert ops[i := op][..n] == ops[..n];
    }
  }

  lemma {:induction false} Delete(ops: seq<Operation>, i: nat, loop: Loop)
    requires i < |ops|
    ensures Outstanding(WithoutOp(ops, i), loop) == Outstanding(ops, loop) - One(ops[i], loop)
    ensures CountLasting(WithoutOp(ops, i), loop) == CountLasting(ops, loop) - OneLasting(ops[i], loop)
  {
    var n := |ops| - 1;
    if i < n {
      Delete(ops[..n], i, loop);
      assert WithoutOp(ops, i)[..n - 1] == WithoutOp(ops[..n], i);
    } else {
      assert WithoutOp(ops, i) == ops[..n];
    }
  }

  lemma Append(ops: seq<Operation>, op: Operation, loop: Loop)
    ensures Outstanding(ops + [op], loop) == Outstanding(ops, loop) + One(op, loop)
    ensures CountLasting(ops + [op], loop) == CountLasting(ops, loop) + OneLasting(op, loop)
  {
    assert (ops + [op])[..|ops|] == ops;
  }

  lemma {:induction false} CancelCounts(ops: seq<Operation>, loop: Loop)
    requires forall op :: op in ops && op.phase.Handed? ==> !op.loop.Refresh?
    ensures Outstanding(CancelEach(ops), loop) == Outstanding(ops, loop)
    ensures CountLasting(CancelEach(ops), loop) == CountTooLate(ops, loop)
  {
    if ops != [] {
      var front := ops[..|ops| - 1];
      CancelCounts(front, loop);
      assert CancelEach(ops)[..|CancelEach(front)|] == CancelEach(front);
    }
  }

  lemma {:induction false} PendingPolls(hosts: seq<nat>, loop: Loop)
    requires NoTwice(hosts)
    ensures Pending(PollsOf(hosts), loop) == if loop.Poll? && loop.h in hosts then 1 else 0
  {
    if hosts != [] {
      var front, h := hosts[..|hosts| - 1], hosts[|hosts| - 1];
      assert hosts == front + [h];
      PendingPolls(front, loop);
      PendingAppend(PollsOf(front), Poll(h), loop);
    }
  }

  lemma {:induction false} PendingAppend(adding: seq<Loop>, last: Loop, loop: Loop)
    ensures Pending(adding + [last], loop) == Pending(adding, loop) + if last == loop then 1 else 0
  {
    if adding != [] {
      PendingAppend(adding[1..], last, loop);
      assert (adding + [last])[1..] == adding[1..] + [last];
    } else {
      assert ([last])[1..] == [];
      assert adding + [last] == [last];
    }
  }

  lemma ReloadPending(hosts: seq<nat>, loop: Loop)
    requires NoTwice(hosts)
    ensures Pending([Refresh] + PollsOf(hosts), loop) <= 1
  {
    PendingPolls(hosts, loop);
    assert ([Refresh] + PollsOf(hosts))[1..] == PollsOf(hosts);
  }

  // ---------------------------------------------------------------- conservation

  /** The phases that exist: the refresh loop is never handed over. */
  ghost predicate Ok(s: State) {
    forall op :: op in s.ops && (op.phase.Passed? || op.phase.Handed?) ==> op.loop.Poll?
  }

  lemma {:induction false} CancelKeepsPhases(ops: seq<Operation>)
    ensures forall op' :: op' in CancelEach(ops) ==> exists op :: op in ops && op' == Cancelled(op)
  {
    if ops != [] {
      CancelKeepsPhases(ops[..|ops| - 1]);
    }
  }

  lemma StepOk(s: State, step: Step)
    requires Ok(s) && Enabled(s, step)
    ensures Ok(Next(s, step))
  {
    CancelKeepsPhases(s.ops);
  }

  /**
   One step never makes more of a loop, except that a reload adds what it has announced; what
   goes on changes only by cancelling, which spares what it is too late for, and by adding.
   */
  ghost predicate Conserves(s: State, step: Step, loop: Loop)
    requires Enabled(s, step)
  {
    var s' := Next(s, step);
    && Outstanding(s'.ops, loop) + Pending(s'.adding, loop)
         <= Outstanding(s.ops, loop) + Pending(s.adding, loop) + (if step.Reload? then 1 else 0)
    && (!step.AddNext? ==> Outstanding(s'.ops, loop) <= Outstanding(s.ops, loop))
    && (Quiet(step) ==> CountLasting(s'.ops, loop) == CountLasting(s.ops, loop))
    && (step.CancelAll? || step.Reload? ==> CountLasting(s'.ops, loop) == CountTooLate(s.ops, loop))
  }

  lemma StartConserves(s: State, i: nat, loop: Loop)
    requires Ok(s) && Enabled(s, Start(i))
    ensures Conserves(s, Start(i), loop)
  {
    if s.ops[i].cancelled {
      Delete(s.ops, i, loop);
    } else {
      Replace(s.ops, i, s.ops[i].(phase := Running), loop);
    }
  }

  lemma FinishConserves(s: State, i: nat, loop: Loop)
    requires Ok(s) && Enabled(s, Finish(i))
    ensures Conserves(s, Finish(i), loop)
  {
    if s.ops[i].loop.Refresh? {
      Replace(s.ops, i, NewOp(Refresh), loop);
    } else if s.ops[i].cancelled {
      Delete(s.ops, i, loop);
    } else {
      Replace(s.ops, i, s.ops[i].(phase := Passed), loop);
    }
  }

  lemma ReloadConserves(s: State, hosts: seq<nat>, loop: Loop)
    requires Ok(s) && Enabled(s, Reload(hosts))
    ensures Conserves(s, Reload(hosts), loop)
  {
    CancelCounts(s.ops, loop);
    ReloadPending(hosts, loop);
  }

  lemma StepConserves(s: State, step: Step, loop: Loop)
    requires Ok(s) && Enabled(s, step)
    ensures Conserves(s, step, loop)
  {
    match step
    case Start(i) => StartConserves(s, i, loop);
    case Finish(i) => FinishConserves(s, i, loop);
    case HandOver(i) => Replace(s.ops, i, s.ops[i].(phase := Handed), loop);
    case Renew(i) => Replace(s.ops, i, NewOp(s.ops[i].loop), loop);
    case CancelAll => CancelCounts(s.ops, loop);
    case Reload(hosts) => ReloadConserves(s, hosts, loop);
    case AddNext => Append(s.ops, NewOp(s.adding[0]), loop);
  }

  lemma {:induction false} RunOk(s: State, steps: seq<Step>)
    requires Ok(s)
    ensures Ok(Run(s, steps))
  {
    if steps != [] {
      RunOk(s, steps[..|steps| - 1]);
      if Enabled(Run(s, steps[..|steps| - 1]), steps[|steps| - 1]) {
        StepOk(Run(s, steps[..|steps| - 1]), steps[|steps| - 1]);
      }
    }
  }

  /** Over any run, the operations of a loop rise by at most one per reload. */
  lemma {:induction false} AtMostOnePerReload(s: State, steps: seq<Step>, loop: Loop)
    requires Ok(s)
    ensures var s' := Run(s, steps);
      Outstanding(s'.ops, loop) + Pending(s'.adding, loop)
        <= Outstanding(s.ops, loop) + Pending(s.adding, loop) + Reloads(steps)
  {
    if steps != [] {
      var front, step := steps[..|steps| - 1], steps[|steps| - 1];
      AtMostOnePerReload(s, front, loop);
      RunOk(s, front);
      if Enabled(Run(s, front), step) {
        StepConserves(Run(s, front), step, loop);
      }
    }
  }

  predicate Quiet(step: Step) {
    !step.CancelAll? && !step.Reload? && !step.AddNext?
  }

  /** Self-rescheduling alone: the loops that go on are neither more nor fewer. */
  lemma {:induction false} LastingIsConstant(s: State, steps: seq<Step>, loop: Loop)
    requires Ok(s) && forall step :: step in steps ==> Quiet(step)
    ensures CountLasting(Run(s, steps).ops, loop) == CountLasting(s.ops, loop)
  {
    if steps != [] {
      var front, step := steps[..|steps| - 1], steps[|steps| - 1];
      LastingIsConstant(s, front, loop);
      RunOk(s, front);
      assert step in steps;
      if Enabled(Run(s, front), step) {
        StepConserves(Run(s, front), step, loop);
      }
    }
  }

  ghost predicate NoneCancelled(s: State) {
    forall op :: op in s.ops ==> !op.cancelled
  }

  lemma {:induction false} AllLasting(ops: seq<Operation>, loop: Loop)
    requires forall op :: op in ops ==> !op.cancelled
    ensures CountLasting(ops, loop) == Outstanding(ops, loop)
  {
    if ops != [] {
      AllLasting(ops[..|ops| - 1], loop);
    }
  }

  lemma {:induction false} StaysUncancelled(s: State, steps: seq<Step>)
    requires NoneCancelled(s) && forall step :: step in steps ==> Quiet(step)
    ensures NoneCancelled(Run(s, steps))
  {
    if steps != [] {
      StaysUncancelled(s, steps[..|steps| - 1]);
      assert steps[|steps| - 1] in steps;
    }
  }

  /** With nothing cancelled and no reload, the number of operations of a loop never changes. */
  lemma OutstandingIsConstant(s: State, steps: seq<Step>, loop: Loop)
    requires Ok(s) && NoneCancelled(s) && forall step :: step in steps ==> Quiet(step)
    ensures Outstanding(Run(s, steps).ops, loop) == Outstanding(s.ops, loop)
  {
    LastingIsConstant(s, steps, loop);
    StaysUncancelled(s, steps);
    AllLasting(s.ops, loop);
    AllLasting(Run(s, steps).ops, loop);
  }

  /**
   What a cancellation achieves, exactly: of each loop, as many go on afterwards, for as long as
   nothing is cancelled or reloaded again, as had passed their last test when it came.
   */
  lemma CancelSparesTheLate(s: State, steps: seq<Step>, loop: Loop)
    requires Ok(s) && forall step :: step in steps ==> Quiet(step)
    ensures CountLasting(Run(Next(s, CancelAll), steps).ops, loop) == CountTooLate(s.ops, loop)
  {
    StepOk(s, CancelAll);
    StepConserves(s, CancelAll, loop);
    LastingIsConstant(Next(s, CancelAll), steps, loop);
  }

  // ---------------------------------------------------------------- what a reload starts

  lemma ReloadAnnounces(hosts: seq<nat>, loop: Loop)
    requires NoTwice(hosts)
    ensures Pending([Refresh] + PollsOf(hosts), loop) == if loop.Refresh? || loop.h in hosts then 1 else 0
  {
    PendingPolls(hosts, loop);
    assert ([Refresh] + PollsOf(hosts))[1..] == PollsOf(hosts);
  }

  // Adding what was announced makes it lasting; the other steps change neither.
  lemma StepDelivers(s: State, step: Step, loop: Loop)
    requires Ok(s) && Enabled(s, step) && !step.CancelAll? && !step.Reload?
    ensures var s' := Next(s, step);
      CountLasting(s'.ops, loop) + Pending(s'.adding, loop) == CountLasting(s.ops, loop) + Pending(s.adding, loop)
  {
    if step.AddNext? {
      Append(s.ops, NewOp(s.adding[0]), loop);
    } else {
      StepConserves(s, step, loop);
      assert Next(s, step).adding == s.adding;
    }
  }

  lemma {:induction false} RunDelivers(s: State, steps: seq<Step>, loop: Loop)
    requires Ok(s) && forall step :: step in steps ==> !step.CancelAll? && !step.Reload?
    ensures var s' := Run(s, steps);
      CountLasting(s'.ops, loop) + Pending(s'.adding, loop) == CountLasting(s.ops, loop) + Pending(s.adding, loop)
  {
    if steps != [] {
      var front, step := steps[..|steps| - 1], steps[|steps| - 1];
      RunDelivers(s, front, loop);
      RunOk(s, front);
      assert step in steps;
      if Enabled(Run(s, front), step) {
        StepDelivers(Run(s, front), step, loop);
      }
    }
  }

  /**
   What a reload achieves, exactly: when it has added everything, and nothing was cancelled or
   reloaded since, the refresh loop and the loop of every host it was given go on once more than
   had passed their last test when it came, and the other loops as often as that.
   */
  lemma ReloadStarts(s: State, hosts: seq<nat>, steps: seq<Step>, loop: Loop)
    requires Ok(s) && Enabled(s, Reload(hosts))
    requires forall step :: step in steps ==> !step.CancelAll? && !step.Reload?
    requires Run(Next(s, Reload(hosts)), steps).adding == []
    ensures CountLasting(Run(Next(s, Reload(hosts)), steps).ops, loop)
         == CountTooLate(s.ops, loop) + if loop.Refresh? || loop.h in hosts then 1 else 0
  {
    var reloaded := Next(s, Reload(hosts));
    StepOk(s, Reload(hosts));
    StepConserves(s, Reload(hosts), loop);
    ReloadAnnounces(hosts, loop);
    RunDelivers(reloaded, steps, loop);
  }

  lemma {:induction false} LastingIsOutstanding(ops: seq<Operation>, loop: Loop)
    ensures CountLasting(ops, loop) <= Outstanding(ops, loop)
  {
    if ops != [] {
      LastingIsOutstanding(ops[..|ops| - 1], loop);
    }
  }

  /** In particular every host given to a reload is polled afterwards. */
  lemma ReloadedHostIsPolled(s: State, hosts: seq<nat>, steps: seq<Step>, h: nat)
    requires Ok(s) && Enabled(s, Reload(hosts)) && h in hosts
    requires forall step :: step in steps ==> !step.CancelAll? && !step.Reload?
    requires Run(Next(s, Reload(hosts)), steps).adding == []
    ensures Outstanding(Run(Next(s, Reload(hosts)), steps).ops, Poll(h)) >= 1
  {
    ReloadStarts(s, hosts, steps, Poll(h));
    LastingIsOutstanding(Run(Next(s, Reload(hosts)), steps).ops, Poll(h));
  }

  // ---------------------------------------------------------------- what a cancellation stops

  /** How many operations of a loop are past the test at their start and not yet at the second. */
  function CountRunning(ops: seq<Operation>, loop: Loop): nat {
    if ops == [] then 0
    else CountRunning(ops[..|ops| - 1], loop) + OneRunning(ops[|ops| - 1], loop)
  }

  function OneRunning(op: Operation, loop: Loop): nat {
    if op.loop == loop && op.phase.Running? then 1 else 0
  }

  lemma {:induction false} ReplaceRunning(ops: seq<Operation>, i: nat, op: Operation, loop: Loop)
    requires i < |ops|
    ensures CountRunning(ops[i := op], loop)
         == CountRunning(ops, loop) - OneRunning(ops[i], loop) + OneRunning(op, loop)
  {
    var n := |ops| - 1;
    if i < n {
      ReplaceRunning(ops[..n], i, op, loop);
      assert ops[i := op][..n] == ops[..n][i := op];
    } else {
      assert ops[i := op][..n] == ops[..n];
    }
  }

  lemma {:induction false} DeleteRunning(ops: seq<Operation>, i: nat, loop: Loop)
    requires i < |ops|
    ensures CountRunning(WithoutOp(ops, i), loop) == CountRunning(ops, loop) - OneRunning(ops[i], loop)
  {
    var n := |ops| - 1;
    if i < n {
      DeleteRunning(ops[..n], i, loop);
      assert WithoutOp(ops, i)[..n - 1] == WithoutOp(ops[..n], i);
    } else {
      assert WithoutOp(ops, i) == ops[..n];
    }
  }

  lemma {:induction false} CancelKeepsRunning(ops: seq<Operation>, loop: Loop)
    ensures CountRunning(CancelEach(ops), loop) == CountRunning(ops, loop)
  {
    if ops != [] {
      var front := ops[..|ops| - 1];
      CancelKeepsRunning(front, loop);
      assert CancelEach(ops)[..|CancelEach(front)|] == CancelEach(front);
    }
  }

  lemma {:induction false} NoneLasting(ops: seq<Operation>, loop: Loop, i: nat)
    requires CountLasting(ops, loop) == 0 && i < |ops| && ops[i].loop == loop
    ensures !Lasting(ops[i])
  {
    var n := |ops| - 1;
    if i < n {
      NoneLasting(ops[..n], loop, i);
    }
  }

  // Of a loop that does not go on, nothing starts.
  lemma StepStartsNothing(s: State, step: Step, loop: Loop)
    requires Ok(s) && Enabled(s, step) && Quiet(step) && CountLasting(s.ops, loop) == 0
    ensures CountRunning(Next(s, step).ops, loop) <= CountRunning(s.ops, loop)
  {
    var i := step.i;
    if s.ops[i].loop == loop {
      NoneLasting(s.ops, loop, i);
    }
    match step
    case Start(_) =>
      if s.ops[i].cancelled {
        DeleteRunning(s.ops, i, loop);
      } else {
        ReplaceRunning(s.ops, i, s.ops[i].(phase := Running), loop);
      }
    case Finish(_) =>
      if s.ops[i].loop.Refresh? {
        ReplaceRunning(s.ops, i, NewOp(Refresh), loop);
      } else if s.ops[i].cancelled {
        DeleteRunning(s.ops, i, loop);
      } else {
        ReplaceRunning(s.ops, i, s.ops[i].(phase := Passed), loop);
      }
    case HandOver(_) => ReplaceRunning(s.ops, i, s.ops[i].(phase := Handed), loop);
    case Renew(_) => ReplaceRunning(s.ops, i, NewOp(s.ops[i].loop), loop);
  }

  /**
   A loop of which nothing had passed its last test when everything was cancelled does not run any
   more: no operation of it starts again, until something is cancelled or reloaded.
   */
  lemma {:induction false} CancelledNeverStarts(s: State, steps: seq<Step>, loop: Loop)
    requires Ok(s) && CountTooLate(s.ops, loop) == 0 && forall step :: step in steps ==> Quiet(step)
    ensures CountRunning(Run(Next(s, CancelAll), steps).ops, loop) <= CountRunning(s.ops, loop)
  {
    if steps == [] {
      CancelKeepsRunning(s.ops, loop);
    } else {
      var front, step := steps[..|steps| - 1], steps[|steps| - 1];
      CancelledNeverStarts(s, front, loop);
      CancelSparesTheLate(s, front, loop);
      StepOk(s, CancelAll);
      RunOk(Next(s, CancelAll), front);
      assert step in steps;
      if Enabled(Run(Next(s, CancelAll), front), step) {
        StepStartsNothing(Run(Next(s, CancelAll), front), step, loop);
      }
    }
  }
}
