/**
 The fallback of atomic/rwlock.h: every operation is an ordinary body, a few separate reads and
 writes of the word, run between lock and unlock of one mutex.  Any number of threads; lock,
 unlock and each access to the word are the atomic steps.
 */
module LockedOps {
  import opened AtomicSpec

  /** How far a body has come. */
  datatype Stage =
    | Entered
    | Saved(sav: Word)            // add, fas: sav= *a
    | Fetched(sav: Word, x: Word) // add: the read of *a+= v
    | Matched                     // cas: *a == *cmp was true
    | Mismatched                  // cas: it was false, *cmp= *a is next

  datatype Pc =
    | Idle
    | Waiting(id: nat, op: Op)
    | Inside(id: nat, op: Op, stage: Stage)
    | Leaving(id: nat, ret: Ret)  // body done, mutex still held
    | Finished(id: nat, ret: Ret)

  /** `holder` is the number of the thread that holds the mutex, plus one; 0 if it is free. */
  datatype System = System(cell: Word, holder: nat, pcs: seq<Pc>, hist: seq<Action>, lin: seq<Point>)

  datatype Step = Call(t: nat, op: Op) | Lock(t: nat) | Access(t: nat) | Unlock(t: nat) | Exit(t: nat)

  function Init(start: Word, threads: nat): System {
    System(start, 0, seq(threads, _ => Idle), [], [])
  }

  predicate Enabled(s: System, step: Step) {
    && step.t < |s.pcs|
    && match step
       case Call(t, _) => s.pcs[t].Idle?
       case Lock(t) => s.pcs[t].Waiting? && s.holder == 0
       case Access(t) => s.pcs[t].Inside?
       case Unlock(t) => s.pcs[t].Leaving?
       case Exit(t) => s.pcs[t].Finished?
  }

  function At(s: System, t: nat, pc: Pc): System
    requires t < |s.pcs|
  {
    s.(pcs := s.pcs[t := pc])
  }

  /** The last access of a body: the word becomes `value`, the result is `ret`. */
  function Done(s: System, t: nat, value: Word, ret: Ret): System
    requires t < |s.pcs| && s.pcs[t].Inside?
  {
    var pc := s.pcs[t];
    At(s, t, Leaving(pc.id, ret)).(cell := value, lin := s.lin + [Point(pc.id, pc.op, ret)])
  }

  /** One access to the word by the body that thread `t` runs. */
  function OneAccess(s: System, t: nat): System
    requires t < |s.pcs| && s.pcs[t].Inside?
  {
    var pc := s.pcs[t];
    match (pc.op, pc.stage)
    case (Add(v), Entered) => At(s, t, pc.(stage := Saved(s.cell)))
    case (Add(v), Saved(sav)) => At(s, t, pc.(stage := Fetched(sav, s.cell)))
    case (Add(v), Fetched(sav, x)) => Done(s, t, Plus(x, v), Old(sav))
    case (Fas(v), Entered) => At(s, t, pc.(stage := Saved(s.cell)))
    case (Fas(v), Saved(sav)) => Done(s, t, v, Old(sav))
    case (Cas(cmp, swap), Entered) => At(s, t, pc.(stage := if s.cell == cmp then Matched else Mismatched))
    case (Cas(cmp, swap), Matched) => Done(s, t, swap, Compared(true, cmp))
    case (Cas(cmp, swap), Mismatched) => Done(s, t, s.cell, Compared(false, s.cell))
    case (Load, Entered) => Done(s, t, s.cell, Old(s.cell))
    case (Store(v), Entered) => Done(s, t, v, Nothing)
    case (_, _) => s
  }

  function Next(s: System, step: Step): System
    requires Enabled(s, step)
  {
    match step
    case Call(t, op) => At(s, t, Waiting(|s.hist|, op)).(hist := s.hist + [Invoked(t, op)])
    case Lock(t) => At(s, t, Inside(s.pcs[t].id, s.pcs[t].op, Entered)).(holder := t + 1)
    case Access(t) => OneAccess(s, t)
    case Unlock(t) => At(s, t, Finished(s.pcs[t].id, s.pcs[t].ret)).(holder := 0)
    case Exit(t) => At(s, t, Idle).(hist := s.hist + [Returned(t, s.pcs[t].id, s.pcs[t].ret)])
  }

  function Exec(s: System, steps: seq<Step>): System {
    if steps == [] then s
    else
      var before, step := Exec(s, steps[..|steps| - 1]), steps[|steps| - 1];
      if Enabled(before, step) then Next(before, step) else before
  }

  // ---------------------------------------------------------------- the invariant

  /** What the registers of a body hold is what the word holds: nobody else touches it. */
  predicate StageOk(cell: Word, op: Op, stage: Stage) {
    match stage
    case Entered => true
    case Saved(sav) => (op.Add? || op.Fas?) && sav == cell
    case Fetched(sav, x) => op.Add? && sav == cell && x == cell
    case Matched => op.Cas? && op.cmp == cell
    case Mismatched => op.Cas? && op.cmp != cell
  }

  ghost predicate PcOk(s: System, t: nat)
    requires t < |s.pcs|
  {
    && (s.holder == t + 1 <==> s.pcs[t].Inside? || s.pcs[t].Leaving?)
    && match s.pcs[t]
       case Idle => true
       case Waiting(id, op) => Pending(s.hist, s.lin, t, id, op)
       case Inside(id, op, stage) => Pending(s.hist, s.lin, t, id, op) && StageOk(s.cell, op, stage)
       case Leaving(id, ret) => Settled(s.hist, s.lin, t, id, ret)
       case Finished(id, ret) => Settled(s.hist, s.lin, t, id, ret)
  }

  ghost predicate Inv(start: Word, s: System) {
    && Good(start, s.cell, s.hist, s.lin)
    && forall t :: 0 <= t < |s.pcs| ==> PcOk(s, t)
  }

  /** No two threads are inside the mutex. */
  lemma MutualExclusion(start: Word, threads: nat, steps: seq<Step>, t: nat, u: nat)
    requires var s := Exec(Init(start, threads), steps);
      && t < |s.pcs| && u < |s.pcs|
      && (s.pcs[t].Inside? || s.pcs[t].Leaving?) && (s.pcs[u].Inside? || s.pcs[u].Leaving?)
    ensures t == u
  {
    ExecPreserves(start, threads, steps);
    var s := Exec(Init(start, threads), steps);
    assert PcOk(s, t) && PcOk(s, u);
  }

  // A step of thread `t` that leaves word, history and effects alone.
  lemma LocalPreserves(start: Word, s: System, t: nat, pc: Pc, holder: nat)
    requires Inv(start, s) && t < |s.pcs|
    requires holder == s.holder || (s.holder == 0 && holder == t + 1) || (s.holder == t + 1 && holder == 0)
    requires PcOk(At(s, t, pc).(holder := holder), t)
    ensures Inv(start, At(s, t, pc).(holder := holder))
  {
    var s' := At(s, t, pc).(holder := holder);
    forall u | 0 <= u < |s'.pcs| ensures PcOk(s', u) {
      assert u != t ==> PcOk(s, u);
    }
  }

  lemma ActionPreserves(start: Word, s: System, t: nat, pc: Pc, a: Action)
    requires Inv(start, s) && t < |s.pcs| && a.thread == t
    requires var s' := At(s, t, pc).(hist := s.hist + [a]);
      Good(start, s'.cell, s'.hist, s'.lin) && PcOk(s', t)
    ensures Inv(start, At(s, t, pc).(hist := s.hist + [a]))
  {
    var s' := At(s, t, pc).(hist := s.hist + [a]);
    forall u | 0 <= u < |s'.pcs| ensures PcOk(s', u) {
      if u != t {
        assert PcOk(s, u);
        if !s.pcs[u].Idle? {
          AppendKeeps(s.hist, s.lin, a, u, s.pcs[u].id);
        }
      }
    }
  }

  lemma DonePreserves(start: Word, s: System, t: nat, value: Word, ret: Ret)
    requires Inv(start, s) && t < |s.pcs| && s.pcs[t].Inside?
    requires value == NewValue(s.cell, s.pcs[t].op) && ret == Result(s.cell, s.pcs[t].op)
    ensures Inv(start, Done(s, t, value, ret))
  {
    var pc, s' := s.pcs[t], Done(s, t, value, ret);
    assert PcOk(s, t);
    TakeEffect(start, s.cell, s.hist, s.lin, t, pc.id, pc.op);
    forall u | 0 <= u < |s'.pcs| ensures PcOk(s', u) {
      if u != t {
        assert PcOk(s, u);
        if !s.pcs[u].Idle? {
          EffectKeeps(s.hist, s.lin, Point(pc.id, pc.op, ret), u, s.pcs[u].id);
        }
      }
    }
  }

  lemma AccessPreserves(start: Word, s: System, t: nat)
    requires Inv(start, s) && t < |s.pcs| && s.pcs[t].Inside?
    ensures Inv(start, OneAccess(s, t))
  {
    var pc := s.pcs[t];
    assert PcOk(s, t);
    var s' := OneAccess(s, t);
    if s'.pcs[t].Leaving? {
      DonePreserves(start, s, t, s'.cell, s'.pcs[t].ret);
    } else {
      LocalPreserves(start, s, t, s'.pcs[t], s.holder);
    }
  }

  lemma NextPreserves(start: Word, s: System, step: Step)
    requires Inv(start, s) && Enabled(s, step)
    ensures Inv(start, Next(s, step))
  {
    assert PcOk(s, step.t);
    match step
    case Call(t, op) =>
      Invoke(start, s.cell, s.hist, s.lin, t, op);
      ActionPreserves(start, s, t, Waiting(|s.hist|, op), Invoked(t, op));
    case Lock(t) => LocalPreserves(start, s, t, Inside(s.pcs[t].id, s.pcs[t].op, Entered), t + 1);
    case Access(t) => AccessPreserves(start, s, t);
    case Unlock(t) => LocalPreserves(start, s, t, Finished(s.pcs[t].id, s.pcs[t].ret), 0);
    case Exit(t) =>
      Return(start, s.cell, s.hist, s.lin, t, s.pcs[t].id, s.pcs[t].ret);
      ActionPreserves(start, s, t, Idle, Returned(t, s.pcs[t].id, s.pcs[t].ret));
  }

  lemma {:induction false} ExecPreserves(start: Word, threads: nat, steps: seq<Step>)
    ensures Inv(start, Exec(Init(start, threads), steps))
  {
    if steps != [] {
      ExecPreserves(start, threads, steps[..|steps| - 1]);
      var before := Exec(Init(start, threads), steps[..|steps| - 1]);
      if Enabled(before, steps[|steps| - 1]) {
        NextPreserves(start, before, steps[|steps| - 1]);
      }
    }
  }

  lemma {:induction false} ThreadsStay(start: Word, threads: nat, steps: seq<Step>)
    ensures |Exec(Init(start, threads), steps).pcs| == threads
  {
    if steps != [] {
      ThreadsStay(start, threads, steps[..|steps| - 1]);
    }
  }

  /**
   The mutex-guarded bodies meet the same specification as the lock-free ones, and in every state
   the mutex is held by exactly the thread, if any, whose body is under way.
   */
  lemma Linearizability(start: Word, threads: nat, steps: seq<Step>)
    ensures var s := Exec(Init(start, threads), steps);
      && Linearizable(start, s.cell, s.hist)
      && |s.pcs| == threads
      && forall t :: 0 <= t < threads ==> (s.holder == t + 1 <==> s.pcs[t].Inside? || s.pcs[t].Leaving?)
  {
    ExecPreserves(start, threads, steps);
    ThreadsStay(start, threads, steps);
    var s := Exec(Init(start, threads), steps);
    assert Explains(start, s.cell, s.hist, s.lin);
    forall t | 0 <= t < threads ensures s.holder == t + 1 <==> s.pcs[t].Inside? || s.pcs[t].Leaving? {
      assert PcOk(s, t);
    }
  }

  // ---------------------------------------------------------------- adding, in plain integers

  ghost predicate CallsOnlyAdds(steps: seq<Step>) {
    forall step :: step in steps && step.Call? ==> AddOrLoad(step.op)
  }

  /** The call that each thread is inside, or -1. */
  function UnderWay(pcs: seq<Pc>): (at: seq<int>)
    ensures |at| == |pcs|
    ensures forall t :: 0 <= t < |pcs| ==> at[t] == if pcs[t].Idle? then -1 else pcs[t].id
  {
    seq(|pcs|, t requires 0 <= t < |pcs| => if pcs[t].Idle? then -1 else pcs[t].id)
  }

  lemma NextAccounted(s: System, step: Step)
    requires Enabled(s, step) && Accounted(s.hist, UnderWay(s.pcs))
    ensures Accounted(Next(s, step).hist, UnderWay(Next(s, step).pcs))
  {
    var at, at' := UnderWay(s.pcs), UnderWay(Next(s, step).pcs);
    match step
    case Call(t, op) =>
      CallAccounted(s.hist, at, t, op);
      assert at' == at[t := |s.hist|];
    case Exit(t) =>
      ReturnAccounted(s.hist, at, t, s.pcs[t].id, s.pcs[t].ret);
      assert at' == at[t := -1];
    case _ =>
      assert at' == at;
  }

  lemma {:induction false} CallsAccounted(start: Word, threads: nat, steps: seq<Step>)
    ensures var s := Exec(Init(start, threads), steps); Accounted(s.hist, UnderWay(s.pcs))
    ensures CallsOnlyAdds(steps) ==> OnlyAdds(Exec(Init(start, threads), steps).hist)
  {
    if steps != [] {
      var before, step := Exec(Init(start, threads), steps[..|steps| - 1]), steps[|steps| - 1];
      CallsAccounted(start, threads, steps[..|steps| - 1]);
      assert step in steps;
      if Enabled(before, step) {
        NextAccounted(before, step);
      }
    }
  }

  lemma RunIsExplained(start: Word, threads: nat, steps: seq<Step>)
    ensures var s := Exec(Init(start, threads), steps); Explains(start, s.cell, s.hist, s.lin)
  {
    ExecPreserves(start, threads, steps);
  }

  /**
   In every run the word is what it was last set to plus the sum of the adds since, modulo 2^32, and
   every operation that took effect returns what it must for the word it found.
   */
  lemma {:induction false} OperationsAreAtomic(start: Word, threads: nat, steps: seq<Step>)
    ensures var s := Exec(Init(start, threads), steps); Atomic(start, s.cell, s.lin)
  {
    var s := Exec(Init(start, threads), steps);
    RunIsExplained(start, threads, steps);
    ExplainedIsAtomic(start, s.cell, s.hist, s.lin);
  }

  /**
   In every run of adds and loads the word is `start` plus the integer sum of the adds that took
   effect, modulo 2^32, and each call has returned `start` plus the sum of those before it.
   */
  lemma {:induction false} AddsAdd(start: Word, threads: nat, steps: seq<Step>)
    requires CallsOnlyAdds(steps)
    ensures var s := Exec(Init(start, threads), steps); AddsUp(start, s.cell, s.hist, s.lin)
  {
    var s := Exec(Init(start, threads), steps);
    RunIsExplained(start, threads, steps);
    CallsAccounted(start, threads, steps);
    AddsAddUp(start, s.cell, s.hist, s.lin);
  }

  /** With no thread inside an operation, the word is `start` plus the sum of all adds ever called. */
  lemma {:induction false} AddsAddWhenIdle(start: Word, threads: nat, steps: seq<Step>)
    requires CallsOnlyAdds(steps)
    requires forall pc :: pc in Exec(Init(start, threads), steps).pcs ==> pc.Idle?
    ensures var s := Exec(Init(start, threads), steps); HoldsAll(start, s.cell, s.hist)
  {
    var s := Exec(Init(start, threads), steps);
    RunIsExplained(start, threads, steps);
    CallsAccounted(start, threads, steps);
    AllAddedWhenQuiet(start, s.cell, s.hist, s.lin, UnderWay(s.pcs));
  }
}
