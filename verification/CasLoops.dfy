/**
 The operations of my_atomic.h on a platform that supplies compare-and-swap and perhaps more
 (atomic/gcc_builtins.h): add, fetch-and-store and store as retry loops around CAS, load as a
 single CAS, mixed with the native forms.  Any number of threads, one shared word, atomic steps
 in any order.
 */
module CasLoops {
  import opened AtomicSpec

  datatype Pc =
    | Idle
    | Begun(id: nat, op: Op)
      // has last read `tmp` after `seen` changes of the word, and first read it after `first`; `failed` CASes so far
    | Spinning(id: nat, op: Op, tmp: Word, failed: nat, first: nat, seen: nat)
      // took effect after `last` changes of the word
    | Finished(id: nat, ret: Ret, failed: nat, first: nat, last: nat)

  /** `writers` lists the threads that changed the value of the word, in order. */
  datatype System = System(
    cell: Word,
    pcs: seq<Pc>,
    hist: seq<Action>,
    lin: seq<Point>,
    writers: seq<nat>)

  datatype Step =
    | Call(t: nat, op: Op)
    | Read(t: nat)       // int tmp= *a
    | TryCas(t: nat)     // one turn of the retry loop
    | CasLoad(t: nat)    // load derived from CAS: compare with 0, store 0
    | Native(t: nat)     // an operation the platform supplies
    | Exit(t: nat)

  function Init(start: Word, threads: nat): System {
    System(start, seq(threads, _ => Idle), [], [], [])
  }

  /** The operations built as retry loops; store is fetch-and-store without the result. */
  predicate Loops(op: Op) {
    op.Add? || op.Fas? || op.Store?
  }

  /** What the loop offers to store when it believes the word to be `tmp`. */
  function Offer(op: Op, tmp: Word): Word
    requires Loops(op)
  {
    match op
    case Add(v) => Plus(tmp, v)
    case Fas(v) => v
    case Store(v) => v
  }

  /** The result after the loop: `v= tmp`, dropped by store. */
  function LoopResult(op: Op, tmp: Word): Ret {
    if op.Store? then Nothing else Old(tmp)
  }

  predicate Enabled(s: System, step: Step) {
    && step.t < |s.pcs|
    && var pc := s.pcs[step.t];
      match step
      case Call(_, _) => pc.Idle?
      case Read(_) => pc.Begun? && Loops(pc.op)
      case TryCas(_) => pc.Spinning? && Loops(pc.op)
      case CasLoad(_) => pc.Begun? && pc.op.Load?
      case Native(_) => pc.Begun? && !pc.op.Fas?
      case Exit(_) => pc.Finished?
  }

  function Changed(s: System, t: nat, value: Word): seq<nat> {
    if value == s.cell then s.writers else s.writers + [t]
  }

  /** `t` stores `value`, its operation takes effect and the result is `ret`. */
  function Effect(s: System, t: nat, op: Op, value: Word, ret: Ret): System
    requires t < |s.pcs| && (s.pcs[t].Begun? || s.pcs[t].Spinning?)
  {
    var pc := s.pcs[t];
    var changes := |s.writers|;
    s.(cell := value,
       lin := s.lin + [Point(pc.id, op, ret)],
       writers := Changed(s, t, value),
       pcs := s.pcs[t := Finished(pc.id, ret,
                                  if pc.Spinning? then pc.failed else 0,
                                  if pc.Spinning? then pc.first else changes,
                                  changes)])
  }

  function Next(s: System, step: Step): System
    requires Enabled(s, step)
  {
    var t := step.t;
    var pc := s.pcs[t];
    match step
    case Call(_, op) =>
      s.(pcs := s.pcs[t := Begun(|s.hist|, op)], hist := s.hist + [Invoked(t, op)])
    case Read(_) =>
      s.(pcs := s.pcs[t := Spinning(pc.id, pc.op, s.cell, 0, |s.writers|, |s.writers|)])
    case TryCas(_) =>
      if s.cell == pc.tmp then
        Effect(s, t, pc.op, Offer(pc.op, pc.tmp), LoopResult(pc.op, pc.tmp))
      else
        s.(pcs := s.pcs[t := pc.(tmp := s.cell, failed := pc.failed + 1, seen := |s.writers|)])
    case CasLoad(_) =>
      Effect(s, t, pc.op, if s.cell == 0 then 0 else s.cell, Old(if s.cell == 0 then 0 else s.cell))
    case Native(_) =>
      Effect(s, t, pc.op, NewValue(s.cell, pc.op), Result(s.cell, pc.op))
    case Exit(_) =>
      s.(pcs := s.pcs[t := Idle], hist := s.hist + [Returned(t, pc.id, pc.ret)])
  }

  /** A run; steps that are not possible where they stand are skipped. */
  function Exec(s: System, steps: seq<Step>): System {
    if steps == [] then s
    else
      var before, step := Exec(s, steps[..|steps| - 1]), steps[|steps| - 1];
      if Enabled(before, step) then Next(before, step) else before
  }

  /** How many of the changes `ws` were made by threads other than `t`. */
  function Others(ws: seq<nat>, t: nat): nat {
    if ws == [] then 0
    else Others(ws[..|ws| - 1], t) + if ws[|ws| - 1] == t then 0 else 1
  }

  // ---------------------------------------------------------------- the invariant

  ghost predicate PcOk(s: System, t: nat)
    requires t < |s.pcs|
  {
    match s.pcs[t]
    case Idle => true
    case Begun(id, op) => Pending(s.hist, s.lin, t, id, op)
    case Spinning(id, op, tmp, failed, first, seen) =>
      && Pending(s.hist, s.lin, t, id, op) && Loops(op)
      && first <= seen <= |s.writers|
      && (tmp != s.cell ==> Others(s.writers[seen..], t) > 0)
      && failed + (if tmp == s.cell then 0 else 1) <= Others(s.writers[first..], t)
    case Finished(id, ret, failed, first, last) =>
      && Settled(s.hist, s.lin, t, id, ret)
      && first <= last <= |s.writers|
      && failed <= Others(s.writers[first..last], t)
  }

  ghost predicate Inv(start: Word, s: System) {
    && Good(start, s.cell, s.hist, s.lin)
    && forall t :: 0 <= t < |s.pcs| ==> PcOk(s, t)
  }

  lemma OthersStep(ws: seq<nat>, first: nat, w: nat, t: nat)
    requires first <= |ws|
    ensures Others((ws + [w])[first..], t) == Others(ws[first..], t) + if w == t then 0 else 1
  {
    assert (ws + [w])[first..] == ws[first..] + [w];
    assert (ws[first..] + [w])[..|ws[first..]|] == ws[first..];
  }

  // Another thread's step, whatever it is, leaves thread `u` consistent.
  lemma OthersEffectKeeps(s: System, t: nat, u: nat, op: Op, value: Word, ret: Ret)
    requires t < |s.pcs| && u < |s.pcs| && u != t && PcOk(s, t) && PcOk(s, u)
    requires s.pcs[t].Begun? || s.pcs[t].Spinning?
    ensures PcOk(Effect(s, t, op, value, ret), u)
  {
    var s' := Effect(s, t, op, value, ret);
    if !s.pcs[u].Idle? {
      EffectKeeps(s.hist, s.lin, Point(s.pcs[t].id, op, ret), u, s.pcs[u].id);
    }
    if s.pcs[u].Spinning? {
      OthersStep(s.writers, s.pcs[u].first, t, u);
      OthersStep(s.writers, s.pcs[u].seen, t, u);
    }
    if s.pcs[u].Finished? && value != s.cell {
      var first, last := s.pcs[u].first, s.pcs[u].last;
      assert s'.writers[first..last] == s.writers[first..last];
    }
  }

  lemma OthersActionKeeps(s: System, t: nat, u: nat, pc: Pc, a: Action)
    requires t < |s.pcs| && u < |s.pcs| && u != t && PcOk(s, u)
    requires WellFormedHistory(s.hist + [a]) && a.thread == t
    ensures PcOk(s.(pcs := s.pcs[t := pc], hist := s.hist + [a]), u)
  {
    if !s.pcs[u].Idle? {
      AppendKeeps(s.hist, s.lin, a, u, s.pcs[u].id);
    }
  }

  lemma OwnEffect(s: System, t: nat, op: Op, value: Word, ret: Ret)
    requires t < |s.pcs| && PcOk(s, t) && (s.pcs[t].Begun? || s.pcs[t].Spinning?)
    requires s.pcs[t].Spinning? ==> s.pcs[t].tmp == s.cell
    requires Settled(s.hist, s.lin + [Point(s.pcs[t].id, op, ret)], t, s.pcs[t].id, ret)
    ensures PcOk(Effect(s, t, op, value, ret), t)
  {
    var pc, s' := s.pcs[t], Effect(s, t, op, value, ret);
    if pc.Spinning? {
      assert s'.writers[pc.first..|s.writers|] == s.writers[pc.first..];
    } else {
      assert s'.writers[|s.writers|..|s.writers|] == [];
    }
  }

  // The step on which an operation takes effect.
  lemma EffectPreserves(start: Word, s: System, t: nat, op: Op, value: Word, ret: Ret)
    requires Inv(start, s) && t < |s.pcs| && (s.pcs[t].Begun? || s.pcs[t].Spinning?)
    requires s.pcs[t].Spinning? ==> s.pcs[t].tmp == s.cell
    requires op == s.pcs[t].op && value == NewValue(s.cell, op) && ret == Result(s.cell, op)
    ensures Inv(start, Effect(s, t, op, value, ret))
  {
    var s' := Effect(s, t, op, value, ret);
    assert PcOk(s, t);
    TakeEffect(start, s.cell, s.hist, s.lin, t, s.pcs[t].id, op);
    OwnEffect(s, t, op, value, ret);
    forall u | 0 <= u < |s'.pcs| ensures PcOk(s', u) {
      if u != t {
        assert PcOk(s, u);
        OthersEffectKeeps(s, t, u, op, value, ret);
      }
    }
  }

  lemma ActionPreserves(start: Word, s: System, t: nat, pc: Pc, a: Action)
    requires Inv(start, s) && t < |s.pcs| && a.thread == t
    requires var s' := s.(pcs := s.pcs[t := pc], hist := s.hist + [a]);
      Good(start, s'.cell, s'.hist, s'.lin) && PcOk(s', t)
    ensures Inv(start, s.(pcs := s.pcs[t := pc], hist := s.hist + [a]))
  {
    var s' := s.(pcs := s.pcs[t := pc], hist := s.hist + [a]);
    forall u | 0 <= u < |s'.pcs| ensures PcOk(s', u) {
      if u != t {
        assert PcOk(s, u);
        OthersActionKeeps(s, t, u, pc, a);
      }
    }
  }

  // A step that only moves the thread's own registers.
  lemma LocalPreserves(start: Word, s: System, t: nat, pc: Pc)
    requires Inv(start, s) && t < |s.pcs|
    requires PcOk(s.(pcs := s.pcs[t := pc]), t)
    ensures Inv(start, s.(pcs := s.pcs[t := pc]))
  {
    var s' := s.(pcs := s.pcs[t := pc]);
    forall u | 0 <= u < |s'.pcs| ensures PcOk(s', u) {
      assert u != t ==> PcOk(s, u);
    }
  }

  lemma CallPreserves(start: Word, s: System, t: nat, op: Op)
    requires Inv(start, s) && Enabled(s, Call(t, op))
    ensures Inv(start, Next(s, Call(t, op)))
  {
    Invoke(start, s.cell, s.hist, s.lin, t, op);
    ActionPreserves(start, s, t, Begun(|s.hist|, op), Invoked(t, op));
  }

  lemma ReadPreserves(start: Word, s: System, t: nat)
    requires Inv(start, s) && Enabled(s, Read(t))
    ensures Inv(start, Next(s, Read(t)))
  {
    assert PcOk(s, t);
    LocalPreserves(start, s, t, Spinning(s.pcs[t].id, s.pcs[t].op, s.cell, 0, |s.writers|, |s.writers|));
  }

  lemma TryCasPreserves(start: Word, s: System, t: nat)
    requires Inv(start, s) && Enabled(s, TryCas(t))
    ensures Inv(start, Next(s, TryCas(t)))
  {
    var pc := s.pcs[t];
    assert PcOk(s, t);
    if s.cell == pc.tmp {
      EffectPreserves(start, s, t, pc.op, Offer(pc.op, pc.tmp), LoopResult(pc.op, pc.tmp));
    } else {
      LocalPreserves(start, s, t, Spinning(pc.id, pc.op, s.cell, pc.failed + 1, pc.first, |s.writers|));
    }
  }

  lemma ExitPreserves(start: Word, s: System, t: nat)
    requires Inv(start, s) && Enabled(s, Exit(t))
    ensures Inv(start, Next(s, Exit(t)))
  {
    var pc := s.pcs[t];
    assert PcOk(s, t);
    Return(start, s.cell, s.hist, s.lin, t, pc.id, pc.ret);
    ActionPreserves(start, s, t, Idle, Returned(t, pc.id, pc.ret));
  }

  lemma NextPreserves(start: Word, s: System, step: Step)
    requires Inv(start, s) && Enabled(s, step)
    ensures Inv(start, Next(s, step))
  {
    match step
    case Call(t, op) => CallPreserves(start, s, t, op);
    case Read(t) => ReadPreserves(start, s, t);
    case TryCas(t) => TryCasPreserves(start, s, t);
    case CasLoad(t) => EffectPreserves(start, s, t, s.pcs[t].op, s.cell, Old(s.cell));
    case Native(t) =>
      EffectPreserves(start, s, t, s.pcs[t].op, NewValue(s.cell, s.pcs[t].op), Result(s.cell, s.pcs[t].op));
    case Exit(t) => ExitPreserves(start, s, t);
  }

  lemma {:induction false} ExecPreserves(start: Word, threads: nat, steps: seq<Step>)
    ensures Inv(start, Exec(Init(start, threads), steps))
  {
    if steps == [] {
    } else {
      ExecPreserves(start, threads, steps[..|steps| - 1]);
      var before := Exec(Init(start, threads), steps[..|steps| - 1]);
      if Enabled(before, steps[|steps| - 1]) {
        NextPreserves(start, before, steps[|steps| - 1]);
      }
    }
  }

  // ---------------------------------------------------------------- the theorems

  /** Every interleaving of the derived and native operations is linearizable. */
  lemma Linearizability(start: Word, threads: nat, steps: seq<Step>)
    ensures var s := Exec(Init(start, threads), steps); Linearizable(start, s.cell, s.hist)
  {
    ExecPreserves(start, threads, steps);
    var s := Exec(Init(start, threads), steps);
    assert Explains(start, s.cell, s.hist, s.lin);
  }

  /**
   In every run, a loop has failed at most as often as other threads have changed the word
   since it first read it; once it is done, since then and until its own success.
   */
  lemma ProgressBound(start: Word, threads: nat, steps: seq<Step>, t: nat)
    requires t < threads
    ensures var s := Exec(Init(start, threads), steps);
      && |s.pcs| == threads
      && (s.pcs[t].Spinning? ==>
            && s.pcs[t].first <= |s.writers|
            && s.pcs[t].failed <= Others(s.writers[s.pcs[t].first..], t))
      && (s.pcs[t].Finished? ==>
            && s.pcs[t].first <= s.pcs[t].last <= |s.writers|
            && s.pcs[t].failed <= Others(s.writers[s.pcs[t].first..s.pcs[t].last], t))
  {
    ThreadsStay(start, threads, steps);
    ExecPreserves(start, threads, steps);
    assert PcOk(Exec(Init(start, threads), steps), t);
  }

  /** A load, native or built from CAS, returns the word and never changes it; nor does a failed CAS. */
  lemma LoadsLeaveTheWord(s: System, step: Step)
    requires Enabled(s, step)
    requires step.CasLoad? || (step.Native? && s.pcs[step.t].op.Load?) || (step.TryCas? && s.pcs[step.t].tmp != s.cell)
    ensures Next(s, step).cell == s.cell && Next(s, step).writers == s.writers
    ensures !step.TryCas? ==> Next(s, step).pcs[step.t].Finished? && Next(s, step).pcs[step.t].ret == Old(s.cell)
  {
  }

  lemma {:induction false} ThreadsStay(start: Word, threads: nat, steps: seq<Step>)
    ensures |Exec(Init(start, threads), steps).pcs| == threads
  {
    if steps != [] {
      ThreadsStay(start, threads, steps[..|steps| - 1]);
    }
  }

  lemma {:induction false} OthersAreThere(ws: seq<nat>, t: nat)
    requires Others(ws, t) > 0
    ensures exists k :: 0 <= k < |ws| && ws[k] != t
  {
    var last := |ws| - 1;
    if ws[last] == t {
      OthersAreThere(ws[..last], t);
      var k :| 0 <= k < last && ws[..last][k] != t;
      assert ws[k] != t;
    }
  }

  /** A thread whose CAS fails was overtaken: some other thread has changed the word since it last read it. */
  lemma FailureWitnessesSuccess(start: Word, threads: nat, steps: seq<Step>, t: nat)
    requires t < threads
    requires var s := Exec(Init(start, threads), steps);
      Enabled(s, TryCas(t)) && s.cell != s.pcs[t].tmp
    ensures var s := Exec(Init(start, threads), steps);
      && s.pcs[t].first <= s.pcs[t].seen <= |s.writers|
      && exists k :: s.pcs[t].seen <= k < |s.writers| && s.writers[k] != t
  {
    ExecPreserves(start, threads, steps);
    var s := Exec(Init(start, threads), steps);
    assert PcOk(s, t);
    var seen := s.pcs[t].seen;
    OthersAreThere(s.writers[seen..], t);
    var k :| 0 <= k < |s.writers[seen..]| && s.writers[seen..][k] != t;
    assert s.writers[seen + k] != t;
  }

  // ---------------------------------------------------------------- all operations together

  predicate Fails(s: System, step: Step) {
    Enabled(s, step) && step.TryCas? && s.cell != s.pcs[step.t].tmp
  }

  /** How many CASes have failed in a run, in all operations of all threads. */
  function Failures(start: Word, threads: nat, steps: seq<Step>): nat {
    if steps == [] then 0
    else
      var front, step := steps[..|steps| - 1], steps[|steps| - 1];
      Failures(start, threads, front) + if Fails(Exec(Init(start, threads), front), step) then 1 else 0
  }

  /** How many of them were CASes of thread `t`. */
  function FailuresOf(start: Word, threads: nat, steps: seq<Step>, t: nat): nat {
    if steps == [] then 0
    else
      var front, step := steps[..|steps| - 1], steps[|steps| - 1];
      FailuresOf(start, threads, front, t)
        + if step.t == t && Fails(Exec(Init(start, threads), front), step) then 1 else 0
  }

  lemma {:induction false} OthersConcat(a: seq<nat>, b: seq<nat>, t: nat)
    ensures Others(a + b, t) == Others(a, t) + Others(b, t)
  {
    if b == [] {
      assert a + b == a;
    } else {
      OthersConcat(a, b[..|b| - 1], t);
      assert (a + b)[..|a + b| - 1] == a + b[..|b| - 1];
    }
  }

  /** How many changes there were when the thread last read the word, or are now if it does not spin. */
  function LastSeen(s: System, t: nat): (n: nat)
    requires t < |s.pcs|
    ensures n <= |s.writers|
  {
    if s.pcs[t].Spinning? && s.pcs[t].seen <= |s.writers| then s.pcs[t].seen else |s.writers|
  }

  /** The changes by others that pay for the failures of a thread. */
  function Charged(s: System, t: nat): nat
    requires t < |s.pcs|
  {
    Others(s.writers[..LastSeen(s, t)], t)
  }

  lemma OthersSplit(ws: seq<nat>, n: nat, t: nat)
    requires n <= |ws|
    ensures Others(ws, t) == Others(ws[..n], t) + Others(ws[n..], t)
  {
    OthersConcat(ws[..n], ws[n..], t);
    assert ws == ws[..n] + ws[n..];
  }

  lemma ChargedUpToNow(s: System, t: nat)
    requires t < |s.pcs|
    ensures Charged(s, t) <= Others(s.writers, t)
    ensures LastSeen(s, t) == |s.writers| ==> Charged(s, t) == Others(s.writers, t)
  {
    OthersSplit(s.writers, LastSeen(s, t), t);
    assert s.writers[..|s.writers|] == s.writers;
  }

  // Others' changes never go away.
  lemma ChangesStay(s: System, step: Step, t: nat)
    requires Enabled(s, step)
    ensures Others(s.writers, t) <= Others(Next(s, step).writers, t)
    ensures |s.writers| <= |Next(s, step).writers| && Next(s, step).writers[..|s.writers|] == s.writers
  {
    OthersSplit(Next(s, step).writers, |s.writers|, t);
  }

  lemma OtherStepCharges(s: System, step: Step, t: nat)
    requires Enabled(s, step) && t < |s.pcs| && step.t != t
    ensures Charged(s, t) <= Charged(Next(s, step), t)
  {
    var s' := Next(s, step);
    ChangesStay(s, step, t);
    if LastSeen(s', t) == LastSeen(s, t) {
      assert s'.writers[..LastSeen(s, t)] == s.writers[..LastSeen(s, t)];
    } else {
      assert LastSeen(s', t) == |s'.writers|;
      ChargedUpToNow(s, t);
      ChargedUpToNow(s', t);
    }
  }

  // A failure is paid for by the changes since the last read.
  lemma OwnStepCharges(start: Word, s: System, step: Step)
    requires Inv(start, s) && Enabled(s, step)
    ensures Charged(s, step.t) + (if Fails(s, step) then 1 else 0) <= Charged(Next(s, step), step.t)
  {
    var t, s' := step.t, Next(s, step);
    assert PcOk(s, t);
    ChangesStay(s, step, t);
    ChargedUpToNow(s, t);
    ChargedUpToNow(s', t);
    OthersSplit(s.writers, LastSeen(s, t), t);
    assert LastSeen(s', t) == |s'.writers|;
  }

  lemma {:induction false} FailuresCharged(start: Word, threads: nat, steps: seq<Step>, t: nat)
    requires t < threads
    ensures var s := Exec(Init(start, threads), steps);
      |s.pcs| == threads && FailuresOf(start, threads, steps, t) <= Charged(s, t)
  {
    ThreadsStay(start, threads, steps);
    if steps != [] {
      var front, step := steps[..|steps| - 1], steps[|steps| - 1];
      FailuresCharged(start, threads, front, t);
      ExecPreserves(start, threads, front);
      var s := Exec(Init(start, threads), front);
      if Enabled(s, step) {
        if step.t == t {
          OwnStepCharges(start, s, step);
        } else {
          OtherStepCharges(s, step, t);
        }
      }
    }
  }

  /** Over a run no thread fails more often, in all its operations, than others change the word. */
  lemma {:induction false} ThreadProgress(start: Word, threads: nat, steps: seq<Step>, t: nat)
    requires t < threads
    ensures FailuresOf(start, threads, steps, t) <= Others(Exec(Init(start, threads), steps).writers, t)
  {
    FailuresCharged(start, threads, steps, t);
    ChargedUpToNow(Exec(Init(start, threads), steps), t);
  }

  /** The first `k` threads together. */
  function SumFailures(start: Word, threads: nat, steps: seq<Step>, k: nat): nat {
    if k == 0 then 0 else SumFailures(start, threads, steps, k - 1) + FailuresOf(start, threads, steps, k - 1)
  }

  function SumOthers(ws: seq<nat>, k: nat): nat {
    if k == 0 then 0 else SumOthers(ws, k - 1) + Others(ws, k - 1)
  }

  lemma {:induction false} SumGrows(start: Word, threads: nat, steps: seq<Step>, k: nat)
    requires steps != []
    ensures var front, step := steps[..|steps| - 1], steps[|steps| - 1];
      SumFailures(start, threads, steps, k) == SumFailures(start, threads, front, k)
        + if step.t < k && Fails(Exec(Init(start, threads), front), step) then 1 else 0
  {
    if k > 0 {
      SumGrows(start, threads, steps, k - 1);
    }
  }

  lemma {:induction false} SumOfNothing(start: Word, threads: nat, k: nat)
    ensures SumFailures(start, threads, [], k) == 0
  {
    if k > 0 {
      SumOfNothing(start, threads, k - 1);
    }
  }

  lemma {:induction false} FailuresAdd(start: Word, threads: nat, steps: seq<Step>)
    ensures Failures(start, threads, steps) == SumFailures(start, threads, steps, threads)
  {
    if steps == [] {
      SumOfNothing(start, threads, threads);
    } else {
      FailuresAdd(start, threads, steps[..|steps| - 1]);
      SumGrows(start, threads, steps, threads);
      ThreadsStay(start, threads, steps[..|steps| - 1]);
    }
  }

  // Each change is another thread's for all threads but one.
  lemma {:induction false} SumOthersStep(ws: seq<nat>, w: nat, k: nat)
    ensures SumOthers(ws + [w], k) == SumOthers(ws, k) + k - if w < k then 1 else 0
  {
    if k > 0 {
      SumOthersStep(ws, w, k - 1);
      assert (ws + [w])[..|ws|] == ws;
    }
  }

  lemma {:induction false} SumOthersIs(ws: seq<nat>, threads: nat)
    requires threads > 0 && forall w :: w in ws ==> w < threads
    ensures SumOthers(ws, threads) == (threads - 1) * |ws|
  {
    if ws == [] {
      SumOthersOfNothing(threads);
    } else {
      var front, w := ws[..|ws| - 1], ws[|ws| - 1];
      assert ws == front + [w];
      assert forall x :: x in front ==> x in ws;
      assert w in ws;
      SumOthersIs(front, threads);
      SumOthersStep(front, w, threads);
      OneTimesMore(threads - 1, |front|);
    }
  }

  lemma OneTimesMore(n: nat, m: nat)
    ensures n * (m + 1) == n * m + n
  {
  }

  lemma {:induction false} SumOthersOfNothing(k: nat)
    ensures SumOthers([], k) == 0
  {
    if k > 0 {
      SumOthersOfNothing(k - 1);
    }
  }

  lemma {:induction false} WritersAreThreads(start: Word, threads: nat, steps: seq<Step>)
    ensures forall w :: w in Exec(Init(start, threads), steps).writers ==> w < threads
  {
    if steps != [] {
      WritersAreThreads(start, threads, steps[..|steps| - 1]);
      ThreadsStay(start, threads, steps[..|steps| - 1]);
    }
  }

  lemma {:induction false} SumIsCharged(start: Word, threads: nat, steps: seq<Step>, k: nat)
    requires k <= threads
    ensures SumFailures(start, threads, steps, k) <= SumOthers(Exec(Init(start, threads), steps).writers, k)
  {
    if k > 0 {
      SumIsCharged(start, threads, steps, k - 1);
      ThreadProgress(start, threads, steps, k - 1);
    }
  }

  /**
   Lock-freedom, system-wide: over any run the failed CASes of all operations of all threads are at
   most one for every change of the word and every other thread.
   */
  lemma {:induction false} LockFreedom(start: Word, threads: nat, steps: seq<Step>)
    requires threads > 0
    ensures Failures(start, threads, steps) <= (threads - 1) * |Exec(Init(start, threads), steps).writers|
  {
    FailuresAdd(start, threads, steps);
    SumIsCharged(start, threads, steps, threads);
    WritersAreThreads(start, threads, steps);
    SumOthersIs(Exec(Init(start, threads), steps).writers, threads);
  }

  // ---------------------------------------------------------------- adding, in plain integers

  ghost predicate CallsOnlyAdds(steps: seq<Step>) {
    forall step :: step in steps && step.Call? ==> AddOrLoad(step.op)
  }

  /** The call that each thread is inside, or -1. */
  function UnderWay(pcs: seq<Pc>): (at: seq<int>)
    ensures |at| == |pcs|
    ensures forall t :: 0 <= t < |pcs| ==> at[t] == if pcs[t].Idle? then -1 else pcs[t].id
  {
    seq(|pcs|, t requires 0 <= t < |pcs| => if pcs[t].Idle? then -1 else pcs[t].id)
  }

  lemma NextAccounted(s: System, step: Step)
    requires Enabled(s, step) && Accounted(s.hist, UnderWay(s.pcs))
    ensures Accounted(Next(s, step).hist, UnderWay(Next(s, step).pcs))
  {
    var at, at' := UnderWay(s.pcs), UnderWay(Next(s, step).pcs);
    match step
    case Call(t, op) =>
      CallAccounted(s.hist, at, t, op);
      assert at' == at[t := |s.hist|];
    case Exit(t) =>
      ReturnAccounted(s.hist, at, t, s.pcs[t].id, s.pcs[t].ret);
      assert at' == at[t := -1];
    case _ =>
      assert at' == at;
  }

  lemma {:induction false} CallsAccounted(start: Word, threads: nat, steps: seq<Step>)
    ensures var s := Exec(Init(start, threads), steps); Accounted(s.hist, UnderWay(s.pcs))
    ensures CallsOnlyAdds(steps) ==> OnlyAdds(Exec(Init(start, threads), steps).hist)
  {
    if steps != [] {
      var before, step := Exec(Init(start, threads), steps[..|steps| - 1]), steps[|steps| - 1];
      CallsAccounted(start, threads, steps[..|steps| - 1]);
      assert step in steps;
      if Enabled(before, step) {
        NextAccounted(before, step);
      }
    }
  }

  lemma RunIsExplained(start: Word, threads: nat, steps: seq<Step>)
    ensures var s := Exec(Init(start, threads), steps); Explains(start, s.cell, s.hist, s.lin)
  {
    ExecPreserves(start, threads, steps);
  }

  /**
   In every run the word is what it was last set to plus the sum of the adds since, modulo 2^32, and
   every operation that took effect returns what it must for the word it found.
   */
  lemma {:induction false} OperationsAreAtomic(start: Word, threads: nat, steps: seq<Step>)
    ensures var s := Exec(Init(start, threads), steps); Atomic(start, s.cell, s.lin)
  {
    var s := Exec(Init(start, threads), steps);
    RunIsExplained(start, threads, steps);
    ExplainedIsAtomic(start, s.cell, s.hist, s.lin);
  }

  /**
   In every run of adds and loads the word is `start` plus the integer sum of the adds that took
   effect, modulo 2^32, and each call has returned `start` plus the sum of those before it.
   */
  lemma {:induction false} AddsAdd(start: Word, threads: nat, steps: seq<Step>)
    requires CallsOnlyAdds(steps)
    ensures var s := Exec(Init(start, threads), steps); AddsUp(start, s.cell, s.hist, s.lin)
  {
    var s := Exec(Init(start, threads), steps);
    RunIsExplained(start, threads, steps);
    CallsAccounted(start, threads, steps);
    AddsAddUp(start, s.cell, s.hist, s.lin);
  }

  /** With no thread inside an operation, the word is `start` plus the sum of all adds ever called. */
  lemma {:induction false} AddsAddWhenIdle(start: Word, threads: nat, steps: seq<Step>)
    requires CallsOnlyAdds(steps)
    requires forall pc :: pc in Exec(Init(start, threads), steps).pcs ==> pc.Idle?
    ensures var s := Exec(Init(start, threads), steps); HoldsAll(start, s.cell, s.hist)
  {
    var s := Exec(Init(start, threads), steps);
    RunIsExplained(start, threads, steps);
    CallsAccounted(start, threads, steps);
    AllAddedWhenQuiet(start, s.cell, s.hist, s.lin, UnderWay(s.pcs));
  }
}
