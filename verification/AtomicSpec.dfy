/**
 What the five operations of my_atomic.h promise: a sequential specification on one word,
 and linearizability of a concurrent history with respect to it.
 */
module AtomicSpec {

  const WORD_SIZE := 0x1_0000_0000

  type Word = x: int | 0 <= x < WORD_SIZE

  /** C addition of two 32-bit words. */
  function Plus(x: Word, y: Word): Word {
    (x + y) % WORD_SIZE
  }

  datatype Op = Add(v: Word) | Fas(v: Word) | Cas(cmp: Word, swap: Word) | Load | Store(v: Word)

  /** `Old` is the value returned; `Compared` is the result of CAS with what `*cmp` holds afterwards. */
  datatype Ret = Old(value: Word) | Compared(ok: bool, cmp: Word) | Nothing

  /** The new value of the word. */
  function NewValue(cell: Word, op: Op): Word {
    match op
    case Add(v) => Plus(cell, v)
    case Fas(v) => v
    case Cas(cmp, swap) => if cell == cmp then swap else cell
    case Load => cell
    case Store(v) => v
  }

  /** What the caller gets. */
  function Result(cell: Word, op: Op): Ret {
    match op
    case Add(_) => Old(cell)
    case Fas(_) => Old(cell)
    case Cas(cmp, _) => Compared(cell == cmp, if cell == cmp then cmp else cell)
    case Load => Old(cell)
    case Store(_) => Nothing
  }

  // ---------------------------------------------------------------- histories

  /** What a caller sees; an invocation is named by its position in the history. */
  datatype Action =
    | Invoked(thread: nat, op: Op)
    | Returned(thread: nat, id: nat, ret: Ret)

  /** The moment at which invocation `id` took effect. */
  datatype Point = Point(id: nat, op: Op, ret: Ret)

  /** The word after the operations of `lin`, one after the other. */
  function Fold(start: Word, lin: seq<Point>): Word {
    if lin == [] then start
    else NewValue(Fold(start, lin[..|lin| - 1]), lin[|lin| - 1].op)
  }

  /** Every operation returns what the specification says for the value it finds. */
  ghost predicate Legal(start: Word, lin: seq<Point>) {
    forall k :: 0 <= k < |lin| ==> lin[k].ret == Result(Fold(start, lin[..k]), lin[k].op)
  }

  predicate TookEffect(lin: seq<Point>, id: nat) {
    exists k :: 0 <= k < |lin| && lin[k].id == id
  }

  predicate HasReturned(hist: seq<Action>, id: nat) {
    exists i :: 0 <= i < |hist| && hist[i].Returned? && hist[i].id == id
  }

  /** Calls and returns match, thread by thread, and nothing returns twice. */
  ghost predicate WellFormedHistory(hist: seq<Action>) {
    && (forall i :: 0 <= i < |hist| && hist[i].Returned? ==>
          && hist[i].id < i
          && hist[hist[i].id].Invoked?
          && hist[hist[i].id].thread == hist[i].thread)
    && (forall i, j :: 0 <= i < j < |hist| && hist[i].Returned? && hist[j].Returned? ==>
          hist[i].id != hist[j].id)
  }

  /**
   `lin` explains the history: it is a legal sequential execution from `start` to `cell`, of
   operations that were invoked, each once, among them all that have returned, with the
   results they returned, and it respects real time: an operation that returned before
   another was invoked comes first.
   */
  ghost predicate Explains(start: Word, cell: Word, hist: seq<Action>, lin: seq<Point>) {
    && Legal(start, lin) && Fold(start, lin) == cell
    && (forall k :: 0 <= k < |lin| ==>
          lin[k].id < |hist| && hist[lin[k].id].Invoked? && hist[lin[k].id].op == lin[k].op)
    && (forall j, k :: 0 <= j < k < |lin| ==> lin[j].id != lin[k].id)
    && (forall i :: 0 <= i < |hist| && hist[i].Returned? ==> HasPoint(lin, hist[i].id, hist[i].ret))
    && (forall i :: 0 <= i < |hist| && hist[i].Returned? ==> InRealTime(lin, hist[i].id, i))
  }

  predicate HasPoint(lin: seq<Point>, id: nat, ret: Ret) {
    exists k :: 0 <= k < |lin| && lin[k].id == id && lin[k].ret == ret
  }

  /** Invocation `id`, which returned at position `i`, precedes all that were invoked later. */
  ghost predicate InRealTime(lin: seq<Point>, id: nat, i: nat) {
    forall j, k :: 0 <= j < |lin| && 0 <= k < |lin| && lin[j].id == id && i < lin[k].id ==> j < k
  }

  ghost predicate Linearizable(start: Word, cell: Word, hist: seq<Action>) {
    && WellFormedHistory(hist)
    && exists lin :: Explains(start, cell, hist, lin)
  }

  // ---------------------------------------------------------------- how an explanation grows

  ghost predicate Good(start: Word, cell: Word, hist: seq<Action>, lin: seq<Point>) {
    WellFormedHistory(hist) && Explains(start, cell, hist, lin)
  }

  /** Thread `t` is inside invocation `id` of `op`, which has not taken effect. */
  ghost predicate Pending(hist: seq<Action>, lin: seq<Point>, t: nat, id: nat, op: Op) {
    && id < |hist| && hist[id] == Invoked(t, op)
    && !TookEffect(lin, id) && !HasReturned(hist, id)
  }

  /** Thread `t` is inside invocation `id`, which took effect with result `ret`. */
  ghost predicate Settled(hist: seq<Action>, lin: seq<Point>, t: nat, id: nat, ret: Ret) {
    && id < |hist| && hist[id].Invoked? && hist[id].thread == t
    && HasPoint(lin, id, ret)
    && !HasReturned(hist, id)
  }

  // Growing the history keeps the explanation, if what is appended has taken effect.
  lemma AppendExplained(start: Word, cell: Word, hist: seq<Action>, lin: seq<Point>, a: Action)
    requires Explains(start, cell, hist, lin)
    requires a.Returned? ==> HasPoint(lin, a.id, a.ret)
    ensures Explains(start, cell, hist + [a], lin)
  {
    var hist' := hist + [a];
    assert forall i :: 0 <= i < |hist| ==> hist'[i] == hist[i];
    assert hist'[|hist|] == a;
    assert a.Returned? ==> InRealTime(lin, a.id, |hist|);
  }

  lemma Invoke(start: Word, cell: Word, hist: seq<Action>, lin: seq<Point>, t: nat, op: Op)
    requires Good(start, cell, hist, lin)
    ensures Good(start, cell, hist + [Invoked(t, op)], lin)
    ensures Pending(hist + [Invoked(t, op)], lin, t, |hist|, op)
  {
    AppendExplained(start, cell, hist, lin, Invoked(t, op));
    var hist' := hist + [Invoked(t, op)];
    assert forall i :: 0 <= i < |hist| ==> hist'[i] == hist[i];
  }

  // What one thread appends to the history does not concern the others.
  lemma AppendKeeps(hist: seq<Action>, lin: seq<Point>, a: Action, t: nat, id: nat)
    requires id < |hist| && hist[id].Invoked? && hist[id].thread == t
    requires WellFormedHistory(hist + [a]) && a.thread != t
    ensures forall op :: Pending(hist, lin, t, id, op) ==> Pending(hist + [a], lin, t, id, op)
    ensures forall ret :: Settled(hist, lin, t, id, ret) ==> Settled(hist + [a], lin, t, id, ret)
  {
    var hist' := hist + [a];
    assert forall i :: 0 <= i < |hist| ==> hist'[i] == hist[i];
    assert hist'[|hist|] == a;
    if HasReturned(hist', id) {
      var i :| 0 <= i < |hist'| && hist'[i].Returned? && hist'[i].id == id;
      assert i < |hist|;
      assert hist[i] == hist'[i];
    }
  }

  lemma FoldStep(start: Word, lin: seq<Point>, p: Point)
    ensures Fold(start, lin + [p]) == NewValue(Fold(start, lin), p.op)
  {
    assert (lin + [p])[..|lin|] == lin;
  }

  lemma LegalStep(start: Word, lin: seq<Point>, p: Point)
    requires Legal(start, lin) && p.ret == Result(Fold(start, lin), p.op)
    ensures Legal(start, lin + [p])
  {
    forall k | 0 <= k < |lin + [p]|
      ensures (lin + [p])[k].ret == Result(Fold(start, (lin + [p])[..k]), (lin + [p])[k].op)
    {
      assert (lin + [p])[..k] == lin[..k];
      assert lin[..|lin|] == lin;
    }
  }

  lemma PointStays(lin: seq<Point>, p: Point, id: nat, ret: Ret)
    requires HasPoint(lin, id, ret)
    ensures HasPoint(lin + [p], id, ret)
  {
    var k :| 0 <= k < |lin| && lin[k].id == id && lin[k].ret == ret;
    assert (lin + [p])[k] == lin[k];
  }

  lemma RealTimeStays(lin: seq<Point>, p: Point, id: nat, i: nat)
    requires InRealTime(lin, id, i) && p.id != id
    ensures InRealTime(lin + [p], id, i)
  {
    var lin' := lin + [p];
    forall j, k | 0 <= j < |lin'| && 0 <= k < |lin'| && lin'[j].id == id && i < lin'[k].id
      ensures j < k
    {
      assert j < |lin| && lin'[j] == lin[j];
      if k < |lin| {
        assert lin'[k] == lin[k];
      }
    }
  }

  lemma ExplainsOneMore(start: Word, cell: Word, hist: seq<Action>, lin: seq<Point>, t: nat, id: nat, op: Op)
    requires Explains(start, cell, hist, lin) && Pending(hist, lin, t, id, op)
    ensures Explains(start, NewValue(cell, op), hist, lin + [Point(id, op, Result(cell, op))])
  {
    var p := Point(id, op, Result(cell, op));
    FoldStep(start, lin, p);
    LegalStep(start, lin, p);
    forall i | 0 <= i < |hist| && hist[i].Returned?
      ensures HasPoint(lin + [p], hist[i].id, hist[i].ret) && InRealTime(lin + [p], hist[i].id, i)
    {
      PointStays(lin, p, hist[i].id, hist[i].ret);
      RealTimeStays(lin, p, hist[i].id, i);
    }
  }

  /** A pending operation may take effect now, with the result the present value dictates. */
  lemma TakeEffect(start: Word, cell: Word, hist: seq<Action>, lin: seq<Point>, t: nat, id: nat, op: Op)
    requires Good(start, cell, hist, lin) && Pending(hist, lin, t, id, op)
    ensures var lin' := lin + [Point(id, op, Result(cell, op))];
      Good(start, NewValue(cell, op), hist, lin') && Settled(hist, lin', t, id, Result(cell, op))
  {
    ExplainsOneMore(start, cell, hist, lin, t, id, op);
    assert (lin + [Point(id, op, Result(cell, op))])[|lin|].id == id;
  }

  lemma EffectKeeps(hist: seq<Action>, lin: seq<Point>, p: Point, t: nat, id: nat)
    requires p.id != id
    ensures forall op :: Pending(hist, lin, t, id, op) ==> Pending(hist, lin + [p], t, id, op)
    ensures forall ret :: Settled(hist, lin, t, id, ret) ==> Settled(hist, lin + [p], t, id, ret)
  {
    forall ret | Settled(hist, lin, t, id, ret) ensures Settled(hist, lin + [p], t, id, ret) {
      PointStays(lin, p, id, ret);
    }
  }

  lemma ReturnMatches(hist: seq<Action>, t: nat, id: nat, ret: Ret)
    requires WellFormedHistory(hist) && !HasReturned(hist, id)
    requires id < |hist| && hist[id].Invoked? && hist[id].thread == t
    ensures WellFormedHistory(hist + [Returned(t, id, ret)])
  {
    var hist' := hist + [Returned(t, id, ret)];
    assert forall i :: 0 <= i < |hist| ==> hist'[i] == hist[i];
  }

  /** What took effect may return. */
  lemma Return(start: Word, cell: Word, hist: seq<Action>, lin: seq<Point>, t: nat, id: nat, ret: Ret)
    requires Good(start, cell, hist, lin) && Settled(hist, lin, t, id, ret)
    ensures Good(start, cell, hist + [Returned(t, id, ret)], lin)
  {
    AppendExplained(start, cell, hist, lin, Returned(t, id, ret));
    ReturnMatches(hist, t, id, ret);
  }

  // ---------------------------------------------------------------- what adding comes to

  /** The integer a call adds. */
  function Operand(op: Op): int {
    if op.Add? then op.v else 0
  }

  /** The sum of the operands of the adds that took effect. */
  function SumAdded(lin: seq<Point>): int {
    if lin == [] then 0 else SumAdded(lin[..|lin| - 1]) + Operand(lin[|lin| - 1].op)
  }

  /** The sum of the operands of all adds called. */
  function SumCalled(hist: seq<Action>): int {
    if hist == [] then 0
    else
      var a := hist[|hist| - 1];
      SumCalled(hist[..|hist| - 1]) + if a.Invoked? then Operand(a.op) else 0
  }

  predicate AddOrLoad(op: Op) {
    op.Add? || op.Load?
  }

  ghost predicate OnlyAdds(hist: seq<Action>) {
    forall i :: 0 <= i < |hist| && hist[i].Invoked? ==> AddOrLoad(hist[i].op)
  }

  lemma WrapTwice(x: int, y: int)
    ensures (x % 0x1_0000_0000 + y) % 0x1_0000_0000 == (x + y) % 0x1_0000_0000
  {
  }

  lemma {:induction false} FoldOfAdds(start: Word, lin: seq<Point>)
    requires PointsAdd(lin)
    ensures Fold(start, lin) == (start + SumAdded(lin)) % 0x1_0000_0000
  {
    if lin != [] {
      var front, op := lin[..|lin| - 1], lin[|lin| - 1].op;
      FoldOfAdds(start, front);
      WrapTwice(start + SumAdded(front), Operand(op));
    }
  }

  /** The sum over the first `n` actions of the adds that took effect. */
  function SumEffective(hist: seq<Action>, lin: seq<Point>, n: nat): int
    requires n <= |hist|
  {
    if n == 0 then 0
    else
      var a := hist[n - 1];
      SumEffective(hist, lin, n - 1) + if a.Invoked? && TookEffect(lin, n - 1) then Operand(a.op) else 0
  }

  lemma {:induction false} OneMoreEffective(hist: seq<Action>, lin: seq<Point>, p: Point, n: nat)
    requires n <= |hist| && p.id < |hist| && hist[p.id].Invoked? && hist[p.id].op == p.op && !TookEffect(lin, p.id)
    ensures SumEffective(hist, lin + [p], n) == SumEffective(hist, lin, n) + if p.id < n then Operand(p.op) else 0
  {
    if n > 0 {
      OneMoreEffective(hist, lin, p, n - 1);
      assert (lin + [p])[|lin|] == p;
      assert forall k :: 0 <= k < |lin| ==> (lin + [p])[k] == lin[k];
      assert TookEffect(lin + [p], n - 1) <==> TookEffect(lin, n - 1) || p.id == n - 1;
    }
  }

  lemma {:induction false} NothingEffective(hist: seq<Action>, n: nat)
    requires n <= |hist|
    ensures SumEffective(hist, [], n) == 0
  {
    if n > 0 {
      NothingEffective(hist, n - 1);
    }
  }

  lemma {:induction false} EffectiveIsAdded(hist: seq<Action>, lin: seq<Point>)
    requires forall k :: 0 <= k < |lin| ==>
               lin[k].id < |hist| && hist[lin[k].id].Invoked? && hist[lin[k].id].op == lin[k].op
    requires forall j, k :: 0 <= j < k < |lin| ==> lin[j].id != lin[k].id
    ensures SumEffective(hist, lin, |hist|) == SumAdded(lin)
  {
    if lin == [] {
      NothingEffective(hist, |hist|);
    } else {
      var front, p := lin[..|lin| - 1], lin[|lin| - 1];
      EffectiveIsAdded(hist, front);
      OneMoreEffective(hist, front, p, |hist|);
      assert lin == front + [p];
    }
  }

  lemma {:induction false} AllEffective(hist: seq<Action>, lin: seq<Point>, n: nat)
    requires n <= |hist|
    requires forall i :: 0 <= i < |hist| && hist[i].Invoked? ==> TookEffect(lin, i)
    ensures SumEffective(hist, lin, n) == SumCalled(hist[..n])
  {
    if n > 0 {
      AllEffective(hist, lin, n - 1);
      assert hist[..n][..n - 1] == hist[..n - 1];
    }
  }

  /** A returned add has got `start` plus the sum of the adds that took effect before it. */
  ghost predicate ReturnsSums(start: Word, hist: seq<Action>, lin: seq<Point>) {
    forall i :: 0 <= i < |hist| && hist[i].Returned? && hist[i].id < |hist| && hist[hist[i].id].Invoked? ==>
      ReturnedSum(start, lin, hist[i].id, hist[i].ret)
  }

  predicate ReturnedSum(start: Word, lin: seq<Point>, id: nat, ret: Ret) {
    exists k :: 0 <= k < |lin| && lin[k].id == id && ret == Old((start + SumAdded(lin[..k])) % 0x1_0000_0000)
  }

  ghost predicate PointsAdd(lin: seq<Point>) {
    forall k :: 0 <= k < |lin| ==> AddOrLoad(lin[k].op)
  }

  lemma CallsToPoints(start: Word, cell: Word, hist: seq<Action>, lin: seq<Point>)
    requires Explains(start, cell, hist, lin) && OnlyAdds(hist)
    ensures PointsAdd(lin)
  {
  }

  lemma OneSumReturned(start: Word, lin: seq<Point>, id: nat, ret: Ret)
    requires Legal(start, lin) && PointsAdd(lin) && HasPoint(lin, id, ret)
    ensures ReturnedSum(start, lin, id, ret)
  {
    var k :| 0 <= k < |lin| && lin[k].id == id && lin[k].ret == ret;
    FoldOfAdds(start, lin[..k]);
    assert AddOrLoad(lin[k].op);
  }

  lemma SumsReturned(start: Word, cell: Word, hist: seq<Action>, lin: seq<Point>)
    requires Explains(start, cell, hist, lin) && PointsAdd(lin)
    ensures ReturnsSums(start, hist, lin)
  {
    forall i | 0 <= i < |hist| && hist[i].Returned? && hist[i].id < |hist| && hist[hist[i].id].Invoked?
      ensures ReturnedSum(start, lin, hist[i].id, hist[i].ret)
    {
      assert HasPoint(lin, hist[i].id, hist[i].ret);
      OneSumReturned(start, lin, hist[i].id, hist[i].ret);
    }
  }

  ghost predicate AllTookEffect(hist: seq<Action>, lin: seq<Point>) {
    forall i :: 0 <= i < |hist| && hist[i].Invoked? ==> TookEffect(lin, i)
  }

  lemma SumWhenDone(start: Word, cell: Word, hist: seq<Action>, lin: seq<Point>)
    requires Explains(start, cell, hist, lin) && AllTookEffect(hist, lin)
    ensures SumAdded(lin) == SumCalled(hist)
  {
    EffectiveIsAdded(hist, lin);
    AllEffective(hist, lin, |hist|);
    assert hist[..|hist|] == hist;
  }

  /** The word is `start` plus the sum of the adds that took effect. */
  predicate HoldsAdded(start: Word, cell: Word, lin: seq<Point>) {
    cell == (start + SumAdded(lin)) % 0x1_0000_0000
  }

  lemma CellIsSum(start: Word, cell: Word, hist: seq<Action>, lin: seq<Point>)
    requires Explains(start, cell, hist, lin) && PointsAdd(lin)
    ensures HoldsAdded(start, cell, lin)
  {
    FoldOfAdds(start, lin);
  }

  /**
   Adding, in plain integers: the word is `start` plus the sum of the adds that took effect, modulo
   2^32, and each call has returned the sum of those before it.
   */
  ghost predicate AddsUp(start: Word, cell: Word, hist: seq<Action>, lin: seq<Point>) {
    HoldsAdded(start, cell, lin) && ReturnsSums(start, hist, lin)
  }

  lemma AddsAddUp(start: Word, cell: Word, hist: seq<Action>, lin: seq<Point>)
    requires Explains(start, cell, hist, lin) && OnlyAdds(hist)
    ensures AddsUp(start, cell, hist, lin)
  {
    CallsToPoints(start, cell, hist, lin);
    CellIsSum(start, cell, hist, lin);
    SumsReturned(start, cell, hist, lin);
  }

  // ---------------------------------------------------------------- all operations, in plain terms

  /** A call that sets the word whatever it was: a store, a fetch-and-store, a CAS that succeeded. */
  predicate Sets(p: Point) {
    p.op.Fas? || p.op.Store? || (p.op.Cas? && p.ret.Compared? && p.ret.ok)
  }

  /** The value it sets. */
  function SetTo(p: Point): Word
    requires Sets(p)
  {
    match p.op
    case Fas(v) => v
    case Store(v) => v
    case Cas(_, swap) => swap
    case _ => 0
  }

  /** `j` is the last call that set the word. */
  ghost predicate LastSet(lin: seq<Point>, j: nat) {
    j < |lin| && Sets(lin[j]) && forall k :: j < k < |lin| ==> !Sets(lin[k])
  }

  /** The word is what it was last set to, or `start`, plus the sum of the adds since, modulo 2^32. */
  ghost predicate WordIs(start: Word, lin: seq<Point>, word: Word) {
    WordNeverSet(start, lin, word) || exists j: nat :: WordSetAt(lin, j, word)
  }

  ghost predicate WordNeverSet(start: Word, lin: seq<Point>, word: Word) {
    (forall k :: 0 <= k < |lin| ==> !Sets(lin[k])) && word == (start + SumAdded(lin)) % 0x1_0000_0000
  }

  ghost predicate WordSetAt(lin: seq<Point>, j: nat, word: Word) {
    LastSet(lin, j) && word == (SetTo(lin[j]) + SumAdded(lin[j + 1..])) % 0x1_0000_0000
  }

  /**
   What a call must return when it finds `word`: the old value, or the outcome of the comparison and
   what `*cmp` holds afterwards.
   */
  predicate Answers(p: Point, word: Word) {
    match p.op
    case Add(_) => p.ret == Old(word)
    case Fas(_) => p.ret == Old(word)
    case Load => p.ret == Old(word)
    case Store(_) => p.ret == Nothing
    case Cas(cmp, _) =>
      && (word == cmp ==> p.ret == Compared(true, cmp))
      && (word != cmp ==> p.ret == Compared(false, word))
  }

  lemma SumOneMore(lin: seq<Point>, p: Point, from: nat)
    requires from <= |lin|
    ensures SumAdded((lin + [p])[from..]) == SumAdded(lin[from..]) + Operand(p.op)
  {
    assert (lin + [p])[from..] == lin[from..] + [p];
    assert (lin[from..] + [p])[..|lin| - from] == lin[from..];
  }

  // A call that does not set the word adds its operand to it.
  lemma SetWordGrows(lin: seq<Point>, j: nat, p: Point, word: Word)
    requires WordSetAt(lin, j, word) && !Sets(p)
    ensures WordSetAt(lin + [p], j, (word + Operand(p.op)) % 0x1_0000_0000)
  {
    SumOneMore(lin, p, j + 1);
    WrapTwice(SetTo(lin[j]) + SumAdded(lin[j + 1..]), Operand(p.op));
  }

  lemma FirstWordGrows(start: Word, lin: seq<Point>, p: Point, word: Word)
    requires WordNeverSet(start, lin, word) && !Sets(p)
    ensures WordNeverSet(start, lin + [p], (word + Operand(p.op)) % 0x1_0000_0000)
  {
    SumOneMore(lin, p, 0);
    assert lin[0..] == lin && (lin + [p])[0..] == lin + [p];
    WrapTwice(start + SumAdded(lin), Operand(p.op));
  }

  lemma WordGrows(start: Word, lin: seq<Point>, p: Point, word: Word)
    requires WordIs(start, lin, word) && !Sets(p)
    ensures WordIs(start, lin + [p], (word + Operand(p.op)) % 0x1_0000_0000)
  {
    if j: nat :| WordSetAt(lin, j, word) {
      SetWordGrows(lin, j, p, word);
    } else {
      FirstWordGrows(start, lin, p, word);
    }
  }

  lemma WordIsSet(start: Word, lin: seq<Point>, p: Point)
    requires Sets(p)
    ensures WordIs(start, lin + [p], SetTo(p))
  {
    assert (lin + [p])[|lin| + 1..] == [];
    assert WordSetAt(lin + [p], |lin|, SetTo(p));
  }

  // What one call makes of the word.
  lemma OneCallWrites(word: Word, p: Point)
    requires p.ret == Result(word, p.op)
    ensures Answers(p, word)
    ensures NewValue(word, p.op) == if Sets(p) then SetTo(p) else (word + Operand(p.op)) % 0x1_0000_0000
  {
  }

  lemma {:induction false} FoldIsWord(start: Word, lin: seq<Point>)
    requires Legal(start, lin)
    ensures WordIs(start, lin, Fold(start, lin))
  {
    if lin != [] {
      var front, p := lin[..|lin| - 1], lin[|lin| - 1];
      LegalFront(start, lin);
      FoldIsWord(start, front);
      OneCallWrites(Fold(start, front), p);
      WordAfterCall(start, front, p, Fold(start, front));
      assert lin == front + [p];
    }
  }

  lemma WordAfterCall(start: Word, lin: seq<Point>, p: Point, word: Word)
    requires WordIs(start, lin, word)
    ensures WordIs(start, lin + [p], if Sets(p) then SetTo(p) else (word + Operand(p.op)) % 0x1_0000_0000)
  {
    if Sets(p) {
      WordIsSet(start, lin, p);
    } else {
      WordGrows(start, lin, p, word);
    }
  }

  lemma LegalFront(start: Word, lin: seq<Point>)
    requires Legal(start, lin) && lin != []
    ensures Legal(start, lin[..|lin| - 1])
    ensures lin[|lin| - 1].ret == Result(Fold(start, lin[..|lin| - 1]), lin[|lin| - 1].op)
  {
    var front := lin[..|lin| - 1];
    forall k | 0 <= k < |front| ensures front[k].ret == Result(Fold(start, front[..k]), front[k].op) {
      assert front[..k] == lin[..k];
    }
  }

  lemma {:induction false} LegalPrefix(start: Word, lin: seq<Point>, n: nat)
    requires Legal(start, lin) && n <= |lin|
    ensures Legal(start, lin[..n])
  {
    forall k | 0 <= k < n ensures lin[..n][k].ret == Result(Fold(start, lin[..n][..k]), lin[..n][k].op) {
      assert lin[..n][..k] == lin[..k];
    }
  }

  ghost predicate AnsweredAt(start: Word, lin: seq<Point>, k: nat)
    requires k < |lin|
  {
    exists word: Word :: WordIs(start, lin[..k], word) && Answers(lin[k], word)
  }

  /**
   The five operations in plain terms: the word is what it was last set to plus the adds since, and
   every call has returned what it must for the word it found.
   */
  ghost predicate Atomic(start: Word, cell: Word, lin: seq<Point>) {
    WordIs(start, lin, cell) && forall k :: 0 <= k < |lin| ==> AnsweredAt(start, lin, k)
  }

  lemma ExplainedIsAtomic(start: Word, cell: Word, hist: seq<Action>, lin: seq<Point>)
    requires Explains(start, cell, hist, lin)
    ensures Atomic(start, cell, lin)
  {
    LegalIsAtomic(start, lin);
  }

  lemma LegalIsAtomic(start: Word, lin: seq<Point>)
    requires Legal(start, lin)
    ensures Atomic(start, Fold(start, lin), lin)
  {
    FoldIsWord(start, lin);
    forall k | 0 <= k < |lin| ensures AnsweredAt(start, lin, k) {
      LegalPrefix(start, lin, k);
      FoldIsWord(start, lin[..k]);
      OneCallWrites(Fold(start, lin[..k]), lin[k]);
    }
  }

  // ---------------------------------------------------------------- calls under way

  /** Every call has returned or is the one that some thread is inside; `at` gives the call of each thread. */
  ghost predicate Accounted(hist: seq<Action>, at: seq<int>) {
    forall i :: 0 <= i < |hist| && hist[i].Invoked? ==> HasReturned(hist, i) || i in at
  }

  ghost predicate Quiet(at: seq<int>) {
    forall t :: 0 <= t < |at| ==> at[t] == -1
  }

  /** The word is `start` plus the sum of all adds called. */
  predicate HoldsAll(start: Word, cell: Word, hist: seq<Action>) {
    cell == (start + SumCalled(hist)) % 0x1_0000_0000
  }

  lemma AllAddedWhenQuiet(start: Word, cell: Word, hist: seq<Action>, lin: seq<Point>, at: seq<int>)
    requires Explains(start, cell, hist, lin) && OnlyAdds(hist) && Accounted(hist, at) && Quiet(at)
    ensures HoldsAll(start, cell, hist)
  {
    QuietMeansDone(start, cell, hist, lin, at);
    DoneHoldsAll(start, cell, hist, lin);
  }

  lemma DoneHoldsAll(start: Word, cell: Word, hist: seq<Action>, lin: seq<Point>)
    requires Explains(start, cell, hist, lin) && OnlyAdds(hist) && AllTookEffect(hist, lin)
    ensures HoldsAll(start, cell, hist)
  {
    CallsToPoints(start, cell, hist, lin);
    CellIsSum(start, cell, hist, lin);
    SumWhenDone(start, cell, hist, lin);
    SumsAgree(start, cell, hist, lin);
  }

  lemma SumsAgree(start: Word, cell: Word, hist: seq<Action>, lin: seq<Point>)
    requires HoldsAdded(start, cell, lin) && SumAdded(lin) == SumCalled(hist)
    ensures HoldsAll(start, cell, hist)
  {
  }

  /** With no thread inside a call, all calls took effect. */
  lemma QuietMeansDone(start: Word, cell: Word, hist: seq<Action>, lin: seq<Point>, at: seq<int>)
    requires Explains(start, cell, hist, lin) && Accounted(hist, at) && Quiet(at)
    ensures AllTookEffect(hist, lin)
  {
    forall i | 0 <= i < |hist| && hist[i].Invoked? ensures TookEffect(lin, i) {
      assert i !in at;
      ReturnedTookEffect(start, cell, hist, lin, i);
    }
  }

  lemma ReturnedTookEffect(start: Word, cell: Word, hist: seq<Action>, lin: seq<Point>, id: nat)
    requires Explains(start, cell, hist, lin) && HasReturned(hist, id)
    ensures TookEffect(lin, id)
  {
    var i :| 0 <= i < |hist| && hist[i].Returned? && hist[i].id == id;
    assert HasPoint(lin, id, hist[i].ret);
  }

  // A thread calls: the new call is its own.
  lemma CallAccounted(hist: seq<Action>, at: seq<int>, t: nat, op: Op)
    requires Accounted(hist, at) && t < |at| && at[t] == -1
    ensures Accounted(hist + [Invoked(t, op)], at[t := |hist|])
  {
    var hist', at' := hist + [Invoked(t, op)], at[t := |hist|];
    forall i | 0 <= i < |hist'| && hist'[i].Invoked? ensures HasReturned(hist', i) || i in at' {
      if i == |hist| {
        assert at'[t] == i;
      } else if HasReturned(hist, i) {
        var j :| 0 <= j < |hist| && hist[j].Returned? && hist[j].id == i;
        assert hist'[j] == hist[j];
      } else {
        var u :| 0 <= u < |at| && at[u] == i;
        assert at'[u] == i;
      }
    }
  }

  // It returns.
  lemma ReturnAccounted(hist: seq<Action>, at: seq<int>, t: nat, id: nat, ret: Ret)
    requires Accounted(hist, at) && t < |at| && at[t] == id
    ensures Accounted(hist + [Returned(t, id, ret)], at[t := -1])
  {
    var hist', at' := hist + [Returned(t, id, ret)], at[t := -1];
    forall i | 0 <= i < |hist'| && hist'[i].Invoked? ensures HasReturned(hist', i) || i in at' {
      if i == id {
        assert hist'[|hist|].id == i;
      } else if HasReturned(hist, i) {
        var j :| 0 <= j < |hist| && hist[j].Returned? && hist[j].id == i;
        assert hist'[j] == hist[j];
      } else {
        var u :| 0 <= u < |at| && at[u] == i;
        assert at'[u] == i;
      }
    }
  }
}
