/** Reference counts: the compare-and-swap loops of refcount_c11.c under every
    interleaving, the locked counter of refcount_lock.c they refine, and what owners
    of references may rely on. */
module RefCount {
  import opened Basics

  const MAX: nat := 0xffff_ffff

  // ---- The locked counter ------------------------------------------------

  datatype Op = Inc | Dec

  /** Return value of an operation; Abort ends the program. */
  datatype Outcome = Unit | Zero | One | Abort

  /** One operation, done at once: the new count and what is returned. */
  function Atomic(op: Op, count: nat): (nat, Outcome) {
    match op
    case Inc => (if count < MAX then count + 1 else count, Unit)
    case Dec =>
      if count == 0 then (0, Abort)
      else
        var count' := if count < MAX then count - 1 else count;
        (count', if count' == 0 then One else Zero)
  }

  /** refcount_lock.c: the lock makes each method body one step. */
  class Locked {
    var count: nat

    constructor (count: nat)
      ensures this.count == count
    {
      this.count := count;
    }

    method Increment()
      modifies this
      ensures (count, Unit) == Atomic(Inc, old(count))
      ensures count == if old(count) < 0xffff_ffff then old(count) + 1 else old(count)
    {
      if count < MAX { count := count + 1; }
    }

    method DecrementAndTest() returns (r: Outcome)
      modifies this
      ensures (count, r) == Atomic(Dec, old(count))
      ensures count == if 0 < old(count) < 0xffff_ffff then old(count) - 1 else old(count)
      ensures r == if old(count) == 0 then Abort else if count == 0 then One else Zero
    {
      if count == 0 { return Abort; }
      if count < MAX { count := count - 1; }
      return if count == 0 then One else Zero;
    }
  }

  // ---- The lock-free counter ---------------------------------------------

  /** Where a thread is: outside, in one of the loops with its expected value, or aborted. */
  datatype Pc = Idle | Incrementing(expected: nat) | Decrementing(expected: nat) | Aborted

  /** held is the number of references the thread owns. */
  datatype Thread = Thread(pc: Pc, held: nat)

  /** done lists the operations in the order in which they took effect. */
  datatype State = State(count: nat, threads: seq<Thread>, done: seq<(Op, Outcome)>)

  datatype Action =
    | StartInc(t: nat)                     // atomic_load, then the loop
    | StartDec(t: nat)
    | Loop(t: nat, spurious: bool)         // one round; a weak exchange may fail for no reason
    | Give(t: nat, u: nat)                 // hand a reference to another thread

  function Put(s: State, t: nat, th: Thread): State
    requires t < |s.threads|
  {
    s.(threads := s.threads[t := th])
  }

  function Log(s: State, op: Op, o: Outcome): State {
    s.(done := s.done + [(op, o)])
  }

  /** The value a decrementing thread reads decides its abort at that moment. */
  function ReadDec(s: State, t: nat, held: nat): State
    requires t < |s.threads|
  {
    if s.count == 0 then Log(Put(s, t, Thread(Aborted, held)), Dec, Abort)
    else Put(s, t, Thread(Decrementing(s.count), held))
  }

  /** One round of the loop in CRYPTO_refcount_inc. */
  function IncRound(s: State, t: nat, spurious: bool): State
    requires t < |s.threads| && s.threads[t].pc.Incrementing?
  {
    var th := s.threads[t];
    var expected := th.pc.expected;
    if expected == MAX then Log(Put(s, t, Thread(Idle, th.held + 1)), Inc, Unit)
    else if s.count == expected && !spurious then
      Log(Put(s.(count := expected + 1), t, Thread(Idle, th.held + 1)), Inc, Unit)
    else Put(s, t, Thread(Incrementing(s.count), th.held))
  }

  /** One round of the loop in CRYPTO_refcount_dec_and_test_zero. */
  function DecRound(s: State, t: nat, spurious: bool): State
    requires t < |s.threads| && s.threads[t].pc.Decrementing?
  {
    var th := s.threads[t];
    var expected := th.pc.expected;
    if expected == MAX then Log(Put(s, t, Thread(Idle, th.held)), Dec, Zero)
    else if s.count == expected && !spurious && expected > 0 then
      Log(Put(s.(count := expected - 1), t, Thread(Idle, th.held)), Dec, if expected - 1 == 0 then One else Zero)
    else ReadDec(s, t, th.held)
  }

  /** Only a thread that owns a reference may use it; a decrement gives it up. */
  function Next(s: State, a: Action): State {
    if a.t >= |s.threads| then s else
    var th := s.threads[a.t];
    match a
    case StartInc(t) =>
      if th.pc.Idle? && th.held > 0 then Put(s, t, Thread(Incrementing(s.count), th.held)) else s
    case StartDec(t) => if th.pc.Idle? && th.held > 0 then ReadDec(s, t, th.held - 1) else s
    case Loop(t, spurious) =>
      if th.pc.Incrementing? then IncRound(s, t, spurious)
      else if th.pc.Decrementing? then DecRound(s, t, spurious)
      else s
    case Give(t, u) =>
      if th.pc.Idle? && th.held > 0 && u < |s.threads| && u != t then
        Put(Put(s, t, Thread(Idle, th.held - 1)), u, s.threads[u].(held := s.threads[u].held + 1))
      else s
  }

  // ---- Refinement --------------------------------------------------------

  /** The count the locked counter has after these operations, if it gives the same
      results. */
  function Replay(count: nat, done: seq<(Op, Outcome)>): Option<nat>
    decreases |done|
  {
    if done == [] then Some(count)
    else if Atomic(done[0].0, count).1 == done[0].1 then Replay(Atomic(done[0].0, count).0, done[1..])
    else None
  }

  lemma {:induction false} ReplaySnoc(count: nat, done: seq<(Op, Outcome)>, op: Op, o: Outcome)
    requires Replay(count, done).Some?
    ensures Replay(count, done + [(op, o)])
      == var c := Replay(count, done).value; if Atomic(op, c).1 == o then Some(Atomic(op, c).0) else None
    decreases |done|
  {
    if done == [] {
      assert [(op, o)][1..] == [];
    } else {
      ReplaySnoc(Atomic(done[0].0, count).0, done[1..], op, o);
      assert (done + [(op, o)])[0] == done[0] && (done + [(op, o)])[1..] == done[1..] + [(op, o)];
    }
  }

  /** A thread that has read MAX can rely on the count staying there. */
  ghost predicate Saturates(s: State) {
    && s.count <= MAX
    && forall t {:trigger s.threads[t]} :: 0 <= t < |s.threads| ==>
      && (s.threads[t].pc.Incrementing? || s.threads[t].pc.Decrementing? ==>
           s.threads[t].pc.expected <= MAX && (s.threads[t].pc.expected == MAX ==> s.count == MAX))
      && (s.threads[t].pc.Decrementing? ==> s.threads[t].pc.expected > 0)
  }

  /** The concurrent state is the locked counter after the operations done so far. */
  ghost predicate Refines(start: nat, s: State) {
    Saturates(s) && Replay(start, s.done) == Some(s.count)
  }

  lemma Step(start: nat, s: State, a: Action)
    requires Refines(start, s)
    ensures Refines(start, Next(s, a))
    ensures Next(s, a).done == s.done ==> Next(s, a).count == s.count
    ensures Next(s, a).done != s.done ==>
      exists op, o :: Next(s, a).done == s.done + [(op, o)] && Atomic(op, s.count) == (Next(s, a).count, o)
  {
    var s' := Next(s, a);
    if s'.done != s.done {
      var last := s'.done[|s'.done| - 1];
      assert s'.done == s.done + [last] && Atomic(last.0, s.count) == (s'.count, last.1);
      ReplaySnoc(start, s.done, last.0, last.1);
    }
  }

  function Run(s: State, actions: seq<Action>): State
    decreases |actions|
  {
    if actions == [] then s else Run(Next(s, actions[0]), actions[1..])
  }

  ghost predicate AllIdle(threads: seq<Thread>) {
    forall t :: 0 <= t < |threads| ==> threads[t].pc.Idle?
  }

  /** Under every interleaving, spurious failures included, the loops do what the locked
      counter does, operation by operation, with the same results. */
  lemma {:induction false} RunRefines(start: nat, s: State, actions: seq<Action>)
    requires Refines(start, s)
    ensures Refines(start, Run(s, actions))
    decreases |actions|
  {
    if actions != [] {
      Step(start, s, actions[0]);
      RunRefines(start, Next(s, actions[0]), actions[1..]);
    }
  }

  // ---- Owners ------------------------------------------------------------

  /** References a thread accounts for: those it holds, and the one it is giving up. */
  function Weight(th: Thread): nat {
    th.held + if th.pc.Decrementing? then 1 else 0
  }

  function Total(threads: seq<Thread>): nat {
    if threads == [] then 0 else Weight(threads[0]) + Total(threads[1..])
  }

  lemma {:induction false} TotalUpdate(threads: seq<Thread>, t: nat, th: Thread)
    requires t < |threads|
    ensures Total(threads[t := th]) == Total(threads) - Weight(threads[t]) + Weight(th)
    ensures Total(threads) >= Weight(threads[t])
    decreases |threads|
  {
    if t == 0 {
      assert threads[t := th][1..] == threads[1..];
    } else {
      TotalUpdate(threads[1..], t - 1, th);
      assert threads[t := th][1..] == threads[1..][t - 1 := th];
    }
  }

  /** Number of decrements that returned 1. */
  function Frees(done: seq<(Op, Outcome)>): nat {
    if done == [] then 0 else Frees(done[..|done| - 1]) + if done[|done| - 1].1 == One then 1 else 0
  }

  lemma {:induction false} FreesSnoc(done: seq<(Op, Outcome)>, op: Op, o: Outcome)
    ensures Frees(done + [(op, o)]) == Frees(done) + if o == One then 1 else 0
  {}

  /** Either the count is saturated and nothing was freed, or it is the number of
      references, and exactly the disappearance of the last one was reported. */
  ghost predicate Owned(s: State) {
    && (forall t {:trigger s.threads[t]} :: 0 <= t < |s.threads| ==>
         !s.threads[t].pc.Aborted? && (s.threads[t].pc.Incrementing? ==> s.threads[t].held > 0))
    && (s.count == MAX ==> Frees(s.done) == 0)
    && (s.count != MAX ==> s.count == Total(s.threads) && Frees(s.done) == if s.count == 0 then 1 else 0)
  }

  lemma GiveOwned(s: State, t: nat, u: nat)
    requires Owned(s)
    ensures Owned(Next(s, Give(t, u)))
  {
    var s' := Next(s, Give(t, u));
    if s' != s {
      TotalUpdate(s.threads, t, s'.threads[t]);
      TotalUpdate(s.threads[t := s'.threads[t]], u, s'.threads[u]);
    }
  }

  lemma IncOwned(s: State, t: nat, spurious: bool)
    requires Saturates(s) && Owned(s) && t < |s.threads| && s.threads[t].pc.Incrementing?
    ensures Owned(IncRound(s, t, spurious))
  {
    TotalUpdate(s.threads, t, IncRound(s, t, spurious).threads[t]);
    FreesSnoc(s.done, Inc, Unit);
  }

  lemma DecOwned(s: State, t: nat, spurious: bool)
    requires Saturates(s) && Owned(s) && t < |s.threads| && s.threads[t].pc.Decrementing?
    ensures Owned(DecRound(s, t, spurious))
  {
    TotalUpdate(s.threads, t, DecRound(s, t, spurious).threads[t]);
    FreesSnoc(s.done, Dec, Zero);
    FreesSnoc(s.done, Dec, One);
  }

  lemma StepOwned(s: State, a: Action)
    requires Saturates(s) && Owned(s)
    ensures Owned(Next(s, a))
  {
    if a.t < |s.threads| {
      match a
      case Give(t, u) => GiveOwned(s, t, u);
      case Loop(t, spurious) =>
        if s.threads[t].pc.Incrementing? {
          IncOwned(s, t, spurious);
        } else if s.threads[t].pc.Decrementing? {
          DecOwned(s, t, spurious);
        }
      case _ => TotalUpdate(s.threads, a.t, Next(s, a).threads[a.t]);
    }
  }

  lemma {:induction false} RunOwned(start: nat, s: State, actions: seq<Action>)
    requires Refines(start, s) && Owned(s)
    ensures Refines(start, Run(s, actions)) && Owned(Run(s, actions))
    decreases |actions|
  {
    if actions != [] {
      Step(start, s, actions[0]);
      StepOwned(s, actions[0]);
      RunOwned(start, Next(s, actions[0]), actions[1..]);
    }
  }

  /** When every reference is given up at most once: no thread aborts; at most one
      decrement returns 1, and only when no reference is left; without saturation one
      does as soon as none is left; a saturated count never returns 1. */
  lemma {:induction false} LastOwnerFrees(threads: seq<Thread>, actions: seq<Action>)
    requires AllIdle(threads) && 0 < Total(threads) < MAX
    ensures var s := Run(State(Total(threads), threads, []), actions);
      && (forall t :: 0 <= t < |s.threads| ==> !s.threads[t].pc.Aborted?)
      && Frees(s.done) <= 1
      && (Frees(s.done) == 1 ==> Total(s.threads) == 0)
      && (Total(s.threads) == 0 && s.count != MAX ==> Frees(s.done) == 1)
      && (s.count == MAX ==> Frees(s.done) == 0)
      && Replay(Total(threads), s.done) == Some(s.count)
  {
    RunOwned(Total(threads), State(Total(threads), threads, []), actions);
  }

  /** The decrement that returns 1 is the last operation: nothing can start or go on. */
  lemma {:induction false} NothingAfterLast(threads: seq<Thread>, actions: seq<Action>, a: Action)
    requires AllIdle(threads) && 0 < Total(threads) < MAX
    ensures var s := Run(State(Total(threads), threads, []), actions);
      Frees(s.done) == 1 ==> Next(s, a) == s
  {
    var s := Run(State(Total(threads), threads, []), actions);
    LastOwnerFrees(threads, actions);
    RunOwned(Total(threads), State(Total(threads), threads, []), actions);
    if Frees(s.done) == 1 && a.t < |s.threads| {
      TotalUpdate(s.threads, a.t, s.threads[a.t]);
    }
  }
}
