/** Threads sharing the kernel heap under its spinlock: every interleaving is a sequence of whole operations. */
module HeapLock {
  import opened KernelHeap

  /** Where a thread is in kmalloc or kfree. */
  datatype Phase =
    | Outside
    | Spinning(op: Op)                 // in the retry loop of spin_lock
    | Searching(op: Op, k: nat)        // kmalloc with the lock, its cursor at block k
    | Marking(op: Op)                  // kfree with the lock, before it marks the block
    | Merging(op: Op, k: nat)          // kfree's coalescing pass with its cursor at block k
    | Leaving(op: Op, result: nat)     // before spin_unlock

  predicate Inside(p: Phase) { p.Searching? || p.Marking? || p.Merging? || p.Leaving? }

  datatype Done = Done(thread: nat, op: Op, result: nat)

  /** The lock word, the shared list, each thread's phase, the pointers threads may still pass to kfree, and
      the operations completed so far in the order of their unlocks. */
  datatype Sys = Sys(locked: bool, blocks: seq<Block>, phases: map<nat, Phase>, owned: set<nat>, history: seq<Done>)

  function PhaseOf(s: Sys, t: nat): Phase { if t in s.phases then s.phases[t] else Outside }

  function SetPhase(s: Sys, t: nat, p: Phase): Sys { s.(phases := s.phases[t := p]) }

  function Start(start: nat): Sys { Sys(false, InitialBlocks(start), map[], {}, []) }

  datatype Act = Invoke(thread: nat, op: Op) | Advance(thread: nat)

  /** kmalloc(0) and kfree(NULL) return before they reach the lock. */
  predicate NeedsLock(op: Op) {
    match op
    case Take(size) => size > 0
    case Give(ptr) => ptr != 0
  }

  /** One loop iteration inside the critical section, or the unlock. */
  function Work(s: Sys, t: nat): Sys {
    match PhaseOf(s, t)
    case Searching(op, k) =>
      if !op.Take? || k >= |s.blocks| then SetPhase(s, t, Leaving(op, 0))
      else
        var n := Align16(op.size);
        if Fits(s.blocks[k], n) then
          SetPhase(s.(blocks := Carve(s.blocks, k, n)), t, Leaving(op, s.blocks[k].addr + HEADER))
        else SetPhase(s, t, Searching(op, k + 1))
    case Marking(op) =>
      if !op.Give? || op.ptr < HEADER then SetPhase(s, t, Leaving(op, 0))
      else SetPhase(s.(blocks := MarkFree(s.blocks, op.ptr - HEADER)), t, Merging(op, 0))
    case Merging(op, k) =>
      if k + 1 >= |s.blocks| then SetPhase(s, t, Leaving(op, 0))
      else if s.blocks[k].free && s.blocks[k + 1].free then s.(blocks := Merge(s.blocks, k))
      else SetPhase(s, t, Merging(op, k + 1))
    case Leaving(op, r) =>
      var owned := if r != 0 then s.owned + {r} else s.owned;
      Sys(false, s.blocks, s.phases[t := Outside], owned, s.history + [Done(t, op, r)])
    case _ => s
  }

  /** The atomic exchange of spin_lock: the lock word becomes 1, and the thread enters if it was 0. */
  function Exchange(s: Sys, t: nat, op: Op): Sys {
    if s.locked then s
    else SetPhase(s.(locked := true), t, if op.Take? then Searching(op, 0) else Marking(op))
  }

  /** A thread outside may start an operation; kfree only with a pointer it owns. Disabled actions do nothing. */
  function Step(s: Sys, a: Act): Sys {
    match a
    case Invoke(t, op) =>
      if PhaseOf(s, t) != Outside || !NeedsLock(op) || (op.Give? && op.ptr !in s.owned) then s
      else SetPhase(if op.Give? then s.(owned := s.owned - {op.ptr}) else s, t, Spinning(op))
    case Advance(t) =>
      if PhaseOf(s, t).Spinning? then Exchange(s, t, PhaseOf(s, t).op) else Work(s, t)
  }

  function Exec(s: Sys, acts: seq<Act>): Sys
    decreases |acts|
  {
    if acts == [] then s else Exec(Step(s, acts[0]), acts[1..])
  }

  // ---------- The sequential reference ----------

  /** The heap after the completed operations, one after the other. */
  function Sequential(start: nat, history: seq<Done>): Heap
  {
    if history == [] then Init(start)
    else KernelHeap.Step(Sequential(start, history[..|history| - 1]), history[|history| - 1].op)
  }

  /** List and result of one whole operation. */
  function Whole(bs: seq<Block>, op: Op): (seq<Block>, nat) {
    match op
    case Take(size) => Malloc(bs, size)
    case Give(ptr) => (Free(bs, ptr), 0)
  }

  /** Every completed operation was allowed and returned what it returns in the sequential order. */
  ghost predicate Matches(start: nat, history: seq<Done>) {
    forall i :: 0 <= i < |history| ==>
      var h := Sequential(start, history[..i]);
      Allowed(h, history[i].op) && history[i].result == Whole(h.blocks, history[i].op).1
  }

  /** List and result once the thread in this phase has run its operation to the end. */
  function Finish(bs: seq<Block>, p: Phase): (seq<Block>, nat) {
    match p
    case Searching(op, k) => if op.Take? && k <= |bs| then MallocFrom(bs, k, Align16(op.size)) else (bs, 0)
    case Marking(op) => if op.Give? then (Free(bs, op.ptr), 0) else (bs, 0)
    case Merging(op, k) => if k < |bs| then (CoalesceFrom(bs, k), 0) else (bs, 0)
    case Leaving(op, r) => (bs, r)
    case _ => (bs, 0)
  }

  // ---------- The invariant ----------

  /** kfree(p) has been called by thread t and has not completed. */
  predicate Releasing(s: Sys, t: nat, p: nat) {
    var ph := PhaseOf(s, t);
    ph != Outside && ph.op == Give(p)
  }

  ghost predicate PointersSafe(s: Sys, h: Heap) {
    && s.owned <= h.requests.Keys
    && (forall t, p: nat :: Releasing(s, t, p) ==> p in h.requests && p !in s.owned)
    && (forall t, u, p: nat :: Releasing(s, t, p) && Releasing(s, u, p) ==> t == u)
  }

  ghost predicate WellPhased(s: Sys, p: Phase) {
    && (p != Outside ==> NeedsLock(p.op))
    && (p.Searching? ==> p.op.Take? && p.k <= |s.blocks|)
    && (p.Marking? ==> p.op.Give?)
    && (p.Merging? ==> p.op.Give? && p.k < |s.blocks|)
  }

  /** At most one thread is inside, exactly while the lock is taken; what it has left to do completes its
      operation on the sequential heap, and without it the list is the sequential heap's. */
  ghost predicate LockSafe(s: Sys, h: Heap) {
    && (forall t, u :: Inside(PhaseOf(s, t)) && Inside(PhaseOf(s, u)) ==> t == u)
    && (forall t :: WellPhased(s, PhaseOf(s, t)))
    && (forall t :: Inside(PhaseOf(s, t)) ==>
          s.locked && Finish(s.blocks, PhaseOf(s, t)) == Whole(h.blocks, PhaseOf(s, t).op))
    && (s.locked ==> exists t :: Inside(PhaseOf(s, t)))
    && (!s.locked ==> s.blocks == h.blocks)
    && s.blocks != []
  }

  ghost predicate Inv(s: Sys, start: nat) {
    var h := Sequential(start, s.history);
    HeapInv(h, start) && Matches(start, s.history) && PointersSafe(s, h) && LockSafe(s, h)
  }

  lemma InvokeKeepsInv(s: Sys, t: nat, op: Op, start: nat)
    requires Inv(s, start)
    ensures Inv(Step(s, Invoke(t, op)), start)
  {
    hide HeapInv, Matches, Finish, Whole, Sequential;
    var s' := Step(s, Invoke(t, op));
    var h := Sequential(start, s.history);
    if s' != s {
      assert forall u :: PhaseOf(s', u) == if u == t then Spinning(op) else PhaseOf(s, u);
      assert s.locked ==> exists u :: Inside(PhaseOf(s', u)) by {
        if s.locked {
          var u :| Inside(PhaseOf(s, u));
          assert Inside(PhaseOf(s', u));
        }
      }
      assert forall u, p: nat :: Releasing(s', u, p) ==> Releasing(s, u, p) || (u == t && op == Give(p));
      assert PointersSafe(s', h);
    }
  }

  lemma ExchangeKeepsInv(s: Sys, t: nat, start: nat)
    requires Inv(s, start) && PhaseOf(s, t).Spinning?
    ensures Inv(Step(s, Advance(t)), start)
  {
    hide HeapInv, Matches, Sequential, Malloc, Free, MallocFrom;
    var s' := Step(s, Advance(t));
    var h := Sequential(start, s.history);
    if !s.locked {
      var op := PhaseOf(s, t).op;
      var entered := if op.Take? then Searching(op, 0) else Marking(op);
      assert forall u :: PhaseOf(s', u) == if u == t then entered else PhaseOf(s, u);
      assert forall u, p: nat :: Releasing(s', u, p) == Releasing(s, u, p);
      assert WellPhased(s, PhaseOf(s, t));
      MallocUnfolds(s.blocks, op);
      assert Inside(PhaseOf(s', t));
      assert PointersSafe(s', h);
      assert LockSafe(s', h);
    }
  }

  lemma MallocUnfolds(bs: seq<Block>, op: Op)
    ensures op.Take? && op.size > 0 ==> Whole(bs, op) == MallocFrom(bs, 0, Align16(op.size))
  {
  }

  /** One iteration inside the critical section leaves the outcome of the operation as it was. */
  lemma WorkKeepsOutcome(s: Sys, t: nat)
    requires WellPhased(s, PhaseOf(s, t)) && Inside(PhaseOf(s, t)) && !PhaseOf(s, t).Leaving? && s.blocks != []
    ensures var s' := Work(s, t);
            && Finish(s'.blocks, PhaseOf(s', t)) == Finish(s.blocks, PhaseOf(s, t))
            && Inside(PhaseOf(s', t)) && PhaseOf(s', t).op == PhaseOf(s, t).op && WellPhased(s', PhaseOf(s', t))
            && s'.blocks != [] && s'.locked == s.locked && s'.owned == s.owned && s'.history == s.history
            && (forall u :: u != t ==> PhaseOf(s', u) == PhaseOf(s, u))
  {
    hide Carve, Merge, MarkFree, Align16, NeedsLock;
  }

  lemma WorkKeepsInv(s: Sys, t: nat, start: nat)
    requires Inv(s, start) && Inside(PhaseOf(s, t)) && !PhaseOf(s, t).Leaving?
    ensures Inv(Step(s, Advance(t)), start)
  {
    hide HeapInv, Matches, Sequential, Finish, Whole, Work;
    var s' := Step(s, Advance(t));
    var h := Sequential(start, s.history);
    assert WellPhased(s, PhaseOf(s, t));
    WorkKeepsOutcome(s, t);
    assert forall u, p: nat :: Releasing(s', u, p) == Releasing(s, u, p);
    assert PointersSafe(s', h);
    forall u ensures WellPhased(s', PhaseOf(s', u)) {
      assert WellPhased(s, PhaseOf(s, u));
    }
    assert LockSafe(s', h);
  }

  lemma SequentialNext(start: nat, history: seq<Done>, d: Done)
    ensures Sequential(start, history + [d]) == KernelHeap.Step(Sequential(start, history), d.op)
  {
    assert (history + [d])[..|history|] == history;
  }

  lemma MatchesNext(start: nat, history: seq<Done>, d: Done)
    requires Matches(start, history)
    requires var h := Sequential(start, history); Allowed(h, d.op) && d.result == Whole(h.blocks, d.op).1
    ensures Matches(start, history + [d])
  {
    hide Sequential, Allowed, Whole;
    var l := history + [d];
    forall i | 0 <= i < |l|
      ensures var h := Sequential(start, l[..i]); Allowed(h, l[i].op) && l[i].result == Whole(h.blocks, l[i].op).1
    {
      if i < |history| {
        assert l[..i] == history[..i];
      } else {
        assert l[..i] == history;
      }
    }
  }

  /** The unlock completes the operation: the sequential heap takes one whole step. */
  lemma LeaveKeepsInv(s: Sys, t: nat, start: nat)
    requires Inv(s, start) && PhaseOf(s, t).Leaving?
    ensures Inv(Step(s, Advance(t)), start)
  {
    hide HeapInv, Matches, Sequential, Malloc, Free;
    var s' := Step(s, Advance(t));
    var h := Sequential(start, s.history);
    var op, r := PhaseOf(s, t).op, PhaseOf(s, t).result;
    var h' := KernelHeap.Step(h, op);
    SequentialNext(start, s.history, Done(t, op, r));
    assert Inside(PhaseOf(s, t));
    assert op.Give? ==> Releasing(s, t, op.ptr);
    if op.Take? {
      TakeKeepsInv(h, op.size, start);
    } else {
      GiveKeepsInv(h, op.ptr, start);
    }
    MatchesNext(start, s.history, Done(t, op, r));
    assert forall u :: PhaseOf(s', u) == if u == t then Outside else PhaseOf(s, u);
    assert forall u, p: nat :: Releasing(s', u, p) ==> u != t && Releasing(s, u, p);
    assert PointersSafe(s', h');
    forall u ensures !Inside(PhaseOf(s', u)) && WellPhased(s', PhaseOf(s', u)) {
      assert WellPhased(s, PhaseOf(s, u));
    }
    assert LockSafe(s', h');
  }

  lemma StepKeepsInv(s: Sys, a: Act, start: nat)
    requires Inv(s, start)
    ensures Inv(Step(s, a), start)
  {
    hide Inv;
    match a
    case Invoke(t, op) => InvokeKeepsInv(s, t, op, start);
    case Advance(t) =>
      match PhaseOf(s, t)
      case Outside =>
      case Spinning(_) => ExchangeKeepsInv(s, t, start);
      case Leaving(_, _) => LeaveKeepsInv(s, t, start);
      case _ =>
        WorkKeepsInv(s, t, start);
  }

  lemma {:induction false} RunsKeepInv(s: Sys, acts: seq<Act>, start: nat)
    requires Inv(s, start)
    ensures Inv(Exec(s, acts), start)
    decreases |acts|
  {
    hide Inv, Step;
    if acts != [] {
      StepKeepsInv(s, acts[0], start);
      RunsKeepInv(Step(s, acts[0]), acts[1..], start);
    }
  }

  lemma StartIsSafe(start: nat)
    requires start > 0 && start % 8 == 0
    ensures Inv(Start(start), start)
  {
    InitIsProper(start);
  }

  /** In every interleaving from boot: at most one thread is between spin_lock and spin_unlock, exactly while
      the lock word is set; the completed operations, in the order of their unlocks, are a sequential run
      whose every operation was allowed, kept the heap invariant and returned the same result; and whenever
      the lock is free the list is the one of that sequential run. */
  lemma Linearizable(start: nat, acts: seq<Act>)
    requires start > 0 && start % 8 == 0
    ensures var s := Exec(Start(start), acts); var h := Sequential(start, s.history);
            && (forall t, u :: Inside(PhaseOf(s, t)) && Inside(PhaseOf(s, u)) ==> t == u)
            && (s.locked <==> exists t :: Inside(PhaseOf(s, t)))
            && Matches(start, s.history) && HeapInv(h, start)
            && (!s.locked ==> s.blocks == h.blocks)
  {
    hide HeapInv, Matches, Sequential, Exec, WellPhased, Finish, Whole;
    StartIsSafe(start);
    RunsKeepInv(Start(start), acts, start);
  }

  /** An operation enters the history at the unlock of its own thread, so between its call and its return. */
  lemma HistoryGrowsAtUnlock(s: Sys, a: Act)
    ensures var s' := Step(s, a);
            || s'.history == s.history
            || (a.Advance? && PhaseOf(s, a.thread).Leaving? && PhaseOf(s', a.thread) == Outside
                && s'.history == s.history + [Done(a.thread, PhaseOf(s, a.thread).op, PhaseOf(s, a.thread).result)])
  {
  }

  /** What has completed keeps its place: the sequential order only ever grows at its end. */
  lemma {:induction false} HistoryOnlyGrows(s: Sys, acts: seq<Act>)
    ensures s.history <= Exec(s, acts).history
    decreases |acts|
  {
    hide Step;
    if acts != [] {
      HistoryGrowsAtUnlock(s, acts[0]);
      HistoryOnlyGrows(Step(s, acts[0]), acts[1..]);
    }
  }

  /** Thread t has called op and not returned. */
  predicate InCall(s: Sys, t: nat, op: Op) { PhaseOf(s, t) != Outside && PhaseOf(s, t).op == op }

  /** A step by anybody keeps t in its call, unless it is t's own unlock, which records that call. */
  lemma StepInCall(s: Sys, a: Act, t: nat, op: Op)
    requires InCall(s, t, op)
    ensures var s' := Step(s, a);
            if InCall(s', t, op) then
              s'.history == s.history || exists d: Done :: d.thread != t && s'.history == s.history + [d]
            else
              exists r: nat :: s'.history == s.history + [Done(t, op, r)]
  {
    hide Carve, Merge, MarkFree, Align16, NeedsLock, Fits;
    var s' := Step(s, a);
    if s'.history != s.history {
      var d := Done(a.thread, PhaseOf(s, a.thread).op, PhaseOf(s, a.thread).result);
      assert s'.history == s.history + [d];
    }
  }

  /** Real-time order: what had completed when t made a call comes before the entry of that call, and until
      that entry appears t is still in the call. */
  lemma {:induction false} CallsKeepTheirOrder(s: Sys, acts: seq<Act>, t: nat, op: Op)
    requires InCall(s, t, op)
    ensures var s' := Exec(s, acts); var n := |s.history|;
            && s.history <= s'.history
            && ((forall i :: n <= i < |s'.history| ==> s'.history[i].thread != t) ==> InCall(s', t, op))
            && (forall i :: (n <= i < |s'.history| && s'.history[i].thread == t
                  && forall j :: n <= j < i ==> s'.history[j].thread != t) ==> s'.history[i].op == op)
    decreases |acts|
  {
    hide Step, InCall;
    if acts != [] {
      var s1, s', n := Step(s, acts[0]), Exec(s, acts), |s.history|;
      StepInCall(s, acts[0], t, op);
      HistoryOnlyGrows(s1, acts[1..]);
      if InCall(s1, t, op) {
        CallsKeepTheirOrder(s1, acts[1..], t, op);
        assert |s1.history| > n ==> s'.history[n] == s1.history[n] && s1.history[n].thread != t;
      } else {
        assert s'.history[n] == s1.history[n];
        assert s'.history[n].thread == t;
      }
    }
  }

  // ---------- Release of the lock ----------

  /** How often thread t is scheduled. */
  function Turns(acts: seq<Act>, t: nat): nat
    decreases |acts|
  {
    if acts == [] then 0 else (if acts[0] == Advance(t) then 1 else 0) + Turns(acts[1..], t)
  }

  /** An upper bound on the steps a thread inside still takes before it is outside. */
  function StepsLeft(s: Sys, t: nat): nat {
    match PhaseOf(s, t)
    case Searching(_, k) => if k <= |s.blocks| then |s.blocks| - k + 2 else 2
    case Marking(_) => |s.blocks| + 3
    case Merging(_, k) => if k <= |s.blocks| then |s.blocks| - k + 2 else 2
    case Leaving(_, _) => 1
    case _ => 0
  }

  lemma StepsLeftShrinks(s: Sys, t: nat)
    requires WellPhased(s, PhaseOf(s, t)) && Inside(PhaseOf(s, t)) && !PhaseOf(s, t).Leaving? && s.blocks != []
    ensures StepsLeft(Work(s, t), t) < StepsLeft(s, t)
  {
  }

  /** While t is inside, nothing that the others do reaches the list, the history or t. */
  lemma OthersWait(s: Sys, a: Act, t: nat, start: nat)
    requires Inv(s, start) && Inside(PhaseOf(s, t)) && a != Advance(t)
    ensures var s' := Step(s, a);
            PhaseOf(s', t) == PhaseOf(s, t) && s'.blocks == s.blocks && s'.history == s.history && s'.locked
  {
    hide HeapInv, Matches, Sequential, PointersSafe, Finish, Whole;
    assert a.thread != t ==> !Inside(PhaseOf(s, a.thread));
  }

  /** Every path of kmalloc and kfree releases the lock, in every interleaving: once the thread inside has been
      scheduled as often as its loops still need, it has unlocked, and nobody else completed in between. */
  lemma {:induction false} HolderReleases(s: Sys, t: nat, acts: seq<Act>, start: nat) returns (k: nat)
    requires Inv(s, start) && Inside(PhaseOf(s, t)) && Turns(acts, t) >= StepsLeft(s, t)
    ensures 0 < k <= |acts| && acts[k - 1] == Advance(t)
    ensures var s' := Exec(s, acts[..k]);
            && PhaseOf(s', t) == Outside && !s'.locked
            && s'.history == s.history + [Done(t, PhaseOf(s, t).op, Finish(s.blocks, PhaseOf(s, t)).1)]
            && (Finish(s.blocks, PhaseOf(s, t)).1 != 0 ==> Finish(s.blocks, PhaseOf(s, t)).1 in s'.owned)
    decreases |acts|
  {
    hide HeapInv, Matches, Sequential, PointersSafe, Finish, Whole, Work, LockSafe;
    InsideSteps(s, t, start);
    var a, rest := acts[0], acts[1..];
    var s1 := Step(s, a);
    StepKeepsInv(s, a, start);
    if a == Advance(t) && PhaseOf(s, t).Leaving? {
      k := 1;
      assert acts[..1][1..] == [];
      assert Exec(s, acts[..1]) == Exec(s1, []);
    } else {
      if a != Advance(t) {
        OthersWait(s, a, t, start);
      }
      var m := HolderReleases(s1, t, rest, start);
      k := m + 1;
      assert acts[..k][1..] == rest[..m] && acts[..k][0] == a;
      assert rest[m - 1] == acts[k - 1];
    }
  }

  /** One step of the thread inside: it unlocks with the outcome of its operation, or comes closer to that. */
  lemma InsideSteps(s: Sys, t: nat, start: nat)
    requires Inv(s, start) && Inside(PhaseOf(s, t))
    ensures StepsLeft(s, t) > 0
    ensures var s' := Step(s, Advance(t)); var p := PhaseOf(s, t);
            if p.Leaving? then
              && PhaseOf(s', t) == Outside && !s'.locked
              && s'.history == s.history + [Done(t, p.op, Finish(s.blocks, p).1)]
              && (Finish(s.blocks, p).1 != 0 ==> Finish(s.blocks, p).1 in s'.owned)
            else
              && Inside(PhaseOf(s', t)) && PhaseOf(s', t).op == p.op && s'.history == s.history
              && Finish(s'.blocks, PhaseOf(s', t)) == Finish(s.blocks, p) && StepsLeft(s', t) < StepsLeft(s, t)
  {
    hide HeapInv, Matches, Sequential, PointersSafe, Whole;
    assert WellPhased(s, PhaseOf(s, t));
    if !PhaseOf(s, t).Leaving? {
      WorkKeepsOutcome(s, t);
      StepsLeftShrinks(s, t);
    }
  }

  // ---------- Acquiring the lock ----------

  /** The exchange takes a free lock: the spinning thread is inside with its operation ahead of it, and nothing else
      has changed. */
  lemma AcquiresFreeLock(s: Sys, t: nat, start: nat)
    requires Inv(s, start) && !s.locked && PhaseOf(s, t).Spinning?
    ensures var s' := Step(s, Advance(t)); var op := PhaseOf(s, t).op;
            && s'.locked && Inside(PhaseOf(s', t)) && PhaseOf(s', t).op == op
            && Finish(s'.blocks, PhaseOf(s', t)) == Whole(s.blocks, op)
            && StepsLeft(s', t) <= |s.blocks| + 3
            && s'.blocks == s.blocks && s'.owned == s.owned && s'.history == s.history
            && (forall u :: u != t ==> PhaseOf(s', u) == PhaseOf(s, u))
  {
    hide HeapInv, Matches, Sequential, PointersSafe, Malloc, Free, MallocFrom;
    assert WellPhased(s, PhaseOf(s, t));
    MallocUnfolds(s.blocks, PhaseOf(s, t).op);
  }

  /** A taken lock is not taken again: the thread goes on spinning and nothing changes. */
  lemma SpinsOnTakenLock(s: Sys, t: nat)
    requires s.locked && PhaseOf(s, t).Spinning?
    ensures Step(s, Advance(t)) == s
  {
  }

  /** While the lock is free and only calls are made, t stays where it is in its own. */
  lemma {:induction false} CallsLeaveLock(s: Sys, t: nat, op: Op, acts: seq<Act>, start: nat)
    requires Inv(s, start) && !s.locked && PhaseOf(s, t) == Spinning(op)
    requires forall i :: 0 <= i < |acts| ==> acts[i].Invoke?
    ensures var s' := Exec(s, acts);
            && Inv(s', start) && !s'.locked && PhaseOf(s', t) == Spinning(op)
            && s'.blocks == s.blocks && s'.history == s.history
    decreases |acts|
  {
    hide Inv;
    if acts != [] {
      StepKeepsInv(s, acts[0], start);
      CallsLeaveLock(Step(s, acts[0]), t, op, acts[1..], start);
    }
  }

  lemma {:induction false} ExecConcat(s: Sys, a: seq<Act>, b: seq<Act>)
    ensures Exec(s, a + b) == Exec(Exec(s, a), b)
    decreases |a|
  {
    hide Step;
    if a == [] {
      assert a + b == b;
    } else {
      assert (a + b)[0] == a[0] && (a + b)[1..] == a[1..] + b;
      ExecConcat(Step(s, a[0]), a[1..], b);
    }
  }

  /** A call by t that the allocator accepts: kmalloc of a size, or kfree of a pointer that may be passed. */
  predicate Callable(s: Sys, t: nat, op: Op) {
    PhaseOf(s, t) == Outside && (match op case Take(size) => size > 0 case Give(ptr) => ptr != 0 && ptr in s.owned)
  }

  /** Completion: t makes a call while the lock is free, others make calls, t is the next to try the lock, and then
      anybody runs, t often enough. Then t returns from the call with the result of the whole operation on the list
      as it was, and what it got may be released. */
  lemma CallCompletes(s: Sys, t: nat, op: Op, calls: seq<Act>, acts: seq<Act>, start: nat) returns (k: nat)
    requires Inv(s, start) && !s.locked && Callable(s, t, op)
    requires forall i :: 0 <= i < |calls| ==> calls[i].Invoke?
    requires Turns(acts, t) >= |s.blocks| + 3
    ensures k <= |acts|
    ensures var s' := Exec(s, [Invoke(t, op)] + calls + [Advance(t)] + acts[..k]);
            var result := Whole(s.blocks, op).1;
            && PhaseOf(s', t) == Outside && !s'.locked
            && s'.history == s.history + [Done(t, op, result)]
            && (result != 0 ==> result in s'.owned)
  {
    hide Inv, Exec, Step, Work, Finish, Whole, StepsLeft, Turns;
    var s1 := Step(s, Invoke(t, op));
    StepKeepsInv(s, Invoke(t, op), start);
    InvokeStarts(s, t, op);
    ExecOne(s, Invoke(t, op));
    var s2 := Exec(s1, calls);
    CallsLeaveLock(s1, t, op, calls, start);
    var s3 := Step(s2, Advance(t));
    AcquiresFreeLock(s2, t, start);
    ExecOne(s2, Advance(t));
    StepKeepsInv(s2, Advance(t), start);
    k := HolderReleases(s3, t, acts, start);
    ExecConcat(s, [Invoke(t, op)], calls);
    ExecConcat(s, [Invoke(t, op)] + calls, [Advance(t)]);
    ExecConcat(s, [Invoke(t, op)] + calls + [Advance(t)], acts[..k]);
  }

  lemma ExecOne(s: Sys, a: Act)
    ensures Exec(s, [a]) == Step(s, a)
  {
    assert [a][1..] == [];
    assert Exec(Step(s, a), []) == Step(s, a);
  }

  lemma InvokeStarts(s: Sys, t: nat, op: Op)
    requires Callable(s, t, op)
    ensures var s' := Step(s, Invoke(t, op));
            PhaseOf(s', t) == Spinning(op) && s'.locked == s.locked && s'.blocks == s.blocks && s'.history == s.history
  {
  }
}
