/** The round-robin scheduler: a ring of processes driven by the timer interrupt. */
module Scheduler {
  import opened Words

  const DEFAULT_TIME_SLICE: nat := 10
  const KSTACK_SIZE: nat := 8192

  datatype State = Unused | Embryo | Ready | Running | Waiting | Zombie

  datatype Pcb = Pcb(pid: nat, state: State, rsp: nat, cr3: nat, kernelStack: nat, slice: nat)

  /** The ring from its head, the position of the current process, and the stack pointer and page table in the CPU. */
  datatype Sched = Sched(ring: seq<Pcb>, cur: nat, rsp0: nat, cr3: nat)

  predicate Runnable(s: State) { s == Ready || s == Running }

  function Next(n: nat, i: nat): nat { if i + 1 < n then i + 1 else 0 }

  /** How many links lead from i to j in a ring of n. */
  function Distance(n: nat, i: nat, j: nat): nat
    requires i < n && j < n
  {
    if i <= j then j - i else j + n - i
  }

  /** The timer's search from j on: the first runnable process before the current one comes round again. */
  function Seek(ring: seq<Pcb>, cur: nat, j: nat): (k: nat)
    requires cur < |ring| && j < |ring|
    ensures k < |ring| && (k == cur || Runnable(ring[k].state))
    decreases Distance(|ring|, j, cur)
  {
    if j == cur || Runnable(ring[j].state) then j else Seek(ring, cur, Next(|ring|, j))
  }

  /** schedule()'s search, which accepts READY only. */
  function SeekReady(ring: seq<Pcb>, cur: nat, j: nat): (k: nat)
    requires cur < |ring| && j < |ring|
    ensures k < |ring| && (k == cur || ring[k].state == Ready)
    decreases Distance(|ring|, j, cur)
  {
    if ring[j].state == Ready || j == cur then j else SeekReady(ring, cur, Next(|ring|, j))
  }

  /** The time slice is decremented as a 64-bit word. */
  function Decrement(slice: nat): nat { if slice == 0 then TWO_64 - 1 else slice - 1 }

  /** The end of a slice: the next runnable process takes the CPU, or the current one gets a new slice. */
  function Rotate(s: Sched, rsp: nat): (Sched, nat)
    requires s.cur < |s.ring|
  {
    var me := s.ring[s.cur];
    var k := Seek(s.ring, s.cur, Next(|s.ring|, s.cur));
    if k == s.cur then (s.(ring := s.ring[s.cur := me.(slice := DEFAULT_TIME_SLICE)]), rsp)
    else
      var out := if me.state == Running then me.(state := Ready) else me;
      var into := s.ring[k].(state := Running, slice := DEFAULT_TIME_SLICE);
      var cr3 := if into.cr3 != 0 then into.cr3 else s.cr3;
      (Sched(s.ring[s.cur := out][k := into], k, into.kernelStack + KSTACK_SIZE, cr3), into.rsp)
  }

  /** The timer interrupt on a stack at rsp; the result is the stack to return on. */
  function Tick(s: Sched, rsp: nat): (Sched, nat)
    requires s.cur < |s.ring|
  {
    var me := s.ring[s.cur].(rsp := rsp, slice := Decrement(s.ring[s.cur].slice));
    var s' := s.(ring := s.ring[s.cur := me]);
    if me.slice != 0 then (s', rsp) else Rotate(s', rsp)
  }

  /** schedule() with a current process, called with the stack at rsp, until it returns or has switched to another
      stack. A switch leaves cur as it is: current_process is assigned only when the old process resumes. */
  function Schedule(s: Sched, rsp: nat): (Sched, Option<nat>)
    requires s.cur < |s.ring|
  {
    var me := s.ring[s.cur];
    if me.slice > 0 then (s.(ring := s.ring[s.cur := me.(slice := me.slice - 1)]), None)
    else
      var k := SeekReady(s.ring, s.cur, Next(|s.ring|, s.cur));
      if k == s.cur then (s.(ring := s.ring[s.cur := me.(slice := DEFAULT_TIME_SLICE)]), None)
      else
        var out := me.(rsp := rsp, state := if me.state == Running then Ready else me.state);
        var into := s.ring[k].(state := Running, slice := DEFAULT_TIME_SLICE);
        (Sched(s.ring[s.cur := out][k := into], s.cur, into.kernelStack + KSTACK_SIZE, into.cr3), Some(into.rsp))
  }

  /** A timer tick, or a change of some process's state from outside the scheduler. */
  datatype Event = Timer(rsp: nat) | Change(i: nat, state: State)

  function Apply(s: Sched, e: Event): (s': Sched)
    requires s.cur < |s.ring|
    ensures s'.cur < |s'.ring| == |s.ring|
  {
    match e
    case Timer(rsp) => Tick(s, rsp).0
    case Change(i, state) => if i < |s.ring| then s.(ring := s.ring[i := s.ring[i].(state := state)]) else s
  }

  function Run(s: Sched, es: seq<Event>): (s': Sched)
    requires s.cur < |s.ring|
    ensures s'.cur < |s'.ring| == |s.ring|
    decreases |es|
  {
    if es == [] then s else Apply(Run(s, es[..|es| - 1]), es[|es| - 1])
  }

  // ---------- Bounded wait ----------

  predicate SliceInRange(s: Sched)
    requires s.cur < |s.ring|
  {
    1 <= s.ring[s.cur].slice <= DEFAULT_TIME_SLICE
  }

  /** A READY process on the way stops the search at or before it. */
  lemma {:induction false} SeekStopsBy(ring: seq<Pcb>, cur: nat, j: nat, p: nat)
    requires cur < |ring| && j < |ring| && p < |ring| && j != cur && p != cur
    requires Distance(|ring|, cur, j) <= Distance(|ring|, cur, p) && Runnable(ring[p].state)
    ensures var k := Seek(ring, cur, j);
            k != cur && Distance(|ring|, cur, j) <= Distance(|ring|, cur, k) <= Distance(|ring|, cur, p)
    decreases Distance(|ring|, j, cur)
  {
    if !Runnable(ring[j].state) {
      assert j != p;
      var j' := Next(|ring|, j);
      assert j' != cur;
      SeekStopsBy(ring, cur, j', p);
    }
  }

  /** The ticks a slice lasts: a slice of 0 wraps round to 2^64. */
  function Lasts(slice: nat): nat { if slice == 0 then TWO_64 else slice }

  /** An upper bound on the ticks until p is current. */
  function WaitBound(s: Sched, p: nat): nat
    requires s.cur < |s.ring| && p < |s.ring|
  {
    var d := Distance(|s.ring|, s.cur, p);
    if d == 0 then 0 else DEFAULT_TIME_SLICE * (d - 1) + Lasts(s.ring[s.cur].slice)
  }

  lemma TickShortensWait(s: Sched, rsp: nat, p: nat)
    requires s.cur < |s.ring| && p < |s.ring| && p != s.cur && Runnable(s.ring[p].state)
    ensures var s' := Tick(s, rsp).0;
            s'.cur < |s'.ring| == |s.ring| && WaitBound(s', p) < WaitBound(s, p)
  {
    var n := |s.ring|;
    var me := s.ring[s.cur].(rsp := rsp, slice := Decrement(s.ring[s.cur].slice));
    var ring := s.ring[s.cur := me];
    if me.slice == 0 {
      var first := Next(n, s.cur);
      assert Distance(n, s.cur, first) == 1;
      SeekStopsBy(ring, s.cur, first, p);
      var k := Seek(ring, s.cur, first);
      assert Distance(n, k, p) == Distance(n, s.cur, p) - Distance(n, s.cur, k);
    }
  }

  function Ticks(es: seq<Event>): nat
    decreases |es|
  {
    if es == [] then 0 else (if es[0].Timer? then 1 else 0) + Ticks(es[1..])
  }

  /** p is current after some prefix of the events. */
  predicate BecomesCurrent(s: Sched, es: seq<Event>, p: nat)
    requires s.cur < |s.ring|
    decreases |es|
  {
    s.cur == p || (es != [] && BecomesCurrent(Apply(s, es[0]), es[1..], p))
  }

  /** p is READY (or RUNNING) until it is current, whatever else happens. */
  predicate RunnableUntilCurrent(s: Sched, es: seq<Event>, p: nat)
    requires s.cur < |s.ring| && p < |s.ring|
    decreases |es|
  {
    s.cur == p || (Runnable(s.ring[p].state) && (es != [] ==> RunnableUntilCurrent(Apply(s, es[0]), es[1..], p)))
  }

  /** Bounded wait: a process that stays runnable is current within WaitBound ticks, whatever the states of the
      others do in between; with a slice in range that is at most 10 per link and so at most 10 * (N - 1). */
  lemma {:induction false} BoundedWait(s: Sched, es: seq<Event>, p: nat)
    requires s.cur < |s.ring| && p < |s.ring|
    requires RunnableUntilCurrent(s, es, p) && Ticks(es) >= WaitBound(s, p)
    ensures BecomesCurrent(s, es, p)
    ensures SliceInRange(s) ==>
              WaitBound(s, p) <= DEFAULT_TIME_SLICE * Distance(|s.ring|, s.cur, p) <= DEFAULT_TIME_SLICE * (|s.ring| - 1)
    decreases |es|
  {
    if s.cur != p {
      match es[0]
      case Timer(rsp) =>
        TickShortensWait(s, rsp, p);
        BoundedWait(Apply(s, es[0]), es[1..], p);
      case Change(i, state) =>
        BoundedWait(Apply(s, es[0]), es[1..], p);
    }
  }

  /** Between ticks the current slice stays in 1..10 once it is. */
  lemma {:induction false} SliceStaysInRange(s: Sched, es: seq<Event>)
    requires s.cur < |s.ring| && SliceInRange(s)
    ensures SliceInRange(Run(s, es))
    decreases |es|
  {
    if es != [] {
      SliceStaysInRange(s, es[..|es| - 1]);
    }
  }

  lemma {:induction false} TicksNext(es: seq<Event>, e: Event)
    ensures Ticks(es + [e]) == Ticks(es) + if e.Timer? then 1 else 0
    decreases |es|
  {
    if es == [] {
      assert es + [e] == [e] && [e][1..] == [];
    } else {
      assert (es + [e])[0] == es[0] && (es + [e])[1..] == es[1..] + [e];
      TicksNext(es[1..], e);
    }
  }

  /** The bound on the first switch is tight: before tick Lasts(slice) the current process keeps the CPU, whatever
      the states of all processes do in between. */
  lemma {:induction false} SliceHolds(s: Sched, es: seq<Event>)
    requires s.cur < |s.ring| && Ticks(es) < Lasts(s.ring[s.cur].slice)
    ensures var s' := Run(s, es);
            s'.cur == s.cur && Lasts(s'.ring[s'.cur].slice) == Lasts(s.ring[s.cur].slice) - Ticks(es)
    decreases |es|
  {
    if es != [] {
      var n := |es| - 1;
      assert es == es[..n] + [es[n]];
      TicksNext(es[..n], es[n]);
      SliceHolds(s, es[..n]);
    }
  }

  /** schedule() leaves the current process a slice of 0 exactly when the slice was 1, or when it was 0 and another
      process is READY. */
  lemma ScheduleLeavesZero(s: Sched, rsp: nat)
    requires s.cur < |s.ring|
    ensures var s' := Schedule(s, rsp).0;
            && s'.cur == s.cur < |s'.ring| == |s.ring|
            && (s'.ring[s.cur].slice == 0 <==>
                  || s.ring[s.cur].slice == 1
                  || (s.ring[s.cur].slice == 0 && exists i :: 0 <= i < |s.ring| && i != s.cur && s.ring[i].state == Ready))
  {
    ScheduleSwitches(s, rsp);
  }

  /** So one call of schedule() on the last tick of a slice keeps every other process off the CPU for the next
      2^64 - 1 ticks, whatever the states do in between. */
  lemma ScheduleStarves(s: Sched, rsp: nat, es: seq<Event>)
    requires s.cur < |s.ring| && s.ring[s.cur].slice == 1 && Ticks(es) < TWO_64
    ensures Run(Schedule(s, rsp).0, es).cur == s.cur
  {
    ScheduleLeavesZero(s, rsp);
    SliceHolds(Schedule(s, rsp).0, es);
  }

  // ---------- What a tick does to everybody ----------

  /** Block b is a with another stack pointer and slice, and the state given. */
  predicate SameButTime(a: Pcb, b: Pcb, state: State) {
    b.pid == a.pid && b.cr3 == a.cr3 && b.kernelStack == a.kernelStack && b.state == state
  }

  /** A tick without a switch only counts down, or renews the slice. A switch happens on the last tick of the slice
      and when another process can run: the new current process is RUNNING with a full slice, its stack is in the
      TSS and its page table, if it has one, in cr3; the old one is READY if it was RUNNING, and keeps any other
      state. Nothing else about anybody changes. */
  lemma TickEffect(s: Sched, rsp: nat)
    requires s.cur < |s.ring|
    ensures var (s', r) := Tick(s, rsp); var me := s.ring[s.cur];
            && s'.cur < |s'.ring| == |s.ring|
            && (forall i :: 0 <= i < |s.ring| && i != s.cur && i != s'.cur ==> s'.ring[i] == s.ring[i])
            && s'.ring[s.cur].rsp == rsp
            && (s'.cur != s.cur <==>
                  me.slice == 1 && exists i :: 0 <= i < |s.ring| && i != s.cur && Runnable(s.ring[i].state))
            && (if s'.cur == s.cur then
                  && SameButTime(me, s'.ring[s.cur], me.state) && r == rsp && s'.rsp0 == s.rsp0 && s'.cr3 == s.cr3
                  && s'.ring[s.cur].slice == (if me.slice == 0 then 0xFFFF_FFFF_FFFF_FFFF
                                              else if me.slice == 1 then 10 else me.slice - 1)
                else
                  var next := s.ring[s'.cur];
                  && SameButTime(me, s'.ring[s.cur], if me.state == Running then Ready else me.state)
                  && s'.ring[s.cur].slice == 0
                  && SameButTime(next, s'.ring[s'.cur], Running)
                  && s'.ring[s'.cur].slice == 10 && r == s'.ring[s'.cur].rsp == next.rsp
                  && s'.rsp0 == next.kernelStack + 8192 && s'.cr3 == (if next.cr3 != 0 then next.cr3 else s.cr3))
  {
    var me := s.ring[s.cur].(rsp := rsp, slice := Decrement(s.ring[s.cur].slice));
    var ring := s.ring[s.cur := me];
    if me.slice == 0 {
      var first := Next(|ring|, s.cur);
      if Seek(ring, s.cur, first) == s.cur {
        forall i | 0 <= i < |ring| && i != s.cur ensures !Runnable(s.ring[i].state) {
          assert ring[i] == s.ring[i];
          SeekIsNearest(ring, s.cur, first, i);
        }
      }
    }
  }

  /** No event changes the state of process p from outside. */
  predicate Untouched(es: seq<Event>, p: nat) { forall i :: 0 <= i < |es| ==> !(es[i].Change? && es[i].i == p) }

  lemma ApplyKeepsRunnable(s: Sched, e: Event, p: nat)
    requires s.cur < |s.ring| && p < |s.ring| && Runnable(s.ring[p].state) && !(e.Change? && e.i == p)
    ensures Runnable(Apply(s, e).ring[p].state)
  {
    if e.Timer? {
      TickEffect(s, e.rsp);
    }
  }

  lemma {:induction false} StaysRunnable(s: Sched, es: seq<Event>, p: nat)
    requires s.cur < |s.ring| && p < |s.ring| && Runnable(s.ring[p].state) && Untouched(es, p)
    ensures Runnable(Run(s, es).ring[p].state)
    decreases |es|
  {
    if es != [] {
      StaysRunnable(s, es[..|es| - 1], p);
      ApplyKeepsRunnable(Run(s, es[..|es| - 1]), es[|es| - 1], p);
    }
  }

  lemma {:induction false} UntouchedIsRunnable(s: Sched, es: seq<Event>, p: nat)
    requires s.cur < |s.ring| && p < |s.ring| && Runnable(s.ring[p].state) && Untouched(es, p)
    ensures RunnableUntilCurrent(s, es, p)
    decreases |es|
  {
    if es != [] {
      ApplyKeepsRunnable(s, es[0], p);
      UntouchedIsRunnable(Apply(s, es[0]), es[1..], p);
    }
  }

  /** Round robin: a process that can run, and whose state nobody changes from outside, comes to the CPU again and
      again. From any point of a run it is current within 10 * (N - 1) ticks, preempted as often as it may be. */
  lemma RoundRobin(s: Sched, before: seq<Event>, es: seq<Event>, p: nat)
    requires s.cur < |s.ring| && p < |s.ring| && SliceInRange(s) && Runnable(s.ring[p].state)
    requires Untouched(before, p) && Untouched(es, p) && Ticks(es) >= 10 * (|s.ring| - 1)
    ensures BecomesCurrent(Run(s, before), es, p)
  {
    var mid := Run(s, before);
    SliceStaysInRange(s, before);
    StaysRunnable(s, before, p);
    UntouchedIsRunnable(mid, es, p);
    WaitIsBounded(mid, p);
    BoundedWait(mid, es, p);
  }

  lemma WaitIsBounded(s: Sched, p: nat)
    requires s.cur < |s.ring| && p < |s.ring| && SliceInRange(s)
    ensures WaitBound(s, p) <= DEFAULT_TIME_SLICE * (|s.ring| - 1)
  {
  }

  // ---------- Safety over whole runs ----------

  /** What the rest of the kernel does to states: the current process may block or exit, a waiting one may be
      woken; nobody makes a process RUNNING and nobody revives a ZOMBIE. */
  predicate Tame(s: Sched, e: Event) {
    e.Change? && e.i < |s.ring| ==> e.state != Running && s.ring[e.i].state != Zombie
  }

  predicate TameRun(s: Sched, es: seq<Event>)
    requires s.cur < |s.ring|
    decreases |es|
  {
    es == [] || (TameRun(s, es[..|es| - 1]) && Tame(Run(s, es[..|es| - 1]), es[|es| - 1]))
  }

  /** A RUNNING process is the current one, and the TSS points to the top of the current kernel stack. */
  predicate Safe(s: Sched) {
    && s.cur < |s.ring|
    && (forall i :: 0 <= i < |s.ring| && s.ring[i].state == Running ==> i == s.cur)
    && s.rsp0 == s.ring[s.cur].kernelStack + KSTACK_SIZE
  }

  lemma {:induction false} RunsStaySafe(s: Sched, es: seq<Event>)
    requires Safe(s) && TameRun(s, es)
    ensures Safe(Run(s, es))
    decreases |es|
  {
    if es != [] {
      RunsStaySafe(s, es[..|es| - 1]);
    }
  }

  /** schedule() switches exactly when the slice is used up and another process is READY. */
  lemma ScheduleSwitches(s: Sched, rsp: nat)
    requires s.cur < |s.ring|
    ensures Schedule(s, rsp).1.Some? <==>
            s.ring[s.cur].slice == 0 && exists i :: 0 <= i < |s.ring| && i != s.cur && s.ring[i].state == Ready
  {
    var first := Next(|s.ring|, s.cur);
    if SeekReady(s.ring, s.cur, first) == s.cur {
      forall i | 0 <= i < |s.ring| && i != s.cur ensures s.ring[i].state != Ready {
        SeekReadyIsNearest(s.ring, s.cur, first, i);
      }
    }
  }

  /** schedule() keeps this exactly when there is time left or nobody else is READY. Otherwise it switches, and the
      RUNNING process is not the current one, because current_process still names the old process. */
  lemma ScheduleKeepsSafe(s: Sched, rsp: nat)
    requires Safe(s)
    ensures Safe(Schedule(s, rsp).0) <==>
            s.ring[s.cur].slice > 0 || forall i :: 0 <= i < |s.ring| && i != s.cur ==> s.ring[i].state != Ready
  {
    var (s', to) := Schedule(s, rsp);
    ScheduleSwitches(s, rsp);
    if to.Some? {
      var k := SeekReady(s.ring, s.cur, Next(|s.ring|, s.cur));
      assert s'.ring[k].state == Running && k != s'.cur;
    }
  }

  /** Two processes, the current one without time left and the other READY: schedule() makes the other RUNNING. */
  lemma ScheduleBreaksSafe(a: Pcb, b: Pcb, cr3: nat, rsp: nat)
    requires a.state == Running && a.slice == 0 && b.state == Ready
    ensures var s := Sched([a, b], 0, a.kernelStack + KSTACK_SIZE, cr3);
            var s' := Schedule(s, rsp).0;
            Safe(s) && s'.cur == 0 && s'.ring[0].state == Ready && s'.ring[1].state == Running && !Safe(s')
  {
    var s := Sched([a, b], 0, a.kernelStack + KSTACK_SIZE, cr3);
    assert s.ring[1].state == Ready;
    assert SeekReady(s.ring, 0, 1) == 1;
    ScheduleKeepsSafe(s, rsp);
  }

  /** The stack pointer saved when i was last switched out during the run, or the one it started with. */
  function LastSaved(s: Sched, es: seq<Event>, i: nat): nat
    requires s.cur < |s.ring| && i < |s.ring|
    decreases |es|
  {
    if es == [] then s.ring[i].rsp
    else
      var before := es[..|es| - 1];
      var e := es[|es| - 1];
      if e.Timer? && Run(s, before).cur == i && Run(s, es).cur != i then e.rsp else LastSaved(s, before, i)
  }

  lemma {:induction false} RspIsLastSaved(s: Sched, es: seq<Event>, i: nat)
    requires s.cur < |s.ring| && i < |s.ring| && Run(s, es).cur != i
    ensures Run(s, es).ring[i].rsp == LastSaved(s, es, i)
    decreases |es|
  {
    if es != [] {
      var before := es[..|es| - 1];
      if Run(s, before).cur != i {
        RspIsLastSaved(s, before, i);
      }
    }
  }

  /** A switch to p returns on exactly the stack saved when p was last switched out. */
  lemma SwitchRestoresStack(s: Sched, es: seq<Event>, rsp: nat)
    requires s.cur < |s.ring|
    ensures var mid := Run(s, es); var (after, r) := Tick(mid, rsp);
            r == if after.cur != mid.cur then LastSaved(s, es, after.cur) else rsp
  {
    var mid := Run(s, es);
    var (after, r) := Tick(mid, rsp);
    if after.cur != mid.cur {
      RspIsLastSaved(s, es, after.cur);
    }
  }

  /** When schedule() switches, it goes to the nearest READY process, on the stack saved when that one was last
      switched out; it saves its own stack pointer, and TSS and cr3 are the new process's. */
  lemma ScheduleSwitchesStacks(s: Sched, es: seq<Event>, rsp: nat) returns (k: nat)
    requires s.cur < |s.ring| && Schedule(Run(s, es), rsp).1.Some?
    ensures var mid := Run(s, es); var (after, to) := Schedule(mid, rsp);
            && k < |s.ring| && k != mid.cur && mid.ring[k].state == Ready
            && (forall i :: 0 <= i < |s.ring| && i != mid.cur && mid.ring[i].state == Ready ==>
                  Distance(|s.ring|, mid.cur, k) <= Distance(|s.ring|, mid.cur, i))
            && to == Some(LastSaved(s, es, k)) && after.rsp0 == mid.ring[k].kernelStack + 8192
            && after.cr3 == mid.ring[k].cr3
            && after.ring[mid.cur] == mid.ring[mid.cur].(
                 rsp := rsp, state := if mid.ring[mid.cur].state == Running then Ready else mid.ring[mid.cur].state)
            && after.ring[k] == mid.ring[k].(state := Running, slice := 10)
            && (forall i :: 0 <= i < |s.ring| && i != k && i != mid.cur ==> after.ring[i] == mid.ring[i])
  {
    var mid := Run(s, es);
    var first := Next(|s.ring|, mid.cur);
    k := SeekReady(mid.ring, mid.cur, first);
    RspIsLastSaved(s, es, k);
    forall i | 0 <= i < |s.ring| && i != mid.cur && Distance(|s.ring|, mid.cur, i) < Distance(|s.ring|, mid.cur, k)
      ensures mid.ring[i].state != Ready
    {
      SeekReadyIsNearest(mid.ring, mid.cur, first, i);
    }
  }

  lemma {:induction false} SeekReadyIsNearest(ring: seq<Pcb>, cur: nat, j: nat, i: nat)
    requires cur < |ring| && j < |ring| && i < |ring| && i != cur && j != cur
    requires Distance(|ring|, cur, j) <= Distance(|ring|, cur, i)
    requires var k := SeekReady(ring, cur, j); k == cur || Distance(|ring|, cur, i) < Distance(|ring|, cur, k)
    ensures ring[i].state != Ready
    decreases Distance(|ring|, j, cur)
  {
    if i != j {
      var j' := Next(|ring|, j);
      assert j' != cur;
      SeekReadyIsNearest(ring, cur, j', i);
    }
  }

  /** A ZOMBIE that is not current stays a ZOMBIE and is never current again. */
  lemma {:induction false} ZombiesStayOut(s: Sched, es: seq<Event>, z: nat)
    requires s.cur < |s.ring| && z < |s.ring| && z != s.cur && s.ring[z].state == Zombie && TameRun(s, es)
    ensures Run(s, es).cur != z && Run(s, es).ring[z].state == Zombie
    decreases |es|
  {
    if es != [] {
      ZombiesStayOut(s, es[..|es| - 1], z);
    }
  }

  // ---------- Two searches, one successor ----------

  /** When only the current process can be RUNNING, schedule() and the timer choose the same successor. */
  lemma {:induction false} SearchesAgree(ring: seq<Pcb>, cur: nat, j: nat)
    requires cur < |ring| && j < |ring|
    requires forall i :: 0 <= i < |ring| && ring[i].state == Running ==> i == cur
    ensures Seek(ring, cur, j) == SeekReady(ring, cur, j)
    decreases Distance(|ring|, j, cur)
  {
    if j != cur && !Runnable(ring[j].state) {
      SearchesAgree(ring, cur, Next(|ring|, j));
    }
  }

  /** The search is the least number of links to a runnable process, and comes back round when there is none. */
  lemma {:induction false} SeekIsNearest(ring: seq<Pcb>, cur: nat, j: nat, i: nat)
    requires cur < |ring| && j < |ring| && i < |ring| && j != cur && i != cur
    requires Distance(|ring|, cur, j) <= Distance(|ring|, cur, i)
    requires var k := Seek(ring, cur, j); k == cur || Distance(|ring|, cur, i) < Distance(|ring|, cur, k)
    ensures !Runnable(ring[i].state)
  {
    if Runnable(ring[i].state) {
      SeekStopsBy(ring, cur, j, i);
    }
  }
}
