/** Process control blocks: the table they come from, and the circular list the scheduler walks. */
module ProcessRing {
  import opened Words
  import opened Scheduler
  import UserHeap

  const MAX_PROCESSES: nat := 64

  class Process {
    var pid: nat
    var state: State
    var rsp: nat
    var cr3: nat
    var kernelStack: nat
    var slice: nat
    var entry: nat
    var heapStart: nat
    var brk: nat
    var next: Process?

    constructor ()
      ensures state == Unused && pid == 0 && next == null
    {
      pid, state, rsp, cr3, kernelStack, slice := 0, Unused, 0, 0, 0, 0;
      entry, heapStart, brk, next := 0, 0, 0, null;
    }

    ghost function Value(): Pcb
      reads this
    {
      Pcb(pid, state, rsp, cr3, kernelStack, slice)
    }
  }

  /** p appended to the ring, or the ring cut off behind p. */
  ghost function Relinked(ring: seq<Process>, p: Process): (r: seq<Process>)
    ensures 0 < |r| && r[|r| - 1] == p && |r| - 1 <= |ring| && r[..|r| - 1] == ring[..|r| - 1]
    ensures p !in ring ==> r == ring + [p]
    ensures p in ring ==> r <= ring
  {
    if p !in ring then ring + [p] else var i :| 0 <= i < |ring| && ring[i] == p; ring[..i + 1]
  }

  class RunQueue {
    var head: Process?
    var current: Process?
    var rsp0: nat
    var cr3: nat
    ghost var ring: seq<Process>
    ghost var cur: nat

    /** The next pointers form one cycle through the ring, whose first process is the head. */
    ghost predicate Cyclic()
      reads this, ring
    {
      && (forall i, j :: 0 <= i < j < |ring| ==> ring[i] != ring[j])
      && (forall i :: 0 <= i < |ring| ==> ring[i].next == ring[Next(|ring|, i)])
      && head == (if ring == [] then null else ring[0])
    }

    /** The current process, if there is one, is on that cycle. */
    ghost predicate Valid()
      reads this, ring
    {
      Cyclic() && (current != null ==> cur < |ring| && current == ring[cur])
    }

    ghost function Values(): (vs: seq<Pcb>)
      reads this, ring
      ensures |vs| == |ring| && forall i :: 0 <= i < |ring| ==> vs[i] == ring[i].Value()
    {
      seq(|ring|, i requires 0 <= i < |ring| reads this, ring => ring[i].Value())
    }

    ghost function View(): Sched
      reads this, ring
    {
      Sched(Values(), cur, rsp0, cr3)
    }

    constructor ()
      ensures Valid() && ring == [] && current == null
    {
      head, current, rsp0, cr3, ring, cur := null, null, 0, 0, [], 0;
    }

    /** The walk to the last process of the list. */
    method FindTail() returns (tail: Process)
      requires Cyclic() && ring != []
      ensures tail == ring[|ring| - 1]
    {
      tail := head;
      ghost var k := 0;
      while tail.next != head
        invariant k < |ring| && tail == ring[k]
        decreases |ring| - k
      {
        tail := tail.next;
        k := k + 1;
      }
    }

    /** sched_add_process: a READY process is appended just before the head. One that is in the ring already
        becomes its last process, so everything behind it drops out of the cycle, the current process included. */
    method Add(p: Process?)
      requires Valid()
      modifies this, p, ring
      ensures Cyclic() && current == old(current) && cur == old(cur) && rsp0 == old(rsp0) && cr3 == old(cr3)
      ensures Valid() <==> current == null || cur < |ring|
      ensures if p == null || old(p.state) != Ready then ring == old(ring) && Values() == old(Values())
              else
                && ring == Relinked(old(ring), p)
                && Values() == old(Values())[..|ring| - 1] + [old(p.Value()).(slice := DEFAULT_TIME_SLICE)]
    {
      if p == null || p.state != Ready {
        return;
      }
      p.slice := DEFAULT_TIME_SLICE;
      Link(p);
    }

    /** The stores that put p behind the last process. */
    method Link(p: Process)
      requires Cyclic()
      modifies `head, `ring, p`next, ring`next
      ensures Cyclic() && ring == Relinked(old(ring), p)
    {
      hide Relinked;
      ghost var was := ring;
      if head == null {
        head := p;
        p.next := p;
      } else {
        var tail := FindTail();
        tail.next := p;
        p.next := head;
      }
      ring := Relinked(was, p);
      forall i | 0 <= i < |ring| ensures ring[i].next == ring[Next(|ring|, i)] {
        if i < |ring| - 1 {
          assert ring[i] == ring[..|ring| - 1][i] == was[i];
          assert ring[i] != p;
          assert i + 1 < |ring| - 1 ==> ring[i + 1] == ring[..|ring| - 1][i + 1] == was[i + 1];
        }
      }
    }

    /** schedule()'s selection loop for the current process. */
    method SelectReady() returns (p: Process, ghost j: nat)
      requires Valid() && current != null
      ensures j == SeekReady(Values(), cur, Next(|ring|, cur)) && p == ring[j]
    {
      p := current.next;
      j := Next(|ring|, cur);
      while p.state != Ready && p != current
        invariant j < |ring| && p == ring[j]
        invariant SeekReady(Values(), cur, Next(|ring|, cur)) == SeekReady(Values(), cur, j)
        decreases Distance(|ring|, j, cur)
      {
        assert j != cur;
        p := p.next;
        j := Next(|ring|, j);
      }
    }

    /** The timer's selection loop. */
    method SelectRunnable() returns (p: Process, ghost j: nat)
      requires Valid() && current != null
      ensures j == Seek(Values(), cur, Next(|ring|, cur)) && p == ring[j]
    {
      p := current.next;
      j := Next(|ring|, cur);
      while p != current && p.state != Ready && p.state != Running
        invariant j < |ring| && p == ring[j]
        invariant Seek(Values(), cur, Next(|ring|, cur)) == Seek(Values(), cur, j)
        decreases Distance(|ring|, j, cur)
      {
        assert j != cur;
        p := p.next;
        j := Next(|ring|, j);
      }
    }

    /** A RUNNING process that loses the CPU is READY again. */
    method StandDown()
      requires Valid() && current != null
      modifies current
      ensures Valid()
      ensures var me := old(Values())[cur];
              Values() == old(Values())[cur := if me.state == Running then me.(state := Ready) else me]
    {
      if current.state == Running {
        current.state := Ready;
      }
    }

    /** What schedule() prepares before it switches to process p at position k: current stays. */
    method Prepare(p: Process, ghost k: nat)
      requires Valid() && k < |ring| && p == ring[k]
      modifies `rsp0, `cr3, p
      ensures Valid() && rsp0 == p.kernelStack + KSTACK_SIZE && cr3 == p.cr3
      ensures Values() == old(Values())[k := old(Values())[k].(state := Running, slice := DEFAULT_TIME_SLICE)]
    {
      p.state := Running;
      p.slice := DEFAULT_TIME_SLICE;
      rsp0 := p.kernelStack + KSTACK_SIZE;
      cr3 := p.cr3;
    }

    /** The current process gives up the CPU in schedule(), its stack pointer saved by context_switch. */
    method Leave(rsp: nat)
      requires Valid() && current != null
      modifies current
      ensures Valid()
      ensures var me := old(Values())[cur];
              Values() ==
              old(Values())[cur := me.(rsp := rsp, state := if me.state == Running then Ready else me.state)]
    {
      if current.state == Running {
        current.state := Ready;
      }
      current.rsp := rsp;
    }

    /** schedule() with the stack at rsp; the result is the stack it switches to, if it does. */
    method Reschedule(rsp: nat) returns (to: Option<nat>)
      requires Valid()
      modifies this, ring
      ensures Valid() && ring == old(ring) && current == old(current) && cur == old(cur)
      ensures old(current) != null ==> (View(), to) == Schedule(old(View()), rsp)
      ensures old(current) == null && ring == [] ==> to == None && View() == old(View())
      ensures old(current) == null && ring != [] ==>
                && var next := old(Values())[0];
                && to == Some(next.rsp) && rsp0 == next.kernelStack + KSTACK_SIZE && cr3 == next.cr3
                && Values() == old(Values())[0 := next.(state := Running, slice := DEFAULT_TIME_SLICE)]
    {
      if current == null {
        if head == null {
          return None;
        }
        Prepare(head, 0);
        return Some(head.rsp);
      }
      to := Resume(rsp);
    }

    /** schedule() with a current process. */
    method Resume(rsp: nat) returns (to: Option<nat>)
      requires Valid() && current != null
      modifies `rsp0, `cr3, ring
      ensures Valid() && (View(), to) == Schedule(old(View()), rsp)
    {
      hide SeekReady, Distance;
      if current.slice > 0 {
        SetSlice(current.slice - 1);
        return None;
      }
      var next, j := SelectReady();
      assert next == current <==> j == cur;
      if next == current {
        SetSlice(DEFAULT_TIME_SLICE);
        return None;
      }
      HandOver(next, j, rsp);
      to := Some(next.rsp);
    }

    /** The current process leaves the CPU to p at position k. */
    method HandOver(p: Process, ghost k: nat, rsp: nat)
      requires Valid() && current != null && k < |ring| && p == ring[k]
      modifies `rsp0, `cr3, p, current
      ensures Valid() && rsp0 == p.kernelStack + KSTACK_SIZE && cr3 == p.cr3
      ensures var vs := old(Values()); var me := vs[cur];
              var left := vs[cur := me.(rsp := rsp, state := if me.state == Running then Ready else me.state)];
              Values() == left[k := left[k].(state := Running, slice := DEFAULT_TIME_SLICE)]
    {
      Leave(rsp);
      Prepare(p, k);
    }

    /** Process p, at position k, takes the CPU. */
    method Dispatch(p: Process, ghost k: nat)
      requires Valid() && k < |ring| && p == ring[k]
      modifies this, p
      ensures Valid() && ring == old(ring) && current == p && cur == k
      ensures rsp0 == p.kernelStack + KSTACK_SIZE && cr3 == if p.cr3 != 0 then p.cr3 else old(cr3)
      ensures Values() == old(Values())[k := old(Values())[k].(state := Running, slice := DEFAULT_TIME_SLICE)]
    {
      p.state := Running;
      p.slice := DEFAULT_TIME_SLICE;
      rsp0 := p.kernelStack + KSTACK_SIZE;
      current := p;
      cur := k;
      if p.cr3 != 0 {
        cr3 := p.cr3;
      }
    }

    method SetSlice(slice: nat)
      requires Valid() && current != null
      modifies current
      ensures Valid() && Values() == old(Values())[cur := old(Values())[cur].(slice := slice)]
    {
      current.slice := slice;
    }

    /** The timer interrupt. */
    method TimerTick(rsp: nat) returns (r: nat)
      requires Valid()
      modifies this, ring
      ensures Valid() && ring == old(ring)
      ensures old(current) == null ==> r == rsp && current == null && View() == old(View())
      ensures old(current) != null ==> current != null && (View(), r) == Tick(old(View()), rsp)
    {
      hide Rotate;
      if current == null {
        return rsp;
      }
      SaveStack(rsp);
      if current.slice != 0 {
        return rsp;
      }
      r := EndSlice(rsp);
    }

    /** The timer interrupt when the slice is used up. */
    method EndSlice(rsp: nat) returns (r: nat)
      requires Valid() && current != null
      modifies this, ring
      ensures Valid() && ring == old(ring) && current != null && (View(), r) == Rotate(old(View()), rsp)
    {
      hide Seek, Distance;
      var next, j := SelectRunnable();
      assert next == current <==> j == cur;
      if next != current {
        StandDown();
        Dispatch(next, j);
        r := next.rsp;
      } else {
        SetSlice(DEFAULT_TIME_SLICE);
        r := rsp;
      }
    }

    method SaveStack(rsp: nat)
      requires Valid() && current != null
      modifies current
      ensures Valid()
      ensures var me := old(Values())[cur];
              Values() == old(Values())[cur := me.(rsp := rsp, slice := Decrement(me.slice))]
    {
      current.rsp := rsp;
      current.slice := if current.slice == 0 then TWO_64 - 1 else current.slice - 1;
    }
  }

  /** What the rest of the kernel does with the queue: it adds processes, and timer interrupts come in. */
  datatype Kick = Enqueue(p: Process?) | Interrupt(rsp: nat)

  ghost function Enqueued(kicks: seq<Kick>): set<Process> {
    set k | k in kicks && k.Enqueue? && k.p != null :: k.p
  }

  /** Only schedule() ever takes current_process from NULL. Without it, over every run of additions and timer
      interrupts from the start, there is no current process and each interrupt returns on the stack it came on. */
  method RunWithoutSchedule(kicks: seq<Kick>) returns (q: RunQueue, stacks: seq<nat>)
    modifies Enqueued(kicks)
    ensures q.Valid() && fresh(q) && q.current == null && |stacks| == |kicks|
    ensures forall i :: 0 <= i < |kicks| && kicks[i].Interrupt? ==> stacks[i] == kicks[i].rsp
  {
    q := new RunQueue();
    stacks := [];
    for i := 0 to |kicks|
      invariant q.Valid() && fresh(q) && q.current == null && |stacks| == i
      invariant forall p :: p in q.ring ==> p in Enqueued(kicks)
      invariant forall j :: 0 <= j < i && kicks[j].Interrupt? ==> stacks[j] == kicks[j].rsp
    {
      var r := 0;
      match kicks[i] {
        case Enqueue(p) =>
          assert kicks[i] in kicks;
          assert p != null ==> p in Enqueued(kicks);
          q.Add(p);
        case Interrupt(rsp) =>
          r := q.TimerTick(rsp);
      }
      stacks := stacks + [r];
    }
  }

  /** What identifies a process in the table. */
  datatype Row = Row(pid: nat, state: State, kernelStack: nat)

  function CountUsed(rows: seq<Row>): (c: nat)
    ensures c <= |rows|
  {
    if rows == [] then 0 else (if rows[0].state != Unused then 1 else 0) + CountUsed(rows[1..])
  }

  lemma {:induction false} CountNone(rows: seq<Row>)
    requires forall i :: 0 <= i < |rows| ==> rows[i].state == Unused
    ensures CountUsed(rows) == 0
  {
    if rows != [] {
      CountNone(rows[1..]);
    }
  }

  lemma {:induction false} CountUpdate(rows: seq<Row>, i: nat, r: Row)
    requires i < |rows| && r.state != Unused
    ensures CountUsed(rows[i := r]) == CountUsed(rows) + if rows[i].state == Unused then 1 else 0
    ensures rows[i].state == Unused ==> CountUsed(rows) < |rows|
  {
    if i > 0 {
      CountUpdate(rows[1..], i - 1, r);
      assert rows[i := r][1..] == rows[1..][i - 1 := r];
    }
  }

  /** Pids in use are distinct and below the next one, which counts the blocks in use, and every finished
      process has the kernel stack of its block. */
  ghost predicate Consistent(rows: seq<Row>, nextPid: nat, stacks: nat) {
    && |rows| == MAX_PROCESSES
    && nextPid == 1 + CountUsed(rows)
    && (forall i :: 0 <= i < |rows| && rows[i].state != Unused ==> 1 <= rows[i].pid < nextPid)
    && (forall i, j :: 0 <= i < j < |rows| && rows[i].state != Unused && rows[j].state != Unused ==> rows[i].pid != rows[j].pid)
    && (forall i :: 0 <= i < |rows| && rows[i].state != Unused && rows[i].state != Embryo ==>
          rows[i].kernelStack == stacks + i * KSTACK_SIZE)
  }

  lemma ClaimIsConsistent(rows: seq<Row>, nextPid: nat, stacks: nat, k: nat)
    requires Consistent(rows, nextPid, stacks) && k < |rows| && rows[k].state == Unused
    ensures nextPid + 1 < TWO_32
    ensures Consistent(rows[k := Row(nextPid, Embryo, rows[k].kernelStack)], nextPid + 1, stacks)
  {
    CountUpdate(rows, k, Row(nextPid, Embryo, rows[k].kernelStack));
  }

  lemma PrepareIsConsistent(rows: seq<Row>, nextPid: nat, stacks: nat, k: nat)
    requires Consistent(rows, nextPid, stacks) && k < |rows| && rows[k].state == Embryo
    ensures Consistent(rows[k := Row(rows[k].pid, Ready, stacks + k * KSTACK_SIZE)], nextPid, stacks)
  {
    CountUpdate(rows, k, Row(rows[k].pid, Ready, stacks + k * KSTACK_SIZE));
  }

  /** The process table: 64 control blocks, each with its own kernel stack. */
  class ProcessTable {
    const slots: seq<Process>
    const stacks: nat
    var nextPid: nat

    ghost predicate InUse(i: nat)
      requires i < |slots|
      reads slots
    {
      slots[i].state != Unused
    }

    ghost function Rows(): (rows: seq<Row>)
      reads slots
      ensures |rows| == |slots|
      ensures forall i :: 0 <= i < |slots| ==> rows[i] == Row(slots[i].pid, slots[i].state, slots[i].kernelStack)
    {
      seq(|slots|, i requires 0 <= i < |slots| reads slots => Row(slots[i].pid, slots[i].state, slots[i].kernelStack))
    }

    ghost predicate Valid()
      reads this, slots
    {
      && (forall i, j :: 0 <= i < j < |slots| ==> slots[i] != slots[j])
      && Consistent(Rows(), nextPid, stacks)
    }

    function StackOf(i: nat): nat { stacks + i * KSTACK_SIZE }

    constructor (slots: seq<Process>, stacks: nat)
      requires |slots| == MAX_PROCESSES && (forall i, j :: 0 <= i < j < |slots| ==> slots[i] != slots[j])
      requires forall i :: 0 <= i < |slots| ==> slots[i].state == Unused
      ensures Valid() && this.slots == slots && this.stacks == stacks && nextPid == 1
    {
      this.slots := slots;
      this.stacks := stacks;
      nextPid := 1;
      new;
      CountNone(Rows());
    }

    /** The first unused block, or MAX_PROCESSES. */
    method AllocPcb() returns (i: nat)
      requires Valid()
      ensures i <= MAX_PROCESSES && (forall j :: 0 <= j < i ==> InUse(j)) && (i < MAX_PROCESSES ==> !InUse(i))
    {
      i := 0;
      while i < MAX_PROCESSES
        invariant i <= MAX_PROCESSES && forall j :: 0 <= j < i ==> InUse(j)
      {
        if slots[i].state == Unused {
          return;
        }
        i := i + 1;
      }
    }

    /** The first half of proc_create: block k gets a pid and is no longer unused. */
    method Claim(k: nat, pml4: nat)
      requires Valid() && |slots| == MAX_PROCESSES && k < MAX_PROCESSES && !InUse(k)
      modifies this, slots[k]
      ensures Valid() && nextPid == old(nextPid) + 1
      ensures var p := slots[k]; p.state == Embryo && p.pid == old(nextPid) && p.next == null && p.slice == 0 && p.cr3 == pml4
    {
      hide Consistent;
      ClaimIsConsistent(Rows(), nextPid, stacks, k);
      var p := slots[k];
      p.pid := nextPid;
      nextPid := (nextPid + 1) % TWO_32;
      p.state := Embryo;
      p.next := null;
      p.slice := 0;
      p.cr3 := pml4;
      assert Rows() == old(Rows())[k := Row(old(nextPid), Embryo, p.kernelStack)];
    }

    /** The second half: entry point, kernel stack with the initial frame, and an empty heap. */
    method Prepare(k: nat, entry: nat)
      requires Valid() && |slots| == MAX_PROCESSES && k < MAX_PROCESSES && slots[k].state == Embryo
      modifies slots[k]
      ensures Valid() && nextPid == old(nextPid)
      ensures var p := slots[k];
              && p.state == Ready && p.pid == old(p.pid) && p.next == old(p.next) && p.slice == old(p.slice) && p.cr3 == old(p.cr3)
              && p.kernelStack == StackOf(k) && p.rsp == p.kernelStack + KSTACK_SIZE - 96
              && p.entry == entry && p.heapStart == p.brk == UserHeap.USER_HEAP_START
    {
      hide Consistent;
      PrepareIsConsistent(Rows(), nextPid, stacks, k);
      var p := slots[k];
      p.entry := entry;
      p.kernelStack := StackOf(k);
      p.heapStart := UserHeap.USER_HEAP_START;
      p.brk := p.heapStart;
      p.rsp := p.kernelStack + KSTACK_SIZE - 12 * 8;
      p.state := Ready;
      assert Rows() == old(Rows())[k := Row(p.pid, Ready, StackOf(k))];
    }

    /** proc_create. The new process gets the lowest free block, a pid no other process has, the kernel stack of
        its block with twelve words pushed on it, and an empty heap; no other process changes. */
    method Create(entry: nat, pml4: nat) returns (p: Process?, ghost i: nat)
      requires Valid()
      modifies this, slots
      ensures Valid()
      ensures i <= MAX_PROCESSES && (forall j :: 0 <= j < i ==> old(InUse(j)))
      ensures forall j :: 0 <= j < MAX_PROCESSES && j != i ==> unchanged(slots[j])
      ensures i == MAX_PROCESSES ==> p == null && nextPid == old(nextPid)
      ensures i < MAX_PROCESSES ==> !old(InUse(i)) && nextPid == old(nextPid) + 1 && (p == null <==> pml4 == 0)
      ensures p != null ==>
                && i < MAX_PROCESSES && p == slots[i] && p.state == Ready && p.pid == old(nextPid) && p.next == null
                && p.kernelStack == StackOf(i) && p.rsp == p.kernelStack + KSTACK_SIZE - 96 && p.slice == 0
                && p.entry == entry && p.cr3 == pml4 && p.heapStart == p.brk == UserHeap.USER_HEAP_START
    {
      var k := AllocPcb();
      i := k;
      assert forall j :: 0 <= j < MAX_PROCESSES ==> InUse(j) == old(InUse(j));
      if k == MAX_PROCESSES {
        return null, k;
      }
      Claim(k, pml4);
      if slots[k].cr3 == 0 {
        return null, k;
      }
      Prepare(k, entry);
      p := slots[k];
    }

    /** Created processes never share a pid or a byte of kernel stack. */
    lemma ProcessesAreSeparate(i: nat, j: nat)
      requires Valid() && i < MAX_PROCESSES && j < MAX_PROCESSES && i != j && InUse(i) && InUse(j)
      ensures slots[i].pid != slots[j].pid
      ensures slots[i].state != Embryo && slots[j].state != Embryo ==>
                var a, b := slots[i].kernelStack, slots[j].kernelStack; a + KSTACK_SIZE <= b || b + KSTACK_SIZE <= a
    {
      var rows := Rows();
      assert rows[i].pid != rows[j].pid;
    }
  }
}
