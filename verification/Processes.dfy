/** The intrusive ready queue of src/process.c on the heap, and the operations that use it. */
module Processes {
  import opened Bytes
  import opened Options
  import opened Scheduling

  class Process {
    var pid: nat
    var state: ProcState
    var entry: nat
    var esp: nat
    var userStackTop: nat
    var regs: Regs
    var savedEip: nat
    var next: Process?

    constructor (pid: nat, entry: nat)
      ensures Value() == NewTask(pid, entry) && next == null
    {
      this.pid, this.entry := pid, entry;
      state, esp, userStackTop, regs, savedEip, next := New, STACK_TOP, STACK_TOP, ZERO, 0, null;
    }

    /** Overwrite the interrupt frame so that it returns to this process (src/syscall.c:165-182). */
    method ResumeInto(r: TrapFrame)
      modifies r
      ensures r.Value() == Resume(Value(), old(r.Value()))
    {
      if regs.edi != 0 || regs.eax != 0 || regs.ebx != 0 || regs.ecx != 0 ||
         regs.edx != 0 || regs.ebp != 0 || regs.esi != 0 {
        r.regs := regs;
      } else {
        r.regs := Regs(0, 0, 0, r.regs.esp, 0, 0, 0, 0);
        if esp != 0 {
          r.regs := r.regs.(esp := esp);
        } else if userStackTop != 0 {
          r.regs := r.regs.(esp := userStackTop);
        }
      }
      r.eip := if savedEip != 0 then savedEip else entry;
      r.regs := r.regs.(eax := 0);
    }

    method SetState(st: ProcState)
      modifies `state
      ensures Value() == old(Value()).(state := st)
    {
      state := st;
    }

    /** The block without its link. */
    function Value(): Pcb
      reads `pid, `state, `entry, `esp, `userStackTop, `regs, `savedEip
    {
      Pcb(pid, state, entry, esp, userStackTop, regs, savedEip)
    }
  }

  /** The interrupt frame on the kernel stack, which SYS_YIELD overwrites. */
  class TrapFrame {
    var regs: Regs
    var eip: nat
    function Value(): Frame
      reads this
    {
      Frame(regs, eip)
    }

    method ClearEax()
      modifies this
      ensures Value() == old(Value()).(regs := old(Value()).regs.(eax := 0))
    {
      regs := regs.(eax := 0);
    }
  }

  ghost function Nodes(q: seq<Process>): set<Process> {
    set p | p in q
  }

  ghost predicate NoRepeats(q: seq<Process>) {
    forall i, j :: 0 <= i < j < |q| ==> q[i] != q[j]
  }

  /** Each node's link leads to the following node, the last one's to null. */
  ghost predicate Chained(q: seq<Process>)
    reads Nodes(q)`next
  {
    forall i {:trigger Following(q, i)} :: 0 <= i < |q| ==> q[i].next == Following(q, i)
  }

  ghost function Following(q: seq<Process>, i: nat): Process? {
    if i + 1 < |q| then q[i + 1] else null
  }

  ghost function Values(q: seq<Process>): (r: seq<Pcb>)
    reads Nodes(q)`pid, Nodes(q)`state, Nodes(q)`entry, Nodes(q)`esp, Nodes(q)`userStackTop
    reads Nodes(q)`regs, Nodes(q)`savedEip
    ensures |r| == |q| && forall i :: 0 <= i < |q| ==> r[i] == q[i].Value()
  {
    if q == [] then [] else Values(q[..|q| - 1]) + [q[|q| - 1].Value()]
  }

  class Scheduler {
    var curr: Process?
    var head: Process?
    var tail: Process?
    var nextPid: nat
    /** The processes in queue order. */
    ghost var queue: seq<Process>

    /** The links spell out the queue: acyclic, without repeats, from head to tail. */
    ghost predicate Valid()
      reads this, Nodes(queue)`next
    {
      && NoRepeats(queue)
      && Chained(queue)
      && head == (if queue == [] then null else queue[0])
      && tail == (if queue == [] then null else queue[|queue| - 1])
    }

    ghost function View(): (s: Sched)
      reads this, queue, curr
    {
      Sched(Values(queue), if curr == null then None else Some(curr.Value()), nextPid)
    }

    /** process_init */
    constructor ()
      ensures Valid() && queue == [] && View() == INITIAL
    {
      curr, head, tail, nextPid, queue := null, null, null, 1, [];
    }

    /** queue_push */
    method QueuePush(p: Process)
      requires Valid() && p !in queue
      modifies this`head, this`tail, this`queue, p`next, Nodes(queue)`next
      ensures Valid() && queue == old(queue) + [p]
    {
      p.next := null;
      if head == null {
        head := p;
        tail := p;
      } else {
        tail.next := p;
        tail := p;
      }
      queue := queue + [p];
      forall i | 0 <= i < |queue|
        ensures queue[i].next == Following(queue, i)
      {
        if i < |queue| - 1 {
          assert queue[i] == old(queue)[i];
          var _ := Following(old(queue), i);
        }
      }
    }

    /** queue_pop */
    method QueuePop() returns (p: Process?)
      requires Valid()
      modifies this`head, this`tail, this`queue, Nodes(queue)`next
      ensures Valid()
      ensures if old(queue) == [] then p == null && queue == []
              else p == old(queue)[0] && queue == old(queue)[1..]
    {
      p := head;
      if p == null {
        return;
      }
      assert p.next == Following(queue, 0);
      head := p.next;
      if head == null {
        tail := null;
      }
      p.next := null;
      queue := queue[1..];
      forall i | 0 <= i < |queue|
        ensures queue[i].next == Following(queue, i)
      {
        assert queue[i] == old(queue)[i + 1] && queue[i] != p;
        assert Following(queue, i) == Following(old(queue), i + 1);
      }
    }

    /** proc_enqueue */
    method ProcEnqueue(p: Process)
      requires Valid() && p !in queue
      modifies this`head, this`tail, this`queue, p`next, p`state, Nodes(queue)`next
      ensures Valid() && queue == old(queue) + [p]
      ensures p.Value() == old(p.Value()).(state := Ready)
      ensures View().queue == Enqueue(old(View()), old(p.Value())).queue
      ensures p != curr ==> View() == Enqueue(old(View()), old(p.Value()))
    {
      hide Values, Process.Value, Chained;
      p.SetState(Ready);
      QueuePush(p);
      assert forall i :: 0 <= i < |queue| - 1 ==> queue[i] == old(queue)[i] && queue[i] != p;
      assert View().queue == Enqueue(old(View()), old(p.Value())).queue;
    }

    /** proc_dequeue */
    method ProcDequeue() returns (p: Process?)
      requires Valid()
      modifies this`head, this`tail, this`queue, this`curr, Nodes(queue)`next, Nodes(queue)`state
      ensures Valid()
      ensures if old(queue) == [] then p == null && queue == [] && curr == old(curr)
              else p == curr == old(queue)[0] && queue == old(queue)[1..]
      ensures View() == Dequeue(old(View()))
      ensures old(curr) !in old(queue) ==> curr !in queue
    {
      hide Values, Process.Value;
      p := QueuePop();
      if p == null {
        return;
      }
      p.SetState(Running);
      curr := p;
      forall i | 0 <= i < |queue|
        ensures queue[i].Value() == old(View()).queue[i + 1]
      {
        assert queue[i] == old(queue)[i + 1] && queue[i] != p;
      }
      assert View().queue == old(View()).queue[1..];
    }

    /** Putting the current process back and taking the first one. */
    method Rotate()
      requires Valid() && curr != null && curr !in queue
      modifies this`head, this`tail, this`queue, this`curr, curr`next, curr`state, Nodes(queue)`next, Nodes(queue)`state
      ensures Valid() && curr != null && curr !in queue
      ensures [curr] + queue == old(queue) + [old(curr)]
      ensures View() == Dequeue(Enqueue(old(View()), old(curr.Value())))
    {
      hide Values, Process.Value, Chained;
      ProcEnqueue(curr);
      var next := ProcDequeue();
    }

    /** proc_yield */
    method ProcYield()
      requires Valid() && curr !in queue
      modifies this`head, this`tail, this`queue, this`curr, (if curr == null then {} else {curr})`next,
               (if curr == null then {} else {curr})`state, Nodes(queue)`next, Nodes(queue)`state
      ensures Valid() && curr !in queue && View() == Scheduling.ProcYield(old(View()))
    {
      if curr == null {
        return;
      }
      Rotate();
    }

    /** schedule, up to the jump: the stack and the entry point it jumps to, if it jumps. */
    method Schedule() returns (jump: Option<(nat, nat)>)
      requires Valid() && curr !in queue
      modifies this`head, this`tail, this`queue, this`curr, (if curr == null then {} else {curr})`next,
               (if curr == null then {} else {curr})`state, Nodes(queue)`next, Nodes(queue)`state
      ensures Valid() && curr !in queue && View() == Scheduling.Schedule(old(View()))
      ensures jump == if old(queue) == [] && (old(curr) == null || old(curr.state) != Running) then None
                      else Some(JumpTarget(View().curr.value))
    {
      var next: Process?;
      if curr != null && curr.state == Running {
        Rotate();
        next := curr;
      } else {
        next := ProcDequeue();
      }
      if next == null {
        return None;
      }
      jump := Some(JumpTarget(next.Value()));
    }

    /** SYS_YIELD */
    method SysYield(r: TrapFrame)
      requires Valid() && curr !in queue
      modifies this`head, this`tail, this`queue, this`curr, r,
               (if curr == null then {} else {curr}), Nodes(queue)`next, Nodes(queue)`state
      ensures Valid() && curr !in queue
      ensures (View(), r.Value()) == Scheduling.SysYield(old(View()), old(r.Value()))
    {
      hide Values, Process.Value, TrapFrame.Value, Save, Resume;
      var next := SaveAndSwitch(r);
      if next == null {
        r.ClearEax();
        return;
      }
      next.ResumeInto(r);
    }

    /** The queue part of SYS_YIELD (src/syscall.c:140-154). */
    method SaveAndSwitch(r: TrapFrame) returns (next: Process?)
      requires Valid() && curr !in queue
      modifies this`head, this`tail, this`queue, this`curr,
               (if curr == null then {} else {curr}), Nodes(queue)`next, Nodes(queue)`state
      ensures Valid() && curr !in queue && (next != null ==> next == curr)
      ensures next == null <==> old(curr) == null && old(queue) == []
      ensures View() == Scheduling.SysYield(old(View()), r.Value()).0
    {
      hide Values, Process.Value, TrapFrame.Value, Save, Resume;
      if curr != null {
        SaveFrame(r);
        Rotate();
        next := curr;
      } else {
        next := ProcDequeue();
      }
    }

    /** Save the interrupt frame in the outgoing process (src/syscall.c:146-150). */
    method SaveFrame(r: TrapFrame)
      requires Valid() && curr != null && curr !in queue
      modifies curr`regs, curr`esp, curr`savedEip
      ensures Valid()
      ensures View() == old(View()).(curr := Some(Save(old(curr.Value()), r.Value())))
    {
      hide Values, Chained;
      curr.regs := r.regs;
      curr.esp := r.regs.esp;
      curr.savedEip := r.eip;
      assert View().queue == old(View()).queue;
    }

    /** The end of task_create_from_elf (src/process.c:119-138). */
    method CreateTask(entry: nat) returns (pid: nat)
      requires Valid() && curr !in queue
      modifies this`head, this`tail, this`queue, this`nextPid, Nodes(queue)`next
      ensures Valid() && curr !in queue
      ensures View() == Create(old(View()), entry) && pid == old(nextPid)
    {
      hide Values, Chained;
      var p := new Process(nextPid, entry);
      pid := nextPid;
      nextPid := Wrap32(nextPid + 1);
      assert View().queue == old(View()).queue;
      ProcEnqueue(p);
    }

    /** get_proc_by_pid: the queue first, then the current process. */
    method GetProcByPid(pid: nat) returns (p: Process?)
      requires Valid()
      ensures p != null ==> p.pid == pid && (p in queue || p == curr)
      ensures p == null ==> (forall q :: q in queue ==> q.pid != pid) && (curr != null ==> curr.pid != pid)
      ensures Ok(View()) && p != null ==> forall q: Process :: (q in queue || q == curr) && q.pid == pid ==> q == p
    {
      p := head;
      ghost var i: nat := 0;
      while p != null
        invariant i <= |queue| && p == (if i < |queue| then queue[i] else null)
        invariant forall j :: 0 <= j < i ==> queue[j].pid != pid
        decreases |queue| - i
      {
        if p.pid == pid {
          UniqueInQueue(i);
          return;
        }
        assert p.next == Following(queue, i);
        p := p.next;
        i := i + 1;
      }
      if curr != null && curr.pid == pid {
        return curr;
      }
    }

    lemma PidsInView()
      ensures forall j :: 0 <= j < |queue| ==> View().queue[j].pid == queue[j].pid
      ensures curr != null ==> View().curr.value.pid == curr.pid
    {
      hide Values;
    }

    /** With PIDs in order, no second process carries the PID of a queued one. */
    lemma UniqueInQueue(i: nat)
      requires i < |queue|
      ensures Ok(View()) ==> forall q: Process :: (q in queue || q == curr) && q.pid == queue[i].pid ==> q == queue[i]
    {
      hide Values, Process.Value, Ok;
      PidsInView();
      if Ok(View()) {
        PidsDiffer(View(), i);
      }
    }
  }

  lemma PidsDiffer(s: Sched, i: nat)
    requires Ok(s) && i < |s.queue|
    ensures forall j :: 0 <= j < |s.queue| && j != i ==> s.queue[j].pid != s.queue[i].pid
    ensures s.curr.Some? ==> s.curr.value.pid != s.queue[i].pid
  {
    var all := Everyone(s);
    if s.curr.Some? {
      assert all[0] == s.curr.value && all[1 + i] == s.queue[i];
      forall j | 0 <= j < |s.queue| && j != i
        ensures s.queue[j].pid != s.queue[i].pid
      {
        assert all[1 + j] == s.queue[j];
      }
    } else {
      assert all == s.queue;
    }
  }
}
