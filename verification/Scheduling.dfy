/** The ready queue and the cooperative yield of src/process.c, src/scheduler.c and SYS_YIELD, as
    functions on values, and what whole runs of them guarantee. */
module Scheduling {
  import opened Bytes
  import opened Options

  /** The pusha frame (include/regs.h). */
  datatype Regs = Regs(edi: nat, esi: nat, ebp: nat, esp: nat, ebx: nat, edx: nat, ecx: nat, eax: nat)

  const ZERO: Regs := Regs(0, 0, 0, 0, 0, 0, 0, 0)

  /** What the interrupt stub pushed: the registers and the return address above them. */
  datatype Frame = Frame(regs: Regs, eip: nat)

  datatype ProcState = New | Ready | Running | Blocked | Exited

  datatype Pcb = Pcb(pid: nat, state: ProcState, entry: nat, esp: nat, userStackTop: nat, regs: Regs, savedEip: nat)

  datatype Sched = Sched(queue: seq<Pcb>, curr: Option<Pcb>, nextPid: nat)

  const SYS_YIELD: nat := 5
  const STACK_TOP: nat := 0x8000_0FFC

  // ----- Operations -----

  /** proc_enqueue */
  function Enqueue(s: Sched, p: Pcb): Sched {
    s.(queue := s.queue + [p.(state := Ready)])
  }

  /** proc_dequeue; with an empty queue nothing happens. */
  function Dequeue(s: Sched): Sched {
    if s.queue == [] then s else s.(queue := s.queue[1..], curr := Some(s.queue[0].(state := Running)))
  }

  /** proc_yield */
  function ProcYield(s: Sched): Sched {
    if s.curr.None? then s else Dequeue(Enqueue(s, s.curr.value))
  }

  /** The queue part of schedule: only a running process goes back into the queue. */
  function Schedule(s: Sched): Sched {
    if s.curr.Some? && s.curr.value.state == Running then Dequeue(Enqueue(s, s.curr.value)) else Dequeue(s)
  }

  /** The stack and the entry point schedule passes to jump_to_usermode. */
  function JumpTarget(p: Pcb): (nat, nat) {
    var stack: nat := if p.userStackTop != 0 then p.userStackTop else p.esp;
    (stack, p.entry)
  }

  /** The outgoing process with the frame saved in it. */
  function Save(p: Pcb, f: Frame): Pcb {
    p.(regs := f.regs, esp := f.regs.esp, savedEip := f.eip)
  }

  /** SYS_YIELD takes a process for one that ran before when a register other than esp is not zero. */
  predicate LooksSaved(r: Regs) {
    r.edi != 0 || r.eax != 0 || r.ebx != 0 || r.ecx != 0 || r.edx != 0 || r.ebp != 0 || r.esi != 0
  }

  /** The frame that resumes a process, written over the frame of the interrupt. */
  function Resume(p: Pcb, f: Frame): Frame {
    var regs :=
      if LooksSaved(p.regs) then p.regs
      else ZERO.(esp := if p.esp != 0 then p.esp else if p.userStackTop != 0 then p.userStackTop else f.regs.esp);
    Frame(regs.(eax := 0), if p.savedEip != 0 then p.savedEip else p.entry)
  }

  /** SYS_YIELD: the scheduler and the interrupt frame afterwards. */
  function SysYield(s: Sched, f: Frame): (Sched, Frame) {
    var s1 := if s.curr.Some? then Enqueue(s, Save(s.curr.value, f)) else s;
    var s2 := Dequeue(s1);
    if s1.queue == [] then (s2, f.(regs := f.regs.(eax := 0)))
    else (s2, Resume(s2.curr.value, f))
  }

  function NewTask(pid: nat, entry: nat): Pcb {
    Pcb(pid, New, entry, STACK_TOP, STACK_TOP, ZERO, 0)
  }

  /** The end of task_create_from_elf: a zeroed block gets the next PID and joins the queue. */
  function Create(s: Sched, entry: nat): Sched {
    Enqueue(s.(nextPid := Wrap32(s.nextPid + 1)), NewTask(s.nextPid, entry))
  }

  // ----- States and PIDs -----

  /** The current process, if any, and then the queue. */
  function Everyone(s: Sched): seq<Pcb> {
    (if s.curr.Some? then [s.curr.value] else []) + s.queue
  }

  predicate DistinctPids(ps: seq<Pcb>) {
    forall i, j :: 0 <= i < j < |ps| ==> ps[i].pid != ps[j].pid
  }

  /** Queued processes are ready, the current one is running, PIDs are distinct and below next_pid. */
  predicate Ok(s: Sched) {
    && (forall i :: 0 <= i < |s.queue| ==> s.queue[i].state == Ready)
    && (s.curr.Some? ==> s.curr.value.state == Running)
    && DistinctPids(Everyone(s))
    && (forall i :: 0 <= i < |Everyone(s)| ==> Everyone(s)[i].pid < s.nextPid)
  }

  /** Dequeued is the bare proc_dequeue of the spawn command (src/keyboard.c:391): it makes the first
      process current and drops the one that was. */
  datatype Event = Created(entry: nat) | Yielded(frame: Frame) | KernelYield | Scheduled | Dequeued

  function Step(s: Sched, e: Event): Sched {
    match e
    case Created(entry) => Create(s, entry)
    case Yielded(frame) => SysYield(s, frame).0
    case KernelYield => ProcYield(s)
    case Scheduled => Schedule(s)
    case Dequeued => Dequeue(s)
  }

  /** PIDs do not wrap within the run. */
  predicate NoWrap(s: Sched, e: Event) {
    e.Created? ==> s.nextPid + 1 < 0x1_0000_0000
  }

  lemma EnqueueEveryone(s: Sched, p: Pcb)
    ensures Everyone(Enqueue(s, p)) == Everyone(s) + [p.(state := Ready)]
  {
  }

  /** A rotation moves the first of everyone to the end. */
  lemma RotateEveryone(s: Sched, p: Pcb)
    requires s.curr.Some? && p.pid == s.curr.value.pid
    ensures var s' := Dequeue(Enqueue(s, p));
            && s'.curr.Some?
            && |Everyone(s')| == |Everyone(s)|
            && (forall i :: 0 <= i < |Everyone(s)| - 1 ==> Everyone(s')[i].pid == Everyone(s)[i + 1].pid)
            && Everyone(s')[|Everyone(s)| - 1].pid == Everyone(s)[0].pid
  {
    var q := s.queue + [p.(state := Ready)];
    assert Everyone(Dequeue(Enqueue(s, p))) == [q[0].(state := Running)] + q[1..];
  }

  lemma RotationKeepsOk(s: Sched, p: Pcb)
    requires Ok(s) && s.curr.Some? && p.pid == s.curr.value.pid
    ensures Ok(Dequeue(Enqueue(s, p)))
  {
    RotateEveryone(s, p);
    var s' := Dequeue(Enqueue(s, p));
    var a, b := Everyone(s), Everyone(s');
    var n := |a|;
    forall i, j | 0 <= i < j < n
      ensures b[i].pid != b[j].pid
    {
      assert b[i].pid == a[i + 1].pid;
      assert j < n - 1 ==> b[j].pid == a[j + 1].pid;
    }
    forall i | 0 <= i < n
      ensures b[i].pid < s'.nextPid
    {
      assert i < n - 1 ==> b[i].pid == a[i + 1].pid;
    }
  }

  /** Every event keeps states and PIDs in order. */
  lemma StepKeepsOk(s: Sched, e: Event)
    requires Ok(s) && NoWrap(s, e)
    ensures Ok(Step(s, e))
  {
    match e
    case Created(entry) =>
      EnqueueEveryone(s.(nextPid := s.nextPid + 1), NewTask(s.nextPid, entry));
    case Yielded(frame) =>
      if s.curr.Some? {
        RotationKeepsOk(s, Save(s.curr.value, frame));
      } else {
        DequeueKeepsOk(s);
      }
    case KernelYield =>
      if s.curr.Some? {
        RotationKeepsOk(s, s.curr.value);
      }
    case Scheduled =>
      if s.curr.Some? {
        RotationKeepsOk(s, s.curr.value);
      } else {
        DequeueKeepsOk(s);
      }
    case Dequeued =>
      DequeueKeepsOk(s);
  }

  /** What a dequeue leaves: the queue, its first process now running. */
  lemma DequeueEveryone(s: Sched)
    requires s.queue != []
    ensures Everyone(Dequeue(s)) == [s.queue[0].(state := Running)] + s.queue[1..]
    ensures var skip := |Everyone(s)| - |s.queue|;
            skip >= 0 && forall i :: 0 <= i < |s.queue| ==> Everyone(s)[skip + i] == s.queue[i]
  {
    var current := if s.curr.Some? then [s.curr.value] else [];
    AfterPrefix(current, s.queue);
  }

  lemma AfterPrefix(a: seq<Pcb>, b: seq<Pcb>)
    ensures forall i :: 0 <= i < |b| ==> (a + b)[|a| + i] == b[i]
  {
  }

  lemma DequeueKeepsOk(s: Sched)
    requires Ok(s)
    ensures Ok(Dequeue(s))
  {
    hide Everyone;
    if s.queue != [] {
      DequeueEveryone(s);
      var a, b, skip := Everyone(s), Everyone(Dequeue(s)), |Everyone(s)| - |s.queue|;
      assert forall i :: 0 <= i < |b| ==> b[i].pid == a[skip + i].pid;
    }
  }

  /** With no current process proc_yield does nothing. schedule then takes the first of the queue, if there
      is one, and so it does when the current process is not running: that one is not queued again. */
  lemma WithoutRunning(s: Sched)
    ensures s.curr.None? ==> ProcYield(s) == s
    ensures s.curr.None? || s.curr.value.state != Running ==>
              && (s.queue == [] ==> Schedule(s) == s)
              && (s.queue != [] ==>
                    && Schedule(s).curr == Some(s.queue[0].(state := Running))
                    && Schedule(s).queue == s.queue[1..] && Schedule(s).nextPid == s.nextPid)
  {
  }

  function Creations(entries: seq<nat>): (es: seq<Event>)
    ensures |es| == |entries| && forall i :: 0 <= i < |es| ==> es[i] == Created(entries[i])
  {
    seq(|entries|, i requires 0 <= i < |entries| => Created(entries[i]))
  }

  /** PIDs count up from 1: the processes created first wait in this order, as new ones that are ready. */
  lemma {:induction false} PidsCountUp(entries: seq<nat>, i: nat)
    requires i < |entries| < 0xFFFF_FFFF
    ensures var s := Run(INITIAL, Creations(entries));
            && s.curr == None && s.nextPid == |entries| + 1 && |s.queue| == |entries|
            && s.queue[i] == NewTask(i + 1, entries[i]).(state := Ready)
  {
    CreateMany(INITIAL, entries);
  }

  lemma {:induction false} CreateMany(s: Sched, entries: seq<nat>)
    requires s.nextPid + |entries| < 0x1_0000_0000
    ensures var s' := Run(s, Creations(entries));
            && s'.curr == s.curr && s'.nextPid == s.nextPid + |entries|
            && |s'.queue| == |s.queue| + |entries|
            && (forall i :: 0 <= i < |s.queue| ==> s'.queue[i] == s.queue[i])
            && forall i :: 0 <= i < |entries| ==>
                 s'.queue[|s.queue| + i] == NewTask(s.nextPid + i, entries[i]).(state := Ready)
    decreases |entries|
  {
    hide NewTask;
    if entries != [] {
      var s1 := Step(s, Created(entries[0]));
      assert Creations(entries)[1..] == Creations(entries[1..]);
      CreateMany(s1, entries[1..]);
      var s' := Run(s1, Creations(entries[1..]));
      assert s' == Run(s, Creations(entries));
      forall i | 0 <= i < |entries|
        ensures s'.queue[|s.queue| + i] == NewTask(s.nextPid + i, entries[i]).(state := Ready)
      {
        if i > 0 {
          assert entries[i] == entries[1..][i - 1] && |s.queue| + i == |s1.queue| + (i - 1);
        } else {
          assert s'.queue[|s.queue|] == s1.queue[|s.queue|];
        }
      }
    }
  }

  predicate RunOk(s: Sched, es: seq<Event>)
    decreases |es|
  {
    es == [] || (NoWrap(s, es[0]) && RunOk(Step(s, es[0]), es[1..]))
  }

  function Run(s: Sched, es: seq<Event>): Sched
    decreases |es|
  {
    if es == [] then s else Run(Step(s, es[0]), es[1..])
  }

  const INITIAL: Sched := Sched([], None, 1)

  /** In every reachable state, so that a PID names one process. */
  lemma {:induction false} RunKeepsOk(s: Sched, es: seq<Event>)
    requires Ok(s) && RunOk(s, es)
    ensures Ok(Run(s, es))
    decreases |es|
  {
    if es != [] {
      StepKeepsOk(s, es[0]);
      RunKeepsOk(Step(s, es[0]), es[1..]);
    }
  }

  // ----- Waiting -----

  datatype QueueOp = Enq(p: Pcb) | Deq

  function Apply(s: Sched, op: QueueOp): Sched {
    match op
    case Enq(p) => Enqueue(s, p)
    case Deq => Dequeue(s)
  }

  function ApplyAll(s: Sched, ops: seq<QueueOp>): Sched
    decreases |ops|
  {
    if ops == [] then s else Apply(ApplyAll(s, ops[..|ops| - 1]), ops[|ops| - 1])
  }

  function Dequeues(ops: seq<QueueOp>): nat
    decreases |ops|
  {
    if ops == [] then 0 else Dequeues(ops[..|ops| - 1]) + (if ops[|ops| - 1].Deq? then 1 else 0)
  }

  /** A process at position i still waits, i - d places from the front, after d <= i dequeues. */
  lemma {:induction false} StillWaiting(s: Sched, ops: seq<QueueOp>, i: nat)
    requires i < |s.queue| && Dequeues(ops) <= i
    ensures var q := ApplyAll(s, ops).queue;
            i - Dequeues(ops) < |q| && q[i - Dequeues(ops)] == s.queue[i]
    decreases |ops|
  {
    if ops != [] {
      StillWaiting(s, ops[..|ops| - 1], i);
    }
  }

  /** It becomes current with dequeue number i + 1, whatever was enqueued in between. */
  lemma BecomesCurrent(s: Sched, ops: seq<QueueOp>, i: nat)
    requires i < |s.queue| && Dequeues(ops) == i
    ensures ApplyAll(s, ops + [Deq]).curr == Some(s.queue[i].(state := Running))
  {
    StillWaiting(s, ops, i);
    assert (ops + [Deq])[..|ops|] == ops;
  }

  /** The order in which processes run next, by PID. */
  function Ring(s: Sched): (r: seq<nat>)
    ensures |r| == |Everyone(s)|
    ensures forall i :: 0 <= i < |r| ==> r[i] == Everyone(s)[i].pid
  {
    seq(|Everyone(s)|, i requires 0 <= i < |Everyone(s)| => Everyone(s)[i].pid)
  }

  function RotateLeft(r: seq<nat>, k: nat): seq<nat>
    requires k <= |r|
  {
    r[k..] + r[..k]
  }

  predicate IsYield(e: Event) {
    e.Yielded? || e.KernelYield? || e.Scheduled?
  }

  /** With a running current process, SYS_YIELD, proc_yield and schedule all are one rotation. */
  lemma YieldIsRotation(s: Sched, e: Event)
    requires s.curr.Some? && s.curr.value.state == Running && IsYield(e)
    ensures Ring(Step(s, e)) == RotateLeft(Ring(s), 1)
    ensures Step(s, e).curr.Some? && Step(s, e).curr.value.state == Running
  {
    var p := if e.Yielded? then Save(s.curr.value, e.frame) else s.curr.value;
    RotateEveryone(s, p);
    var a, b := Everyone(s), Everyone(Step(s, e));
    assert Step(s, e) == Dequeue(Enqueue(s, p));
    assert forall i :: 0 <= i < |a| - 1 ==> b[i].pid == a[i + 1].pid;
  }

  predicate OnlyYields(es: seq<Event>) {
    forall i :: 0 <= i < |es| ==> IsYield(es[i])
  }

  lemma NextModulo(k: nat, n: nat)
    requires n > 0
    ensures (k + 1) % n == if k % n + 1 == n then 0 else k % n + 1
  {
    var q, r := k / n, k % n;
    if r + 1 == n {
      ModuloIs(k + 1, n, q + 1, 0);
    } else {
      ModuloIs(k + 1, n, q, r + 1);
    }
  }

  lemma ModuloIs(k: nat, n: nat, q: nat, r: nat)
    requires k == q * n + r && r < n
    ensures k % n == r
  {
    var d := q - k / n;
    assert d * n == k % n - r;
    Multiples(d, n);
  }

  lemma Multiples(d: int, n: nat)
    ensures d >= 1 ==> d * n >= n
    ensures d <= -1 ==> d * n + n <= 0
  {
  }

  lemma RotateOnceMore(r: seq<nat>, k: nat)
    requires r != []
    ensures RotateLeft(RotateLeft(r, 1), k % |r|) == RotateLeft(r, (k + 1) % |r|)
  {
    NextModulo(k, |r|);
  }

  /** After k yields, of whatever kind, the ring is rotated by k: with n processes the current one is
      number k modulo n, so any n consecutive yields run each of them once. */
  lemma {:induction false} RoundRobin(s: Sched, es: seq<Event>)
    requires s.curr.Some? && s.curr.value.state == Running && OnlyYields(es)
    ensures Ring(Run(s, es)) == RotateLeft(Ring(s), |es| % |Ring(s)|)
    ensures Run(s, es).curr.Some? && Run(s, es).curr.value.pid == Ring(s)[|es| % |Ring(s)|]
    decreases |es|
  {
    hide Step, Ring;
    RingStartsAtCurrent(s);
    if es == [] {
      NoRotation(Ring(s));
    } else {
      YieldIsRotation(s, es[0]);
      RoundRobin(Step(s, es[0]), es[1..]);
      RotateOnceMore(Ring(s), |es| - 1);
    }
    RingStartsAtCurrent(Run(s, es));
  }

  lemma NoRotation(r: seq<nat>)
    requires r != []
    ensures RotateLeft(r, 0 % |r|) == r
  {
  }

  lemma RingStartsAtCurrent(s: Sched)
    requires s.curr.Some?
    ensures |Ring(s)| > 0 && Ring(s)[0] == s.curr.value.pid
  {
  }

  /** The processes that run in n consecutive yields are all of them: the PIDs seen are the ring. */
  lemma EveryoneRunsOnce(s: Sched, es: seq<Event>, i: nat)
    requires s.curr.Some? && s.curr.value.state == Running && OnlyYields(es)
    requires |es| == |Ring(s)| && i < |es|
    ensures Run(s, es[..i]).curr.Some? && Run(s, es[..i]).curr.value.pid == Ring(s)[i]
    ensures Run(s, es).curr.Some? && Run(s, es).curr.value.pid == s.curr.value.pid
  {
    RoundRobin(s, es[..i]);
    RoundRobin(s, es);
    RingStartsAtCurrent(s);
    ModuloIs(i, |es|, 0, i);
    ModuloIs(|es|, |es|, 1, 0);
  }

  // ----- Contexts -----

  /** A run with the history of yields: the last frame each PID yielded with. */
  datatype Traced = Traced(s: Sched, last: map<nat, Frame>)

  /** A frame with which user code enters SYS_YIELD: the number is in eax, and it will return. */
  predicate YieldFrame(f: Frame) {
    f.regs.eax == SYS_YIELD && f.eip != 0
  }

  predicate EventOk(t: Traced, e: Event) {
    NoWrap(t.s, e) && (e.Yielded? ==> YieldFrame(e.frame))
  }

  function TraceStep(t: Traced, e: Event): Traced {
    Traced(Step(t.s, e), if e.Yielded? && t.s.curr.Some? then t.last[t.s.curr.value.pid := e.frame] else t.last)
  }

  /** A process carries the frame of its own latest SYS_YIELD, or nothing at all. */
  predicate CarriesContext(p: Pcb, last: map<nat, Frame>) {
    && p.userStackTop == STACK_TOP
    && if p.pid in last then
         YieldFrame(last[p.pid]) && p.regs == last[p.pid].regs && p.savedEip == last[p.pid].eip
       else
         p.regs == ZERO && p.savedEip == 0 && p.esp == STACK_TOP
  }

  ghost predicate Consistent(t: Traced) {
    && Ok(t.s)
    && (forall i :: 0 <= i < |Everyone(t.s)| ==> CarriesContext(Everyone(t.s)[i], t.last))
    && (forall pid :: pid in t.last ==> pid < t.s.nextPid)
  }

  /** After a rotation the carried contexts are those of before, and the saved one. */
  lemma RotationCarries(s: Sched, p: Pcb, last: map<nat, Frame>, last': map<nat, Frame>)
    requires Ok(s) && s.curr.Some? && p.pid == s.curr.value.pid
    requires CarriesContext(p, last')
    requires forall pid :: pid != p.pid ==> (pid in last' <==> pid in last) && (pid in last ==> last'[pid] == last[pid])
    requires forall i :: 0 <= i < |Everyone(s)| ==> CarriesContext(Everyone(s)[i], last)
    ensures var s' := Dequeue(Enqueue(s, p));
            forall i :: 0 <= i < |Everyone(s')| ==> CarriesContext(Everyone(s')[i], last')
  {
    var q := s.queue + [p.(state := Ready)];
    assert Everyone(Dequeue(Enqueue(s, p))) == [q[0].(state := Running)] + q[1..];
    forall i | 0 <= i < |q|
      ensures CarriesContext(q[i], last')
    {
      if i < |s.queue| {
        assert Everyone(s)[0] == s.curr.value && Everyone(s)[i + 1] == s.queue[i];
      }
    }
  }

  lemma TraceStepConsistent(t: Traced, e: Event)
    requires Consistent(t) && EventOk(t, e)
    ensures Consistent(TraceStep(t, e))
  {
    StepKeepsOk(t.s, e);
    var t' := TraceStep(t, e);
    if e.Created? {
      EnqueueEveryone(t.s.(nextPid := t.s.nextPid + 1), NewTask(t.s.nextPid, e.entry));
    } else if t.s.curr.Some? && !e.Dequeued? {
      assert Everyone(t.s)[0] == t.s.curr.value;
      var p := if e.Yielded? then Save(t.s.curr.value, e.frame) else t.s.curr.value;
      RotationCarries(t.s, p, t.last, t'.last);
    } else {
      DequeueCarries(t.s, t.last);
    }
  }

  lemma DequeueCarries(s: Sched, last: map<nat, Frame>)
    requires forall i :: 0 <= i < |Everyone(s)| ==> CarriesContext(Everyone(s)[i], last)
    ensures forall i :: 0 <= i < |Everyone(Dequeue(s))| ==> CarriesContext(Everyone(Dequeue(s))[i], last)
  {
    hide Everyone;
    if s.queue != [] {
      DequeueEveryone(s);
      var skip := |Everyone(s)| - |s.queue|;
      forall i | 0 <= i < |s.queue|
        ensures CarriesContext(Everyone(Dequeue(s))[i], last)
      {
        assert CarriesContext(Everyone(s)[skip + i], last);
      }
    }
  }

  predicate TraceOk(t: Traced, es: seq<Event>)
    decreases |es|
  {
    es == [] || (EventOk(t, es[0]) && TraceOk(TraceStep(t, es[0]), es[1..]))
  }

  function Trace(t: Traced, es: seq<Event>): Traced
    decreases |es|
  {
    if es == [] then t else Trace(TraceStep(t, es[0]), es[1..])
  }

  lemma {:induction false} TraceConsistent(t: Traced, es: seq<Event>)
    requires Consistent(t) && TraceOk(t, es)
    ensures Consistent(Trace(t, es))
    decreases |es|
  {
    hide TraceStep, EventOk, Consistent;
    if es != [] {
      TraceStepConsistent(t, es[0]);
      TraceConsistent(TraceStep(t, es[0]), es[1..]);
    }
  }

  /** What SYS_YIELD returns to: the process's own latest yield, or a fresh start. */
  function Expected(p: Pcb, last: map<nat, Frame>): Frame {
    if p.pid in last then Frame(last[p.pid].regs.(eax := 0), last[p.pid].eip)
    else Frame(ZERO.(esp := STACK_TOP), p.entry)
  }

  /** Context preservation, after every interleaving of task creations, yields, schedules and spawns: a process
      that SYS_YIELD resumes gets back all registers and the return address of its own latest
      SYS_YIELD, with 0 in eax; one that never yielded starts at its entry point with zero registers
      and its stack. The register test that tells the two apart is exact, because eax holds 5 in a
      saved frame. */
  lemma YieldRestoresContext(es: seq<Event>, frame: Frame)
    requires TraceOk(Traced(INITIAL, map[]), es) && YieldFrame(frame)
    ensures var t := Trace(Traced(INITIAL, map[]), es);
            var last := TraceStep(t, Yielded(frame)).last;
            var (s', f') := SysYield(t.s, frame);
            && f'.regs.eax == 0
            && (Everyone(t.s) == [] ==> s' == t.s && f'.eip == frame.eip && f'.regs == frame.regs.(eax := 0))
            && (Everyone(t.s) != [] ==>
                  && s'.curr.Some?
                  && (LooksSaved(s'.curr.value.regs) <==> s'.curr.value.pid in last)
                  && f' == Expected(s'.curr.value, last))
  {
    var t0 := Traced(INITIAL, map[]);
    TraceConsistent(t0, es);
    var t := Trace(t0, es);
    TraceStepConsistent(t, Yielded(frame));
    var t' := TraceStep(t, Yielded(frame));
    if t'.s.curr.Some? {
      assert Everyone(t'.s)[0] == t'.s.curr.value;
    }
  }

  /** SYS_YIELD keeps the whole frame in the block of the process that was running, which waits last. */
  lemma YieldSaves(s: Sched, f: Frame)
    requires s.curr.Some?
    ensures var p := s.curr.value.(regs := f.regs, esp := f.regs.esp, savedEip := f.eip, state := Ready);
            var s' := SysYield(s, f).0;
            if s.queue == [] then s'.queue == [] && s'.curr == Some(p.(state := Running))
            else s'.queue == s.queue[1..] + [p] && s'.curr == Some(s.queue[0].(state := Running))
  {
    var p := Save(s.curr.value, f).(state := Ready);
    assert s.queue != [] ==> (s.queue + [p])[1..] == s.queue[1..] + [p];
  }

  /** What SYS_YIELD returns to for any control block, well-formed or not. */
  lemma ResumeCases(p: Pcb, f: Frame)
    ensures var r := Resume(p, f);
            var isNew := p.regs.(esp := 0) == ZERO;
            && r.eip == (if p.savedEip == 0 then p.entry else p.savedEip)
            && (!isNew ==> r.regs == p.regs.(eax := 0))
            && (isNew ==> r.regs.(esp := 0) == ZERO)
            && (isNew && p.esp != 0 ==> r.regs.esp == p.esp)
            && (isNew && p.esp == 0 && p.userStackTop != 0 ==> r.regs.esp == p.userStackTop)
            && (isNew && p.esp == 0 && p.userStackTop == 0 ==> r.regs.esp == f.regs.esp)
  {
  }

  /** The frame with which jump_to_usermode enters a process, for the registers that the kernel leaves:
      the selector of the data segments is in ax, the entry point in ecx (src/usermode.asm:12-61). */
  function Entered(p: Pcb, left: Regs): Frame {
    var (stack, entry) := JumpTarget(p);
    Frame(left.(esp := stack, eax := left.eax / 0x1_0000 * 0x1_0000 + 0x23, ecx := entry), entry)
  }

  /** A process goes on rightly: where it yielded, with the registers it had, or, if it never did, at its
      entry point with its stack. */
  predicate GoesOn(p: Pcb, f: Frame, last: map<nat, Frame>) {
    if p.pid in last then f == Expected(p, last) else f.eip == p.entry && f.regs.esp == STACK_TOP
  }

  /** schedule and spawn enter a process at its entry point with its first stack and never look at the
      saved context. In every reachable state the process goes on rightly if and only if it has never
      yielded, whatever the kernel leaves in the registers. */
  lemma JumpResumesExactlyWhen(es: seq<Event>, i: nat, left: Regs)
    requires TraceOk(Traced(INITIAL, map[]), es)
    requires i < |Everyone(Trace(Traced(INITIAL, map[]), es).s)|
    ensures var t := Trace(Traced(INITIAL, map[]), es);
            var p := Everyone(t.s)[i];
            && JumpTarget(p) == (0x8000_0FFC, p.entry)
            && (GoesOn(p, Entered(p, left), t.last) <==> p.pid !in t.last)
  {
    var t0 := Traced(INITIAL, map[]);
    TraceConsistent(t0, es);
    var t := Trace(t0, es);
    assert CarriesContext(Everyone(t.s)[i], t.last);
  }

  /** A run in which schedule loses a context: a process is created and made current, yields at its
      third byte, and the schedule that follows enters it at its first byte again. */
  lemma ScheduleRestartsExample(entry: nat)
    ensures var frame := Frame(ZERO.(esp := STACK_TOP, eax := SYS_YIELD), entry + 2);
            var es := [Created(entry), Dequeued, Yielded(frame)];
            && TraceOk(Traced(INITIAL, map[]), es)
            && var s := Schedule(Trace(Traced(INITIAL, map[]), es).s);
            s.curr.Some? && s.curr.value.savedEip == entry + 2 && JumpTarget(s.curr.value).1 == entry
  {
    var frame := Frame(ZERO.(esp := STACK_TOP, eax := SYS_YIELD), entry + 2);
    var t0 := Traced(INITIAL, map[]);
    ThreeSteps(t0, Created(entry), Dequeued, Yielded(frame));
  }

  lemma ThreeSteps(t: Traced, a: Event, b: Event, c: Event)
    requires EventOk(t, a) && EventOk(TraceStep(t, a), b) && EventOk(TraceStep(TraceStep(t, a), b), c)
    ensures TraceOk(t, [a, b, c]) && Trace(t, [a, b, c]) == TraceStep(TraceStep(TraceStep(t, a), b), c)
  {
    hide TraceStep, EventOk;
    var t1, t2 := TraceStep(t, a), TraceStep(TraceStep(t, a), b);
    assert [a, b, c][1..] == [b, c] && [b, c][1..] == [c] && [c][1..] == [];
    var t3 := TraceStep(t2, c);
    assert TraceOk(t3, []) && Trace(t3, []) == t3;
    assert TraceOk(t2, [c]) && Trace(t2, [c]) == Trace(t3, []);
    assert TraceOk(t1, [b, c]) && Trace(t1, [b, c]) == Trace(t2, [c]);
  }
}
