/** Whole runs of the scheduler: what a context finds when it is resumed, and who runs when. */
module SchedulerRuns {
  import opened SchedulerModel

  /** The running context computes, the timer fires, the kernel creates a process, or the running process exits. */
  datatype Step = Execute(regs: Registers) | Timer(ticks: int) | Creation(prog: Program) | Exit

  datatype System = System(sched: Sched, cpu: Registers)

  /** Processes are created from the kernel only. */
  predicate Enabled(sys: System, step: Step) {
    step.Creation? ==> sys.sched.cur == KERNEL
  }

  function Next(sys: System, step: Step): (t: System)
    requires sys.sched.Shaped()
    ensures t.sched.Shaped()
  {
    match step
    case Execute(regs) => sys.(cpu := regs)
    case Timer(ticks) => var (s, regs, switched) := Preempt(sys.sched, sys.cpu, ticks); System(s, regs)
    case Creation(prog) => sys.(sched := Create(sys.sched, prog))
    case Exit => sys.(sched := Remove(sys.sched))
  }

  predicate Initial(sys: System) {
    && sys.sched.Shaped() && sys.sched.cur == KERNEL
    && forall p :: 0 <= p < MAX_THREADS ==> !sys.sched.Present(p)
  }

  /** `states[i + 1]` comes from `states[i]` by `steps[i]`. */
  ghost predicate IsRun(states: seq<System>, steps: seq<Step>) {
    && |states| == |steps| + 1 && Initial(states[0])
    && (forall i :: 0 <= i < |states| ==> states[i].sched.Shaped())
    && (forall i :: 0 <= i < |steps| ==> Enabled(states[i], steps[i]) && states[i + 1] == Next(states[i], steps[i]))
  }

  /** A process that runs has been started: its control block is valid. */
  predicate RunsStarted(s: Sched)
    requires s.Shaped()
  {
    s.cur >= 0 ==> s.pcbs[s.cur].valid
  }

  lemma RunsStartedStep(sys: System, step: Step)
    requires sys.sched.Shaped() && Enabled(sys, step) && RunsStarted(sys.sched)
    ensures RunsStarted(Next(sys, step).sched)
  {
  }

  lemma {:induction false} RunsStartedAlways(states: seq<System>, steps: seq<Step>, i: nat)
    requires IsRun(states, steps) && i < |states|
    ensures RunsStarted(states[i].sched)
  {
    if i > 0 {
      RunsStartedAlways(states, steps, i - 1);
      RunsStartedStep(states[i - 1], steps[i - 1]);
    }
  }

  // ---- contexts are restored ----

  /** Context `c` is suspended with registers `regs`. */
  predicate Suspended(s: Sched, c: int, regs: Registers)
    requires s.Shaped()
  {
    && s.cur != c
    && if c == KERNEL then s.kernel == regs
       else 0 <= c < MAX_THREADS && s.Present(c) && s.pcbs[c] == Pcb(regs, true)
  }

  /** The step that takes the processor away stores exactly the registers the context had. */
  lemma SuspendStep(sys: System, step: Step, c: int)
    requires sys.sched.Shaped() && Enabled(sys, step) && RunsStarted(sys.sched)
    requires sys.sched.cur == c && Next(sys, step).sched.cur != c
    requires c == KERNEL || sys.sched.Present(c)
    ensures Suspended(Next(sys, step).sched, c, sys.cpu)
  {
  }

  /** Whatever others do, a suspended context stays as it is until it is resumed. */
  lemma SuspendedStep(sys: System, step: Step, c: int, regs: Registers)
    requires sys.sched.Shaped() && Enabled(sys, step) && Suspended(sys.sched, c, regs)
    ensures Next(sys, step).sched.cur != c ==> Suspended(Next(sys, step).sched, c, regs)
    ensures Next(sys, step).sched.cur == c ==> Next(sys, step).cpu == regs
  {
  }

  /**
    In every run: a context that loses the processor at step `i` and gets it back at step `j`, and not
    in between, finds its registers as they were. A process must not have exited before step `i`.
   */
  lemma {:induction false} ResumedAsSuspended(states: seq<System>, steps: seq<Step>, c: int, i: nat, j: nat)
    requires IsRun(states, steps) && i < j < |steps|
    requires states[i].sched.cur == c && (forall k :: i < k <= j ==> states[k].sched.cur != c)
    requires states[j + 1].sched.cur == c
    requires c == KERNEL || states[i].sched.Present(c)
    ensures states[j + 1].cpu == states[i].cpu
  {
    RunsStartedAlways(states, steps, i);
    assert states[i + 1].sched.cur != c;
    SuspendStep(states[i], steps[i], c);
    StaysSuspended(states, steps, c, states[i].cpu, i + 1, j);
    SuspendedStep(states[j], steps[j], c, states[i].cpu);
  }

  lemma {:induction false} StaysSuspended(states: seq<System>, steps: seq<Step>, c: int, regs: Registers, i: nat, j: nat)
    requires IsRun(states, steps) && i <= j < |states|
    requires Suspended(states[i].sched, c, regs) && (forall k :: i <= k <= j ==> states[k].sched.cur != c)
    ensures Suspended(states[j].sched, c, regs)
    decreases j
  {
    if i < j {
      StaysSuspended(states, steps, c, regs, i, j - 1);
      SuspendedStep(states[j - 1], steps[j - 1], c, regs);
    }
  }

  // ---- new processes ----

  /** Slot `p` holds a process that has not run yet. */
  predicate Waiting(s: Sched, p: int, own: Registers)
    requires s.Shaped()
  {
    s.cur != p && 0 <= p < MAX_THREADS && s.Present(p) && s.pcbs[p] == Pcb(own, false)
  }

  lemma CreationStep(s: Sched, prog: Program)
    requires s.Shaped() && s.cur == KERNEL && Find(s, 0, false) != -1
    ensures var p := Find(s, 0, false); Waiting(Create(s, prog), p, StartRegisters(s.pcbs[p].regs, p, prog))
  {
    PresentBits(s.processes[Find(s, 0, false)], if prog.prio then PROCESS_PRIO else 0);
  }

  lemma WaitingStep(sys: System, step: Step, p: int, own: Registers)
    requires sys.sched.Shaped() && Enabled(sys, step) && Waiting(sys.sched, p, own)
    ensures Next(sys, step).sched.cur != p ==> Waiting(Next(sys, step).sched, p, own)
    ensures Next(sys, step).sched.cur == p ==> Next(sys, step).cpu == Inherit(own, sys.cpu)
  {
  }

  lemma {:induction false} StaysWaiting(states: seq<System>, steps: seq<Step>, p: int, own: Registers, i: nat, j: nat)
    requires IsRun(states, steps) && i <= j < |states|
    requires Waiting(states[i].sched, p, own) && (forall k :: i <= k <= j ==> states[k].sched.cur != p)
    ensures Waiting(states[j].sched, p, own)
    decreases j
  {
    if i < j {
      StaysWaiting(states, steps, p, own, i, j - 1);
      WaitingStep(states[j - 1], steps[j - 1], p, own);
    }
  }

  /** Every register of a process that runs for the first time, in slot `p`, after a context with registers `last`. */
  predicate StartedAs(r: Registers, last: Registers, p: nat, prog: Program) {
    && r.eip == 0x10_0000 + prog.entryPhys % 0x1000 && r.eax == (1 + 3 * p) * 0x40_0000 + prog.userPhys % 0x1000
    && r.esp == (2 + 3 * p) * 0x40_0000 - 1
    && r.cs == 27 && r.ss == 35 && r.ds == 35 && r.es == 35 && r.fs == 35 && r.gs == 35
    && r.eflags / 0x200 % 2 == 1 && r.eflags / 0x400 == prog.flags / 0x400 && r.eflags % 0x200 == prog.flags % 0x200
    && r.cr0 == last.cr0 && r.cr2 == last.cr2 && r.cr3 == last.cr3 && r.cr4 == last.cr4
    && r.ebp == last.ebp && r.oldesp == last.oldesp && r.ebx == last.ebx && r.ecx == last.ecx && r.edx == last.edx
    && r.edi == last.edi && r.esi == last.esi && r.intr == last.intr && r.err == last.err
  }

  /**
    In every run: a process created at step `i` that first runs after step `j` starts with the instruction
    pointer, stack, flags, segments and argument set at its creation, and all else from its predecessor.
   */
  lemma {:induction false} FirstRunAsCreated(states: seq<System>, steps: seq<Step>, p: int, i: nat, j: nat)
    requires IsRun(states, steps) && i < j < |steps|
    requires steps[i].Creation? && p == Find(states[i].sched, 0, false) && p != -1
    requires (forall k :: i < k <= j ==> states[k].sched.cur != p) && states[j + 1].sched.cur == p
    ensures states[j + 1].cpu ==
      Inherit(StartRegisters(states[i].sched.pcbs[p].regs, p, steps[i].prog), states[j].cpu)
    ensures var r, prog := states[j + 1].cpu, steps[i].prog;
      && r.eip == 0x10_0000 + prog.entryPhys % 0x1000 && r.eax == (1 + 3 * p) * 0x40_0000 + prog.userPhys % 0x1000
      && r.esp == (2 + 3 * p) * 0x40_0000 - 1 && r.eflags == EnableInterrupts(prog.flags)
      && r.cs == 27 && r.ss == r.ds == r.es == r.fs == r.gs == 35
      && r.ebp == states[j].cpu.ebp && r.cr3 == states[j].cpu.cr3
    ensures StartedAs(states[j + 1].cpu, states[j].cpu, p, steps[i].prog)
  {
    var own := StartRegisters(states[i].sched.pcbs[p].regs, p, steps[i].prog);
    CreationStep(states[i].sched, steps[i].prog);
    StaysWaiting(states, steps, p, own, i + 1, j);
    WaitingStep(states[j], steps[j], p, own);
    NewRegisters(states[i].sched.pcbs[p].regs, states[j].cpu, p, steps[i].prog);
  }

  lemma NewRegisters(slot: Registers, last: Registers, p: nat, prog: Program)
    ensures StartedAs(Inherit(StartRegisters(slot, p, prog), last), last, p, prog)
  {
    InterruptsEnabled(prog.flags);
  }

  lemma InterruptsEnabled(flags: nat)
    ensures var e := EnableInterrupts(flags); e / 0x200 % 2 == 1 && e / 0x400 == flags / 0x400 && e % 0x200 == flags % 0x200
  {
    var h, b, r := flags / 0x400, flags / 0x200 % 2, flags % 0x200;
    assert flags == 0x400 * h + 0x200 * b + r;
    FlagParts(h, b, r);
    FlagParts(h, 1, r);
    assert EnableInterrupts(flags) == 0x400 * h + 0x200 + r;
  }

  lemma FlagParts(h: nat, b: nat, r: nat)
    requires b < 2 && r < 0x200
    ensures var e := 0x400 * h + 0x200 * b + r; e / 0x200 % 2 == b && e / 0x400 == h && e % 0x200 == r
  {
    assert 0x400 * h + 0x200 * b + r == 0x200 * (2 * h + b) + r;
  }

  // ---- what each step does to the slots ----

  /** A timer interrupt within the first ticks of a thread does nothing. */
  lemma ThreadUndisturbed(sys: System, ticks: int)
    requires sys.sched.Shaped() && sys.sched.cur >= 0 && ticks <= 5 && sys.sched.processes[sys.sched.cur] & 0x20 != 0
    ensures Next(sys, Timer(ticks)) == sys
  {
  }

  /** Any other one goes on to the next present slot above the current one, or to the kernel behind the last. */
  lemma TimerGoesOn(sys: System, ticks: int)
    requires sys.sched.Shaped()
    requires sys.sched.cur == KERNEL || ticks > 5 || sys.sched.processes[sys.sched.cur] & 0x20 == 0
    ensures var s, t := sys.sched, Next(sys, Timer(ticks)).sched;
      && t.processes == s.processes
      && (forall q :: s.cur < q < 10 && (t.cur == KERNEL || q < t.cur) ==> s.processes[q] & 0x10 == 0)
      && (t.cur != KERNEL ==> s.cur < t.cur && s.processes[t.cur] & 0x10 != 0)
  {
    assert forall q :: 0 <= q < 10 ==> (sys.sched.Present(q) <==> sys.sched.processes[q] & 0x10 != 0);
  }

  /** A creation takes the lowest slot that is not present, and only that; without one it changes nothing. */
  lemma CreationTakes(sys: System, prog: Program)
    requires sys.sched.Shaped()
    ensures var s, t, p := sys.sched, Next(sys, Creation(prog)).sched, Find(sys.sched, 0, false);
      && t.cur == s.cur && t.kernel == s.kernel && Next(sys, Creation(prog)).cpu == sys.cpu
      && (p == -1 ==> t == s && forall q :: 0 <= q < 10 ==> s.Present(q))
      && (p != -1 ==>
           && 0 <= p < 10 && !s.Present(p) && t.Present(p) && !t.pcbs[p].valid
           && (forall q :: 0 <= q < p ==> s.Present(q))
           && (forall q :: 0 <= q < 10 && q != p ==> t.processes[q] == s.processes[q] && t.pcbs[q] == s.pcbs[q])
           && t.processes[p] == s.processes[p] | 0x10 | (if prog.prio then 0x40 else 0))
  {
    var s, p := sys.sched, Find(sys.sched, 0, false);
    var t := Create(s, prog);
    assert Next(sys, Creation(prog)) == System(t, sys.cpu);
    assert p == -1 ==> t == s && forall q :: 0 <= q < 10 ==> s.Present(q);
    assert p != -1 ==> 0 <= p < 10 && !s.Present(p) && forall q :: 0 <= q < p ==> s.Present(q);
    if p != -1 {
      SlotTaken(s, prog, p);
      BitsTaken(s, prog, p);
    }
    hide *;
  }

  /** The slot that a creation takes, and the others. */
  lemma SlotTaken(s: Sched, prog: Program, p: int)
    requires s.Shaped() && p == Find(s, 0, false) != -1
    ensures 0 <= p < 10
    ensures var t := Create(s, prog);
      && t.cur == s.cur && t.kernel == s.kernel && !t.pcbs[p].valid
      && (forall q :: 0 <= q < 10 && q != p ==> t.processes[q] == s.processes[q] && t.pcbs[q] == s.pcbs[q])
  {
    hide StartRegisters;
  }

  lemma BitsTaken(s: Sched, prog: Program, p: int)
    requires s.Shaped() && p == Find(s, 0, false) != -1
    ensures var t := Create(s, prog);
      t.Present(p) && t.processes[p] == s.processes[p] | 0x10 | (if prog.prio then 0x40 else 0)
  {
    PresentBits(s.processes[p], if prog.prio then PROCESS_PRIO else 0);
    hide StartRegisters, EnableInterrupts;
  }

  /** An exit takes the running process out of its slot, whatever else the slot says; the processor stays with it. */
  lemma ExitTakesOut(sys: System)
    requires sys.sched.Shaped() && sys.sched.cur >= 0
    ensures var s, t, p := sys.sched, Next(sys, Exit).sched, sys.sched.cur;
      && !t.Present(p) && t.processes[p] == s.processes[p] & 0xEF && t.pcbs[p] == Pcb(ZERO, s.pcbs[p].valid)
      && (forall q :: 0 <= q < 10 && q != p ==> t.processes[q] == s.processes[q] && t.pcbs[q] == s.pcbs[q])
      && t.cur == p && t.kernel == s.kernel && Next(sys, Exit).cpu == sys.cpu
  {
    PresentBits(sys.sched.processes[sys.sched.cur], 0);
  }

  /**
    Why processes are created from the kernel only: a process that exited and then creates one can give it its own slot.
    When it leaves the processor, the registers set for the new process are lost to its own.
   */
  lemma CreatedWhileExiting(sys: System, prog: Program, ticks: int)
    requires sys.sched.Shaped() && sys.sched.cur >= 0 && !sys.sched.Present(sys.sched.cur)
    requires Find(sys.sched, 0, false) == sys.sched.cur
    ensures var p, t, u := sys.sched.cur, Next(sys, Creation(prog)), Next(Next(sys, Creation(prog)), Timer(ticks));
      && t.sched.Present(p) && t.sched.pcbs[p] == Pcb(StartRegisters(sys.sched.pcbs[p].regs, p, prog), false)
      && (u.sched.cur != p ==> u.sched.Present(p) && u.sched.pcbs[p] == Pcb(sys.cpu, false))
  {
    CreationTakes(sys, prog);
  }

  /** The kernel does not exit. */
  lemma KernelStays(sys: System)
    requires sys.sched.Shaped() && sys.sched.cur == KERNEL
    ensures Next(sys, Exit) == sys
  {
  }

  /** An empty slot stays empty until a creation takes it; it gets the processor from nobody, and loses it to the next timer. */
  lemma EmptyStep(sys: System, step: Step, p: int)
    requires sys.sched.Shaped() && Enabled(sys, step) && 0 <= p < MAX_THREADS && !sys.sched.Present(p)
    requires step.Creation? ==> Find(sys.sched, 0, false) != p
    ensures !Next(sys, step).sched.Present(p)
    ensures sys.sched.cur != p ==> Next(sys, step).sched.cur != p
    ensures sys.sched.cur == p ==>
      (Next(sys, step).sched.cur == p <==> !step.Timer? || sys.sched.GuardedThread(step.ticks))
  {
    if step.Exit? && sys.sched.cur == p {
      ExitTakesOut(sys);
    }
  }

  /**
    In every run a process that exits is gone: its slot is empty, and once the processor has left it, it never comes
    back to it, as long as no creation takes the slot again.
   */
  lemma {:induction false} ExitedNeverRuns(states: seq<System>, steps: seq<Step>, i: nat, j: nat)
    requires IsRun(states, steps) && i < j <= |steps| && steps[i].Exit? && states[i].sched.cur >= 0
    requires forall k :: i < k < j && steps[k].Creation? ==> Find(states[k].sched, 0, false) != states[i].sched.cur
    ensures states[i + 1].sched.cur == states[i].sched.cur
    ensures forall k :: i < k <= j ==> !states[k].sched.Present(states[i].sched.cur)
    ensures forall k, m :: i < k <= m <= j && states[k].sched.cur != states[i].sched.cur ==>
      states[m].sched.cur != states[i].sched.cur
    decreases j
  {
    var p := states[i].sched.cur;
    ExitTakesOut(states[i]);
    RunStep(states, steps, i);
    if j > i + 1 {
      ExitedNeverRuns(states, steps, i, j - 1);
      RunStep(states, steps, j - 1);
      EmptyStep(states[j - 1], steps[j - 1], p);
    }
  }

  // ---- rounds ----

  /** Between two slices of the kernel: it loses the processor at step `i` and gets it back at step `j`. */
  ghost predicate Round(states: seq<System>, steps: seq<Step>, i: nat, j: nat) {
    && IsRun(states, steps) && i < j < |steps|
    && states[i].sched.cur == KERNEL && states[j + 1].sched.cur == KERNEL
    && forall k :: i < k <= j ==> states[k].sched.cur != KERNEL
  }

  /** Timer steps from `i` up to `j` that are not held off for a thread. */
  ghost function TimerSteps(states: seq<System>, steps: seq<Step>, i: nat, j: nat): nat
    requires IsRun(states, steps) && i <= j <= |steps|
    decreases j
  {
    if i == j then 0
    else
      var s := states[j - 1].sched;
      TimerSteps(states, steps, i, j - 1) + (if steps[j - 1].Timer? && !s.GuardedThread(steps[j - 1].ticks) then 1 else 0)
  }

  /** While processes run, each such step takes the processor to a higher slot. */
  lemma {:induction false} SlotsRise(states: seq<System>, steps: seq<Step>, i: nat, j: nat)
    requires IsRun(states, steps) && i <= j <= |steps|
    requires forall k :: i <= k <= j ==> states[k].sched.cur != KERNEL
    ensures states[j].sched.cur >= states[i].sched.cur + TimerSteps(states, steps, i, j)
    decreases j
  {
    RunStep(states, steps, j);
    if i < j {
      RunStep(states, steps, j - 1);
      hide IsRun, Next, Enabled, Sched.Shaped, Sched.GuardedThread;
      SlotsRise(states, steps, i, j - 1);
      SlotStep(states[j - 1], steps[j - 1]);
    }
  }

  lemma RunStep(states: seq<System>, steps: seq<Step>, j: nat)
    requires IsRun(states, steps) && j <= |steps|
    ensures |states| == |steps| + 1 && states[j].sched.Shaped()
    ensures j < |steps| ==> Enabled(states[j], steps[j]) && states[j + 1] == Next(states[j], steps[j])
  {
  }

  lemma SlotStep(sys: System, step: Step)
    requires sys.sched.Shaped() && Enabled(sys, step) && sys.sched.cur != KERNEL
    ensures var t := Next(sys, step).sched;
      t.cur == KERNEL ||
      t.cur >= sys.sched.cur + (if step.Timer? && !sys.sched.GuardedThread(step.ticks) then 1 else 0)
  {
  }

  /** A round ends: once the kernel has lost the processor, it has it back after at most as many such steps as there are slots. */
  lemma RoundEnds(states: seq<System>, steps: seq<Step>, i: nat, j: nat)
    requires IsRun(states, steps) && i < j <= |steps|
    requires states[i].sched.cur == KERNEL && states[i + 1].sched.cur != KERNEL
    requires TimerSteps(states, steps, i + 1, j) >= MAX_THREADS
    ensures exists k :: i < k <= j && states[k].sched.cur == KERNEL
  {
    if forall k :: i < k <= j ==> states[k].sched.cur != KERNEL {
      SlotsRise(states, steps, i + 1, j);
      assert false;
    }
  }

  /** One step of a process slice: the same process goes on, or the next present one takes over. */
  lemma SliceStep(sys: System, step: Step)
    requires sys.sched.Shaped() && Enabled(sys, step)
    ensures var s, t := sys.sched, Next(sys, step).sched;
      && (t.cur == s.cur || t.cur == Find(s, s.cur + 1, true))
      && (t.cur != s.cur ==> t.processes == s.processes)
      && (s.cur >= 0 ==> forall p :: 0 <= p < MAX_THREADS && p != s.cur ==> t.processes[p] == s.processes[p])
  {
  }

  /** Within a round the slices come in ascending slot order, so each process has at most one. */
  lemma {:induction false} RoundAscends(states: seq<System>, steps: seq<Step>, i: nat, j: nat, k: nat, k': nat)
    requires Round(states, steps, i, j) && i < k <= k' <= j
    ensures states[k].sched.cur <= states[k'].sched.cur
    decreases k'
  {
    if k < k' {
      RoundAscends(states, steps, i, j, k, k' - 1);
      SliceStep(states[k' - 1], steps[k' - 1]);
    }
  }

  /** A process that has not been reached yet is still present. */
  lemma {:induction false} NotYetReached(states: seq<System>, steps: seq<Step>, i: nat, j: nat, k: nat, p: int)
    requires Round(states, steps, i, j) && i < k <= j
    requires 0 <= p < MAX_THREADS && states[i].sched.Present(p) && (forall q :: i < q <= k ==> states[q].sched.cur != p)
    ensures states[k].sched.cur < p && states[k].sched.Present(p)
    decreases k
  {
    SliceStep(states[k - 1], steps[k - 1]);
    if k > i + 1 {
      NotYetReached(states, steps, i, j, k - 1, p);
    }
  }

  /** Whoever runs in a round was present when it began. */
  lemma {:induction false} RunsWerePresent(states: seq<System>, steps: seq<Step>, i: nat, j: nat, k: nat, p: int)
    requires Round(states, steps, i, j) && i < k <= j
    requires states[k].sched.cur <= p < MAX_THREADS
    ensures 0 <= p && (states[k].sched.cur < p ==> (states[k].sched.Present(p) <==> states[i].sched.Present(p)))
    ensures states[k].sched.cur == p ==> states[i].sched.Present(p)
    decreases k
  {
    SliceStep(states[k - 1], steps[k - 1]);
    if k > i + 1 {
      RunsWerePresent(states, steps, i, j, k - 1, p);
    }
  }

  /**
    Bounded waiting: in every round exactly the processes present at its start run, each for one
    uninterrupted slice, in ascending slot order, whether or not others exit along the way.
   */
  lemma {:induction false} EveryProcessRunsOnce(states: seq<System>, steps: seq<Step>, i: nat, j: nat, p: int)
    requires Round(states, steps, i, j) && 0 <= p < MAX_THREADS
    ensures states[i].sched.Present(p) <==> exists k :: i < k <= j && states[k].sched.cur == p
    ensures forall k, k', q :: i < k <= q <= k' <= j && states[k].sched.cur == p && states[k'].sched.cur == p ==>
      states[q].sched.cur == p
    ensures forall k, k' :: i < k <= k' <= j ==> states[k].sched.cur <= states[k'].sched.cur
  {
    forall k, k' | i < k <= k' <= j
      ensures states[k].sched.cur <= states[k'].sched.cur
    {
      RoundAscends(states, steps, i, j, k, k');
    }
    if states[i].sched.Present(p) && forall k :: i < k <= j ==> states[k].sched.cur != p {
      NotYetReached(states, steps, i, j, j, p);
      SliceStep(states[j], steps[j]);
      assert false;
    }
    forall k | i < k <= j && states[k].sched.cur == p
      ensures states[i].sched.Present(p)
    {
      RunsWerePresent(states, steps, i, j, k, p);
    }
  }
}
