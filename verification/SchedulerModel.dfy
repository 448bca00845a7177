/** The round-robin scheduler as a transition system: timer interrupts, creation and exit of processes. */
module SchedulerModel {

  const MAX_THREADS: nat := 10
  const PROCESS_PRESENT: bv8 := 0x10
  const PROCESS_THREAD: bv8 := 0x20
  const PROCESS_PRIO: bv8 := 0x40
  const KERNEL: int := -1

  /** The register frame an interrupt saves. */
  datatype Registers = Registers(
    cr4: nat, cr3: nat, cr2: nat, cr0: nat,
    gs: nat, fs: nat, es: nat, ds: nat,
    edi: nat, esi: nat, ebp: nat, oldesp: nat, ebx: nat, edx: nat, ecx: nat, eax: nat,
    intr: nat, err: nat,
    eip: nat, cs: nat, eflags: nat, esp: nat, ss: nat)

  const ZERO: Registers := Registers(0, 0, 0, 0, 0, 0, 0, 0, 0, 0, 0, 0, 0, 0, 0, 0, 0, 0, 0, 0, 0, 0, 0)

  datatype Pcb = Pcb(regs: Registers, valid: bool)

  /** The scheduler's variables. */
  datatype Sched = Sched(processes: seq<bv8>, pcbs: seq<Pcb>, kernel: Registers, cur: int) {
    predicate Shaped() {
      |processes| == MAX_THREADS && |pcbs| == MAX_THREADS && KERNEL <= cur < MAX_THREADS
    }

    predicate Present(p: int)
      requires Shaped() && 0 <= p < MAX_THREADS
    {
      processes[p] & PROCESS_PRESENT != 0
    }

    predicate GuardedThread(ticks: int)
      requires Shaped()
    {
      ticks <= 5 && cur >= 0 && processes[cur] & PROCESS_THREAD != 0
    }
  }

  /** The first slot from `from` on whose present bit is as asked, or -1. */
  function Find(s: Sched, from: nat, present: bool): (p: int)
    requires s.Shaped() && from <= MAX_THREADS
    ensures p == -1 || from <= p < MAX_THREADS
    ensures p != -1 ==> s.Present(p) == present
    ensures forall q :: from <= q < MAX_THREADS && (p == -1 || q < p) ==> s.Present(q) != present
    decreases MAX_THREADS - from
  {
    if from == MAX_THREADS then -1
    else if s.Present(from) == present then from
    else Find(s, from + 1, present)
  }

  /** Registers of the interrupted context, as `preempt` stores them; those of an exited process are dropped. */
  function Save(s: Sched, regs: Registers): Sched
    requires s.Shaped()
  {
    if s.cur == KERNEL then s.(kernel := regs)
    else if s.Present(s.cur) then s.(pcbs := s.pcbs[s.cur := s.pcbs[s.cur].(regs := regs)])
    else s
  }

  /** The registers a new process gets from whatever ran before it. */
  function Inherit(own: Registers, regs: Registers): Registers {
    own.(cr0 := regs.cr0, cr2 := regs.cr2, cr3 := regs.cr3, cr4 := regs.cr4,
         ebp := regs.ebp, ebx := regs.ebx, ecx := regs.ecx, edx := regs.edx, edi := regs.edi, esi := regs.esi,
         intr := regs.intr, err := regs.err, oldesp := regs.oldesp)
  }

  /** Makes `next` the running context. */
  function Switch(s: Sched, next: int, regs: Registers): (Sched, Registers)
    requires s.Shaped() && KERNEL <= next < MAX_THREADS
  {
    var t := s.(cur := next);
    if next == KERNEL then (t, s.kernel)
    else
      var p := if s.pcbs[next].valid then s.pcbs[next] else Pcb(Inherit(s.pcbs[next].regs, regs), true);
      (t.(pcbs := s.pcbs[next := p]), p.regs)
  }

  /** `preempt`: new variables, new registers, and whether the context changed. */
  function Preempt(s: Sched, regs: Registers, ticks: int): (r: (Sched, Registers, bool))
    requires s.Shaped()
    ensures r.0.Shaped()
  {
    if s.GuardedThread(ticks) then (s, regs, false)
    else
      var saved := Save(s, regs);
      var next := Find(s, s.cur + 1, true);
      if next == s.cur then (saved, regs, false)
      else
        var (t, regs') := Switch(saved, next, regs);
        (t, regs', true)
  }

  /** What creation depends on: addresses of the program and of the common entry, the processor's flags, the priority. */
  datatype Program = Program(userPhys: nat, entryPhys: nat, flags: nat, prio: bool)

  /** `flags | 0x200`: interrupts enabled. */
  function EnableInterrupts(flags: nat): nat {
    if flags / 0x200 % 2 == 1 then flags else flags + 0x200
  }

  /** The registers `hal_create_user_process` sets; the others stay as they are in the slot. */
  function StartRegisters(own: Registers, p: nat, prog: Program): Registers {
    var tableIdx := 1 + 3 * p;
    own.(ds := 35, es := 35, fs := 35, gs := 35, ss := 35, cs := 27,
          esp := (tableIdx + 1) * 0x40_0000 - 1,
          eflags := EnableInterrupts(prog.flags),
          eip := 0x10_0000 + prog.entryPhys % 0x1000,
          eax := tableIdx * 0x40_0000 + prog.userPhys % 0x1000)
  }

  /** `hal_create_user_process`: takes the first free slot, if there is one. */
  function Create(s: Sched, prog: Program): (t: Sched)
    requires s.Shaped()
    ensures t.Shaped()
  {
    var p := Find(s, 0, false);
    if p == -1 then s
    else
      s.(processes := s.processes[p := s.processes[p] | PROCESS_PRESENT | (if prog.prio then PROCESS_PRIO else 0)],
         pcbs := s.pcbs[p := Pcb(StartRegisters(s.pcbs[p].regs, p, prog), false)])
  }

  /** `hal_remove_current_process`: the process keeps running until the next timer interrupt. */
  function Remove(s: Sched): (t: Sched)
    requires s.Shaped()
    ensures t.Shaped()
  {
    if s.cur == KERNEL then s
    else
      s.(processes := s.processes[s.cur := s.processes[s.cur] & !PROCESS_PRESENT],
         pcbs := s.pcbs[s.cur := s.pcbs[s.cur].(regs := ZERO)])
  }

  lemma PresentBits(b: bv8, x: bv8)
    ensures (b | PROCESS_PRESENT | x) & PROCESS_PRESENT != 0
    ensures (b & !PROCESS_PRESENT) & PROCESS_PRESENT == 0
  {
  }
}
