/** `scheduler.c`: the variables of the scheduler and the functions that change them. */
module Scheduling {
  import opened SchedulerModel

  class Scheduler {
    const processes: array<bv8>
    const pcbs: array<Pcb>
    var kernelRegs: Registers
    var cur: int

    ghost predicate Valid()
      reads this
    {
      && processes.Length == MAX_THREADS && pcbs.Length == MAX_THREADS && KERNEL <= cur < MAX_THREADS
      && processes as object != pcbs as object
    }

    /** The variables as a value. */
    ghost function Vars(): (s: Sched)
      requires Valid()
      reads this, processes, pcbs
      ensures s.Shaped()
    {
      Sched(processes[..], pcbs[..], kernelRegs, cur)
    }

    constructor ()
      ensures Valid() && fresh(processes) && fresh(pcbs) && cur == KERNEL
      ensures forall p :: 0 <= p < MAX_THREADS ==> !Vars().Present(p)
    {
      processes := new bv8[MAX_THREADS](_ => 0);
      pcbs := new Pcb[MAX_THREADS](_ => Pcb(ZERO, false));
      kernelRegs, cur := ZERO, KERNEL;
    }

    method FindProcess(from: nat, present: bool) returns (p: int)
      requires Valid() && from <= MAX_THREADS
      ensures p == Find(Vars(), from, present)
    {
      p := from;
      while p < MAX_THREADS
        invariant from <= p <= MAX_THREADS
        invariant Find(Vars(), from, present) == Find(Vars(), p, present)
      {
        if (processes[p] & PROCESS_PRESENT != 0) == present {
          return p;
        }
        p := p + 1;
      }
      p := -1;
    }

    /** The first half of `preempt`: stores the registers of the interrupted context. */
    method SaveContext(regs: Registers)
      requires Valid()
      modifies this`kernelRegs, pcbs
      ensures Valid() && Vars() == Save(old(Vars()), regs)
    {
      ghost var s := Vars();
      if cur == KERNEL {
        kernelRegs := regs;
      } else if processes[cur] & PROCESS_PRESENT != 0 {
        pcbs[cur] := pcbs[cur].(regs := regs);
      }
      assert processes[..] == s.processes && pcbs[..] == Save(s, regs).pcbs;
    }

    /** The second half of `preempt`: loads the registers of the next context. */
    method SwitchTo(next: int, regs: Registers) returns (regs': Registers)
      requires Valid() && KERNEL <= next < MAX_THREADS
      modifies this`cur, pcbs
      ensures Valid() && (Vars(), regs') == Switch(old(Vars()), next, regs)
    {
      ghost var s := Vars();
      cur := next;
      if cur == KERNEL {
        regs' := kernelRegs;
      } else {
        if !pcbs[cur].valid {
          pcbs[cur] := Pcb(Inherit(pcbs[cur].regs, regs), true);
        }
        regs' := pcbs[cur].regs;
        assert pcbs[..] == s.pcbs[cur := pcbs[cur]] && processes[..] == s.processes;
      }
    }

    /** `preempt`. */
    method OnTimer(regs: Registers, ticks: int) returns (regs': Registers, switched: bool)
      requires Valid()
      modifies this, pcbs
      ensures Valid() && (Vars(), regs', switched) == Preempt(old(Vars()), regs, ticks)
    {
      hide Switch, Save, Find;
      regs', switched := regs, false;
      if ticks <= 5 && cur >= 0 && processes[cur] & PROCESS_THREAD != 0 {
        return;
      }
      ghost var s := Vars();
      SavedKeepsSlots(s, regs);
      SaveContext(regs);
      var prev := cur;
      var next := FindProcess(cur + 1, true);
      if prev == next {
        return;
      }
      regs' := SwitchTo(next, regs);
      switched := true;
    }

    method CreateUserProcess(prog: Program) returns (ok: bool)
      requires Valid()
      modifies processes, pcbs
      ensures Valid() && Vars() == Create(old(Vars()), prog)
      ensures ok <==> Find(old(Vars()), 0, false) != -1
    {
      ghost var s := Vars();
      var p := FindProcess(0, false);
      if p == -1 {
        return false;
      }
      processes[p] := processes[p] | PROCESS_PRESENT | (if prog.prio then PROCESS_PRIO else 0);
      pcbs[p] := Pcb(StartRegisters(pcbs[p].regs, p, prog), false);
      assert processes[..] == s.processes[p := processes[p]] && pcbs[..] == s.pcbs[p := pcbs[p]];
      ok := true;
    }

    method RemoveCurrentProcess()
      requires Valid()
      modifies processes, pcbs
      ensures Valid() && Vars() == Remove(old(Vars()))
    {
      if cur == KERNEL {
        return;
      }
      ghost var s := Vars();
      processes[cur] := processes[cur] & !PROCESS_PRESENT;
      pcbs[cur] := pcbs[cur].(regs := ZERO);
      assert processes[..] == s.processes[cur := processes[cur]] && pcbs[..] == s.pcbs[cur := pcbs[cur]];
    }
  }

  lemma SavedKeepsSlots(s: Sched, regs: Registers)
    requires s.Shaped()
    ensures Save(s, regs).Shaped() && Save(s, regs).cur == s.cur
    ensures Find(Save(s, regs), s.cur + 1, true) == Find(s, s.cur + 1, true)
  {
    FindSaved(s, Save(s, regs), s.cur + 1);
  }

  lemma {:induction false} FindSaved(s: Sched, t: Sched, from: nat)
    requires s.Shaped() && t.Shaped() && s.processes == t.processes && from <= MAX_THREADS
    ensures Find(s, from, true) == Find(t, from, true)
    decreases MAX_THREADS - from
  {
    if from < MAX_THREADS {
      FindSaved(s, t, from + 1);
    }
  }
}
