/**
  The handlers of `Assn3/schedule.c`, on a context list, `free_os_pfn` and trap frames that they update
  in place, each proved to make the step of `Scheduler` that bears its name.
 */
module SchedulerKernel {
  import opened Common
  import opened Scheduler
  import opened TrapFrames

  datatype SignalResult = Rejected | Handled | Exits

  /** The pick depends on the states alone. */
  lemma {:induction false} SameStatesSamePickFrom(a: seq<Context>, b: seq<Context>, cur: nat, d: nat)
    requires |a| == |b| && cur < |a| && forall i :: 0 <= i < |a| ==> a[i].state == b[i].state
    ensures PickFrom(a, cur, d) == PickFrom(b, cur, d)
    decreases |a| - d
  {
    if d < |a| {
      SameStatesSamePickFrom(a, b, cur, d + 1);
    }
  }

  lemma SameStatesSamePick(a: seq<Context>, b: seq<Context>, cur: nat)
    requires |a| == |b| && cur < |a| && forall i :: 0 <= i < |a| ==> a[i].state == b[i].state
    ensures Pick(a, cur) == Pick(b, cur)
  {
    SameStatesSamePickFrom(a, b, cur, 1);
  }

  class Kernel {
    const list: array<Context>
    const freeOsPfn: array<nat>
    const stk: array<nat>
    var current: nat
    var inUse: set<nat>
    var userMem: map<nat, nat>
    var halted: bool

    ghost function View(cpu: Regs): Sys
      reads this, list, freeOsPfn
    {
      Sys(list[..], current, freeOsPfn[..], inUse, cpu, userMem, halted)
    }

    /** The state is one in which a handler can be entered. */
    ghost predicate Valid(cpu: Regs)
      reads this, list, freeOsPfn
    {
      stk != freeOsPfn && Safe(View(cpu)) && !halted
    }

    method PickNextContext() returns (next: nat)
      requires current < list.Length
      ensures next == Pick(list[..], current)
    {
      ghost var l := list[..];
      for i := current + 1 to current + list.Length
        invariant Pick(l, current) == PickFrom(l, current, i - current)
      {
        assert i % list.Length == After(list.Length, current, i - current) by {
          WrapIndex(list.Length, i);
        }
        if list[i % list.Length].state == Ready && i % list.Length != 0 {
          return i % list.Length;
        }
      }
      return 0;
    }

    method SwitchContextTimer(next: nat, rsp: nat, rbp: nat)
      requires current < list.Length && next < list.Length && next != current
      requires rsp + 14 <= rbp && rbp + 6 <= stk.Length
      modifies list, stk
      ensures list[..] == old(list[..])[current := old(list[current]).(regs := old(TimerRegs(stk[..], rsp, rbp)))]
      ensures TimerRegs(stk[..], rsp, rbp) == old(list[next]).regs
    {
      // save the current context
      var r := list[current].regs;
      r := r.(rdi := stk[rsp + 0], rsi := stk[rsp + 1], rdx := stk[rsp + 2], rcx := stk[rsp + 3], rbx := stk[rsp + 4],
        rax := stk[rsp + 5]);
      r := r.(r15 := stk[rsp + 6], r14 := stk[rsp + 7], r13 := stk[rsp + 8], r12 := stk[rsp + 9]);
      r := r.(r11 := stk[rsp + 10], r10 := stk[rsp + 11], r9 := stk[rsp + 12], r8 := stk[rsp + 13]);
      r := r.(rbp := stk[rbp + 0], rip := stk[rbp + 1], cs := stk[rbp + 2], rflags := stk[rbp + 3],
        rsp := stk[rbp + 4], ss := stk[rbp + 5]);
      list[current] := list[current].(regs := r);
      // load the next
      var n := list[next].regs;
      stk[rsp + 0], stk[rsp + 1], stk[rsp + 2], stk[rsp + 3], stk[rsp + 4], stk[rsp + 5] :=
        n.rdi, n.rsi, n.rdx, n.rcx, n.rbx, n.rax;
      stk[rsp + 6], stk[rsp + 7], stk[rsp + 8], stk[rsp + 9] := n.r15, n.r14, n.r13, n.r12;
      stk[rsp + 10], stk[rsp + 11], stk[rsp + 12], stk[rsp + 13] := n.r11, n.r10, n.r9, n.r8;
      stk[rbp + 0], stk[rbp + 1], stk[rbp + 2], stk[rbp + 3], stk[rbp + 4], stk[rbp + 5] :=
        n.rbp, n.rip, n.cs, n.rflags, n.rsp, n.ss;
    }

    method SwitchContextSleep(next: nat, b: nat)
      requires current < list.Length && next < list.Length && next != current && b + 21 <= stk.Length
      modifies list, stk
      ensures list[..] ==
              old(list[..])[current :=
                old(list[current]).(regs := old(SyscallRegs(stk[..], b, list[current].regs.rax)))]
      ensures PoppedRegs(stk[..], b) == old(list[next]).regs
    {
      // save the current context
      var r := list[current].regs;
      r := r.(rbp := stk[b + 10], rdi := stk[b + 11], rsi := stk[b + 12], rdx := stk[b + 13], rcx := stk[b + 14],
        rbx := stk[b + 15]);
      r := r.(r15 := stk[b + 2], r14 := stk[b + 3], r13 := stk[b + 4], r12 := stk[b + 5]);
      r := r.(r11 := stk[b + 6], r10 := stk[b + 7], r9 := stk[b + 8], r8 := stk[b + 9]);
      r := r.(rip := stk[b + 16], cs := stk[b + 17], rflags := stk[b + 18], rsp := stk[b + 19], ss := stk[b + 20]);
      list[current] := list[current].(regs := r);
      // load the next
      var n := list[next].regs;
      stk[b + 9], stk[b + 10], stk[b + 11], stk[b + 12], stk[b + 13], stk[b + 14], stk[b + 15] :=
        n.rbp, n.rdi, n.rsi, n.rdx, n.rcx, n.rbx, n.rax;
      stk[b + 1], stk[b + 2], stk[b + 3], stk[b + 4] := n.r15, n.r14, n.r13, n.r12;
      stk[b + 5], stk[b + 6], stk[b + 7], stk[b + 8] := n.r11, n.r10, n.r9, n.r8;
      stk[b + 16], stk[b + 17], stk[b + 18], stk[b + 19], stk[b + 20] := n.rip, n.cs, n.rflags, n.rsp, n.ss;
    }

    // ---- handle_timer_tick ----

    /** `os_pfn_free` on every slot of `free_os_pfn` from 1 up. */
    method FreePending()
      requires 0 < freeOsPfn.Length
      modifies `inUse, freeOsPfn
      ensures freeOsPfn[..] == Cleared(old(freeOsPfn[..])) && inUse == old(inUse) - Returned(old(freeOsPfn[..]))
    {
      ghost var p := freeOsPfn[..];
      for i := 1 to freeOsPfn.Length
        invariant forall j :: 1 <= j < i ==> freeOsPfn[j] == 0
        invariant freeOsPfn[0] == p[0] && forall j :: i <= j < |p| ==> freeOsPfn[j] == p[j]
        invariant inUse == old(inUse) - Returned(p[..i])
      {
        assert Returned(p[..i + 1]) == Returned(p[..i]) + if p[i] != 0 then {p[i]} else {} by {
          assert forall j :: 1 <= j < i ==> p[..i + 1][j] == p[..i][j] == p[j];
        }
        if freeOsPfn[i] != 0 {
          inUse := inUse - {freeOsPfn[i]};
          freeOsPfn[i] := 0;
        }
      }
      assert p[..freeOsPfn.Length] == p;
    }

    /** The sleep accounting loop and its flag. */
    method WakeSleepers() returns (processFound: bool)
      requires current < list.Length
      modifies list
      ensures list[..] == Woken(old(View(list[current].regs)))
      ensures processFound <==> Found(list[..], current)
    {
      ghost var l, w := list[..], Woken(View(list[current].regs));
      processFound := false;
      for i := 0 to list.Length
        invariant forall j :: 0 <= j < i ==> list[j] == Wake(l[j])
        invariant forall j :: i <= j < list.Length ==> list[j] == l[j]
        invariant processFound <==> exists j: nat :: j < i && Candidate(w, j) && j != current
      {
        if list[i].state == Waiting && list[i].ticksToSleep > 0 {
          list[i] := list[i].(ticksToSleep := list[i].ticksToSleep - 1);
          if list[i].ticksToSleep == 0 {
            list[i] := list[i].(state := Ready);
          }
        }
        if i != 0 && list[i].state == Ready && i != current {
          processFound := true;
        }
        assert list[i] == w[i];
        assert Candidate(w, i) <==> i != 0 && list[i].state == Ready;
      }
      assert list[..] == w;
    }

    /** `invoke_sync_signal(signo, &stk[sp], &stk[ip])`. The caller exits the process when the result says so. */
    method InvokeSyncSignal(signo: int, sp: nat, ip: nat) returns (r: SignalResult)
      requires current < list.Length && |list[current].handlers| == MAX_SIGNALS && signo < MAX_SIGNALS
      requires sp < stk.Length && ip < stk.Length && sp != ip
      modifies `userMem, stk
      ensures r == Rejected <==> signo < 0
      ensures r == Exits <==> 0 <= signo && signo != SIGALRM && list[current].handlers[signo] == 0
      ensures r == Handled && list[current].handlers[signo] != 0 ==>
                && stk[..] == old(stk[..])[sp := (old(stk[sp]) - 8) % U64][ip := list[current].handlers[signo]]
                && userMem == old(userMem)[(old(stk[sp]) - 8) % U64 := old(stk[ip])]
      ensures r != Handled || list[current].handlers[signo] == 0 ==> stk[..] == old(stk[..]) && userMem == old(userMem)
    {
      if signo < 0 {
        return Rejected;
      }
      if signo != SIGALRM && list[current].handlers[signo] == 0 {
        return Exits;
      }
      if list[current].handlers[signo] != 0 {
        stk[sp] := (stk[sp] - 8) % U64;
        userMem := userMem[stk[sp] := stk[ip]];
        stk[ip] := list[current].handlers[signo];
      }
      r := Handled;
    }

    /** The alarm accounting of the current context. */
    method RingAlarm(rsp: nat, rbp: nat)
      requires current < list.Length && |list[current].handlers| == MAX_SIGNALS
      requires rsp + 14 <= rbp && rbp + 6 <= stk.Length
      modifies `userMem, list, stk
      ensures list[..] == old(list[..])[current := Ring(old(list[current]))]
      ensures var cpu := old(TimerRegs(stk[..], rsp, rbp)); var c := old(list[current]);
              if AlarmFires(c) then
                && TimerRegs(stk[..], rsp, rbp) == Deliver(cpu, c.handlers[SIGALRM])
                && userMem == old(userMem)[(cpu.rsp - 8) % U64 := cpu.rip]
              else TimerRegs(stk[..], rsp, rbp) == cpu && userMem == old(userMem)
    {
      if list[current].ticksToAlarm != 0 && list[current].alarmConfig != 0 {
        list[current] := list[current].(ticksToAlarm := list[current].ticksToAlarm - 1);
        if list[current].ticksToAlarm == 0 && list[current].handlers[SIGALRM] != 0 {
          list[current] := list[current].(ticksToAlarm := list[current].alarmConfig);
          var r := InvokeSyncSignal(SIGALRM, rbp + 4, rbp + 1);
        }
      }
    }

    /** The end of `handle_timer_tick`: `next` gets the CPU. */
    method Schedule(next: nat, rsp: nat, rbp: nat)
      requires current < list.Length && next < list.Length && next != current
      requires rsp + 14 <= rbp && rbp + 6 <= stk.Length && stk != freeOsPfn
      modifies `current, list, stk
      ensures View(TimerRegs(stk[..], rsp, rbp)) ==
              var r := old(View(TimerRegs(stk[..], rsp, rbp))); Switch(r, Ready, r.cpu, next)
    {
      list[next] := list[next].(state := Running);
      list[current] := list[current].(state := Ready);
      SwitchContextTimer(next, rsp, rbp);
      current := next;
    }

    method HandleTimerTick(rsp: nat, rbp: nat)
      requires rsp + 14 <= rbp && rbp + 6 <= stk.Length && Valid(TimerRegs(stk[..], rsp, rbp))
      modifies `current, `inUse, `userMem, list, freeOsPfn, stk
      ensures View(TimerRegs(stk[..], rsp, rbp)) == TickStep(old(View(TimerRegs(stk[..], rsp, rbp))))
      ensures Valid(TimerRegs(stk[..], rsp, rbp))
    {
      ghost var s := View(TimerRegs(stk[..], rsp, rbp));
      TickSafe(s);
      FreePending();
      var processFound := WakeSleepers();
      RingAlarm(rsp, rbp);
      assert View(TimerRegs(stk[..], rsp, rbp)) == Rung(s);
      if processFound {
        SameStatesSamePick(list[..], Woken(s), current);
        FoundIffPicked(Woken(s), current);
        var next := PickNextContext();
        Schedule(next, rsp, rbp);
      }
    }

    // ---- System calls ----

    /** `do_sleep`, from a system-call frame at `b`. */
    method DoSleep(ticks: nat, b: nat, ghost rax: nat)
      requires b + 21 <= stk.Length && current != 0 && Valid(SyscallRegs(stk[..], b, rax))
      modifies `current, list, stk
      ensures View(PoppedRegs(stk[..], b)) == SleepStep(old(View(SyscallRegs(stk[..], b, rax))), ticks)
      ensures Valid(PoppedRegs(stk[..], b))
    {
      ghost var s := View(SyscallRegs(stk[..], b, rax));
      StepSafe(s, Sleep(ticks));
      list[current] := list[current].(ticksToSleep := ticks);
      list[current] := list[current].(state := Waiting);
      ghost var s1 := s.list[s.cur := s.list[s.cur].(ticksToSleep := ticks, state := Waiting)];
      assert list[..] == s1;
      PickNearest(s1, current);
      var next := PickNextContext();
      SwitchContextSleep(next, b);
      current := next;
      list[next] := list[next].(state := Running);
    }

    /** `do_exit`, from a system-call frame at `b`. */
    method DoExit(b: nat, ghost rax: nat)
      requires b + 21 <= stk.Length && current != 0 && Valid(SyscallRegs(stk[..], b, rax))
      modifies `current, `halted, list, freeOsPfn, stk
      ensures var t := ExitStep(old(View(SyscallRegs(stk[..], b, rax))));
              View(if t.halted then t.cpu else PoppedRegs(stk[..], b)) == t
      ensures halted || Valid(PoppedRegs(stk[..], b))
      // the system is shut down exactly when no other process but the swapper is there
      ensures halted <==> forall i :: 1 <= i < list.Length && i != old(current) ==>
                !Live(old(View(SyscallRegs(stk[..], b, rax))), i)
    {
      ghost var s := View(SyscallRegs(stk[..], b, rax));
      ExitSafe(s);
      list[current] := list[current].(state := Unused);
      var available := false;
      for i := 1 to list.Length
        invariant available <==> exists j :: 1 <= j < i && j != s.cur && Live(s, j)
      {
        if list[i].state != Unused {
          available := true;
        }
        assert list[i].state != Unused <==> i != s.cur && Live(s, i);
      }
      assert available <==> OthersAlive(s);
      freeOsPfn[current] := list[current].osStackPfn;
      if !available {
        halted := true;
      } else {
        PickNearest(list[..], current);
        var next := PickNextContext();
        SwitchContextSleep(next, b);
        current := next;
        list[next] := list[next].(state := Running);
      }
    }

    /** `do_clone`, for the slot that `get_new_ctx` and the frame that `os_pfn_alloc` returned. */
    method DoClone(func: nat, ustack: nat, child: nat, pfn: nat, b: nat, ghost rax: nat) returns (r: nat)
      requires b + 21 <= stk.Length && current != 0 && Valid(SyscallRegs(stk[..], b, rax))
      requires child < list.Length && list[child].state == Unused && pfn !in inUse
      modifies `inUse, list
      ensures View(SyscallRegs(stk[..], b, r)) ==
              CloneStep(old(View(SyscallRegs(stk[..], b, rax))), child, pfn, func, ustack)
      ensures Valid(SyscallRegs(stk[..], b, r))
      // segment by segment, the clone has its parent's memory, and its parent's handlers
      ensures r == child && list[child].mm.pgd == old(list[current]).mm.pgd
      ensures list[child].mm.code == old(list[current]).mm.code && list[child].mm.data == old(list[current]).mm.data
      ensures list[child].mm.rodata == old(list[current]).mm.rodata
      ensures list[child].mm.stack == old(list[current]).mm.stack
      ensures list[child].handlers == old(list[current]).handlers
    {
      inUse := inUse + {pfn};
      var c := list[current];
      var regs := list[child].regs;
      regs := regs.(r15 := c.regs.r15, r14 := c.regs.r14, r13 := c.regs.r13, r12 := c.regs.r12,
                    r11 := c.regs.r11, r10 := c.regs.r10, r9 := c.regs.r9, r8 := c.regs.r8);
      regs := regs.(rax := c.regs.rax, rbx := c.regs.rbx, rcx := c.regs.rcx, rdx := c.regs.rdx, rdi := c.regs.rdi,
        rsi := c.regs.rsi);
      regs := regs.(cs := 0x23, ss := 0x2b, rflags := stk[b + 18], rip := func, rsp := ustack, rbp := ustack);
      var mm := list[child].mm;
      mm := mm.(pgd := c.mm.pgd, usedMem := c.mm.usedMem);
      mm := mm.(code := c.mm.code, data := c.mm.data, rodata := c.mm.rodata, stack := c.mm.stack);
      list[child] := list[child].(osStackPfn := pfn, state := Ready, ticksToSleep := 0, ticksToAlarm := 0,
                                  alarmConfig := 0, pendingSignals := 0, handlers := c.handlers, mm := mm,
                                  regs := regs);
      r := child;
    }

    /** `do_signal`: register a handler, return the one it replaces. */
    method DoSignal(signo: int, handler: nat, ghost cpu: Regs) returns (r: int)
      requires Valid(cpu) && current != 0 && signo < MAX_SIGNALS
      modifies list
      ensures View(cpu.(rax := if r < 0 then U64 - 1 else r)) == SignalStep(old(View(cpu)), signo, handler)
      ensures Valid(cpu)
      ensures if signo < 0 || handler == 0 then r == -1 && list[..] == old(list[..])
              else r == old(list[current]).handlers[signo]
                   && list[current].handlers == old(list[current]).handlers[signo := handler]
    {
      if signo < 0 || handler == 0 {
        return -1;
      }
      r := list[current].handlers[signo];
      list[current] := list[current].(handlers := list[current].handlers[signo := handler]);
    }

    /** `do_alarm`: start the count, return what was left of the previous one. */
    method DoAlarm(ticks: nat, ghost cpu: Regs) returns (r: nat)
      requires Valid(cpu) && current != 0
      modifies list
      ensures View(cpu.(rax := r)) == AlarmStep(old(View(cpu)), ticks)
      ensures Valid(cpu)
      ensures r == old(list[current]).ticksToAlarm && list[current].ticksToAlarm == list[current].alarmConfig == ticks
    {
      r := list[current].ticksToAlarm;
      list[current] := list[current].(alarmConfig := ticks, ticksToAlarm := ticks);
    }
  }
}
