/**
  What processes can rely on over whole runs of the scheduler, in the fields of the contexts alone: the
  handlers they register, the memory they share with their clones, and which process runs next.
 */
module Processes {
  import opened Common
  import opened Scheduler

  // ---- What one step does to a context ----

  lemma ExitKeepsContext(s: Sys, p: nat)
    requires Safe(s) && s.cur != 0 && p < |s.list|
    ensures |ExitStep(s).list| == |s.list|
    ensures ExitStep(s).list[p].mm == s.list[p].mm && ExitStep(s).list[p].handlers == s.list[p].handlers
  {
    PickNearest(s.list[s.cur := s.list[s.cur].(state := Unused)], s.cur);
  }

  /**
    No step changes the memory of a context, and none its handlers but a `signal` of its own process, which
    changes one of them; but a clone fills an unused slot.
   */
  lemma StepKeepsContext(s: Sys, e: Event, p: nat)
    requires Safe(s) && Enabled(s, e) && p < |s.list| && !(e.Clone? && e.child == p)
    ensures |Step(s, e).list| == |s.list| && Step(s, e).list[p].mm == s.list[p].mm
    ensures Step(s, e).list[p].handlers ==
            if p == s.cur && e.Signal? && 0 <= e.signo && e.handler != 0 then
              s.list[p].handlers[e.signo := e.handler]
            else s.list[p].handlers
  {
    match e
    case Tick => PickNearest(Woken(s), s.cur);
    case Sleep(ticks) =>
      PickNearest(s.list[s.cur := s.list[s.cur].(ticksToSleep := ticks, state := Waiting)], s.cur);
    case Exit => ExitKeepsContext(s, p);
    case Fault(_) => ExitKeepsContext(s, p);
    case Clone(_, _, _, _) =>
    case Signal(_, _) =>
    case Alarm(_) =>
    case UserStep(_, _) =>
  }

  /** A process ends by `exit` or by a fault of its own without a handler, and by nothing else. */
  lemma StepEndsIff(s: Sys, e: Event, p: nat)
    requires Safe(s) && Enabled(s, e) && p < |s.list| && s.list[p].state != Unused
    ensures |Step(s, e).list| == |s.list|
    ensures Step(s, e).list[p].state == Unused <==>
            p == s.cur && (e.Exit? || (e.Fault? && e.trap != SIGALRM && s.list[p].handlers[e.trap] == 0))
  {
    match e
    case Tick => PickNearest(Woken(s), s.cur);
    case Sleep(ticks) =>
      PickNearest(s.list[s.cur := s.list[s.cur].(ticksToSleep := ticks, state := Waiting)], s.cur);
    case Exit => ExitKeeps(s);
    case Fault(_) => ExitKeeps(s);
    case Clone(_, _, _, _) =>
    case Signal(_, _) =>
    case Alarm(_) =>
    case UserStep(_, _) =>
  }

  // ---- Handlers over runs ----

  /** In this run `p` neither ends nor registers another handler for `k`. */
  ghost predicate KeepsHandler(s: Sys, es: seq<Event>, p: nat, k: nat)
    requires Runs(s, es)
    decreases |es|
  {
    es == [] ||
    (&& !(s.cur == p && (Exits(s, es[0]) || (es[0].Signal? && es[0].signo == k && es[0].handler != 0)))
     && KeepsHandler(Step(s, es[0]), es[1..], p, k))
  }

  lemma {:induction false} HandlerStays(s: Sys, es: seq<Event>, p: nat, k: nat)
    requires Safe(s) && Runs(s, es) && KeepsHandler(s, es, p, k) && p < |s.list| && s.list[p].state != Unused
    requires k < MAX_SIGNALS
    ensures var t := End(s, es);
            && p < |t.list| == |s.list| && t.list[p].state != Unused
            && |t.list[p].handlers| == MAX_SIGNALS && t.list[p].handlers[k] == s.list[p].handlers[k]
    decreases |es|
  {
    if es != [] {
      var t := Step(s, es[0]);
      StepKeepsContext(s, es[0], p);
      StepEndsIff(s, es[0], p);
      StepSafe(s, es[0]);
      if es[1..] != [] {
        HandlerStays(t, es[1..], p, k);
      }
    }
  }

  lemma {:induction false} EndSafe(s: Sys, es: seq<Event>)
    requires Safe(s) && Runs(s, es)
    ensures End(s, es).halted || Safe(End(s, es))
    decreases |es|
  {
    if es != [] {
      StepSafe(s, es[0]);
      if es[1..] != [] { EndSafe(Step(s, es[0]), es[1..]); }
    }
  }

  /**
    A handler registered by an accepted `signal(k, h)` stays registered, whatever runs, until its process
    registers another one for `k` or ends; a fault `k` of the process then enters it.
   */
  lemma SignalThenFault(s: Sys, k: nat, h: nat, es: seq<Event>)
    requires Safe(s) && Enabled(s, Signal(k, h)) && k < MAX_SIGNALS && h != 0
    requires Runs(Step(s, Signal(k, h)), es) && KeepsHandler(Step(s, Signal(k, h)), es, s.cur, k)
    ensures var u := End(Step(s, Signal(k, h)), es);
            && |u.list| == |s.list| && |u.list[s.cur].handlers| == MAX_SIGNALS && u.list[s.cur].handlers[k] == h
            && (!u.halted && u.cur == s.cur ==>
                  && Safe(u) && Enabled(u, Fault(k))
                  && var v := Step(u, Fault(k));
                     && v.cur == s.cur && v.list == u.list && v.list[s.cur].state == Running && !v.halted
                     && v.cpu.rip == h && v.cpu.rsp == (u.cpu.rsp - 8) % U64
                     && v.cpu == u.cpu.(rip := h, rsp := v.cpu.rsp)
                     && v.userMem == u.userMem[v.cpu.rsp := u.cpu.rip])
  {
    var t := Step(s, Signal(k, h));
    StepSafe(s, Signal(k, h));
    StepKeepsContext(s, Signal(k, h), s.cur);
    HandlerStays(t, es, s.cur, k);
    EndSafe(t, es);
  }

  /** The next accepted `signal` for the same number returns the handler it replaces. */
  lemma SignalThenSignal(s: Sys, k: nat, h: nat, es: seq<Event>, h': nat)
    requires Safe(s) && Enabled(s, Signal(k, h)) && k < MAX_SIGNALS && h != 0 && h' != 0
    requires Runs(Step(s, Signal(k, h)), es) && KeepsHandler(Step(s, Signal(k, h)), es, s.cur, k)
    ensures var u := End(Step(s, Signal(k, h)), es);
            !u.halted && u.cur == s.cur ==>
              && Safe(u) && Enabled(u, Signal(k, h')) && Step(u, Signal(k, h')).cpu == u.cpu.(rax := h)
  {
    SignalThenFault(s, k, h, es);
  }

  /** Faults without a handler: divide errors and page faults end the process, an alarm signal is dropped. */
  lemma FaultUnhandled(s: Sys, k: nat)
    requires Safe(s) && Enabled(s, Fault(k)) && s.list[s.cur].handlers[k] == 0
    ensures k == 2 ==> Step(s, Fault(k)) == s
    ensures k != 2 ==> |Step(s, Fault(k)).list| == |s.list| && Step(s, Fault(k)).list[s.cur].state == Unused
  {
    if k != 2 { ExitKeeps(s); }
  }

  // ---- Alarms ----

  /**
    A tick delivers SIGALRM to the current process exactly when one tick of a set alarm is left and a handler
    is registered: it will go on in the handler, its own rip pushed, and the count starts again.
   */
  lemma TickDelivers(s: Sys)
    requires Safe(s) && !s.halted
    ensures var t := TickStep(s); var c := s.list[s.cur]; var rsp := (s.cpu.rsp - 8) % U64;
            && |t.list| == |s.list|
            && if c.alarmConfig > 0 && c.ticksToAlarm == 1 && c.handlers[2] != 0 then
                 && File(t, s.cur) == s.cpu.(rip := c.handlers[2], rsp := rsp)
                 && t.userMem == s.userMem[rsp := s.cpu.rip] && t.list[s.cur].ticksToAlarm == c.alarmConfig
               else
                 && File(t, s.cur) == s.cpu && t.userMem == s.userMem
                 && t.list[s.cur].ticksToAlarm ==
                    if c.alarmConfig > 0 && c.ticksToAlarm > 0 then c.ticksToAlarm - 1 else c.ticksToAlarm
  {
    FoundIffPicked(Woken(s), s.cur);
    PickNearest(Woken(s), s.cur);
  }

  /** What `alarm(j)` returns after `alarm(k)` and `n` own ticks: the rest of the period under way. */
  lemma AlarmReturns(s: Sys, k: nat, es: seq<Event>, j: nat)
    requires Safe(s) && Enabled(s, Alarm(k)) && k > 0 && s.list[s.cur].handlers[2] != 0
    requires Runs(Step(s, Alarm(k)), es) && KeepsAlarm(Step(s, Alarm(k)), es, s.cur)
    ensures var t := Step(s, Alarm(k)); var u := End(t, es); var n := OwnTicks(t, es, s.cur);
            !u.halted && u.cur == s.cur ==>
              Safe(u) && Enabled(u, Alarm(j)) && Step(u, Alarm(j)).cpu == u.cpu.(rax := k - n % k)
  {
    AlarmRings(s, k, es);
    StepSafe(s, Alarm(k));
    EndSafe(Step(s, Alarm(k)), es);
  }

  lemma TickAlarmOff(s: Sys, p: nat)
    requires Safe(s) && p < |s.list| && s.list[p].alarmConfig == 0
    ensures |TickStep(s).list| == |s.list| && TickStep(s).list[p].alarmConfig == 0
  {
    PickNearest(Woken(s), s.cur);
  }

  lemma StepAlarmOff(s: Sys, e: Event, p: nat)
    requires Safe(s) && Enabled(s, e) && p < |s.list| && s.list[p].alarmConfig == 0 && !(s.cur == p && e.Alarm?)
    ensures |Step(s, e).list| == |s.list| && Step(s, e).list[p].alarmConfig == 0
  {
    match e
    case Tick => TickAlarmOff(s, p);
    case Sleep(ticks) =>
      PickNearest(s.list[s.cur := s.list[s.cur].(ticksToSleep := ticks, state := Waiting)], s.cur);
    case Exit => PickNearest(s.list[s.cur := s.list[s.cur].(state := Unused)], s.cur);
    case Fault(_) => PickNearest(s.list[s.cur := s.list[s.cur].(state := Unused)], s.cur);
    case Clone(_, _, _, _) =>
    case Signal(_, _) =>
    case Alarm(_) =>
    case UserStep(_, _) =>
  }

  ghost predicate NoAlarmBy(s: Sys, es: seq<Event>, p: nat)
    requires Runs(s, es)
    decreases |es|
  {
    es == [] || (!(s.cur == p && es[0].Alarm?) && NoAlarmBy(Step(s, es[0]), es[1..], p))
  }

  /** A process with no alarm set, a clone among them, gets no SIGALRM until it sets one. */
  lemma {:induction false} NeverRings(s: Sys, es: seq<Event>, p: nat)
    requires Safe(s) && Runs(s, es) && NoAlarmBy(s, es, p) && p < |s.list| && s.list[p].alarmConfig == 0
    ensures Rings(s, es, p) == 0
    decreases |es|
  {
    if es != [] {
      StepAlarmOff(s, es[0], p);
      StepSafe(s, es[0]);
      if es[1..] != [] {
        NeverRings(Step(s, es[0]), es[1..], p);
      }
    }
  }

  // ---- Clones ----

  /** A clone shares its parent's page tables and segments and has its handlers, and nothing is pending for it. */
  lemma CloneCopies(s: Sys, child: nat, pfn: nat, func: nat, ustack: nat)
    requires Safe(s) && Enabled(s, Clone(child, pfn, func, ustack))
    ensures var t := Step(s, Clone(child, pfn, func, ustack)); var c := s.list[s.cur]; var n := t.list[child];
            && |t.list| == |s.list| && t.cur == s.cur && t.cpu == s.cpu.(rax := child) && t.userMem == s.userMem
            && child != s.cur && child != 0 && n.state == Ready && n.osStackPfn == pfn && t.inUse == s.inUse + {pfn}
            && n.mm.pgd == c.mm.pgd && n.mm.usedMem == c.mm.usedMem && n.mm.code == c.mm.code
            && n.mm.data == c.mm.data && n.mm.rodata == c.mm.rodata && n.mm.stack == c.mm.stack
            && n.handlers == c.handlers && n.ticksToSleep == n.ticksToAlarm == n.alarmConfig == n.pendingSignals == 0
            && n.regs.rip == func && n.regs.rsp == n.regs.rbp == ustack && n.regs.rflags == s.cpu.rflags
            && n.regs.cs == 0x23 && n.regs.ss == 0x2b && n.regs.rax == c.regs.rax
            && forall i :: 0 <= i < |s.list| && i != child ==> t.list[i] == s.list[i]
  {
    assert s.list[child].state == Unused;
  }

  ghost predicate StaysAlive(s: Sys, es: seq<Event>, p: nat)
    requires Runs(s, es)
    decreases |es|
  {
    es == [] || (!(s.cur == p && Exits(s, es[0])) && StaysAlive(Step(s, es[0]), es[1..], p))
  }

  /** As long as a process does not end, its page tables and segments are the same, whatever runs. */
  lemma {:induction false} MemoryStays(s: Sys, es: seq<Event>, p: nat)
    requires Safe(s) && Runs(s, es) && StaysAlive(s, es, p) && p < |s.list| && s.list[p].state != Unused
    ensures var t := End(s, es);
            |t.list| == |s.list| && t.list[p].state != Unused && t.list[p].mm == s.list[p].mm
    decreases |es|
  {
    if es != [] {
      StepKeepsContext(s, es[0], p);
      StepEndsIff(s, es[0], p);
      StepSafe(s, es[0]);
      if es[1..] != [] {
        MemoryStays(Step(s, es[0]), es[1..], p);
      }
    }
  }

  /** Parent and clone share their memory, segment by segment, for as long as both live. */
  lemma ClonesShareMemory(s: Sys, child: nat, pfn: nat, func: nat, ustack: nat, es: seq<Event>)
    requires Safe(s) && Enabled(s, Clone(child, pfn, func, ustack))
    requires var t := Step(s, Clone(child, pfn, func, ustack));
             Runs(t, es) && StaysAlive(t, es, s.cur) && StaysAlive(t, es, child)
    ensures var u := End(Step(s, Clone(child, pfn, func, ustack)), es);
            && |u.list| == |s.list|
            && var p, c := u.list[s.cur].mm, u.list[child].mm;
               && p.pgd == c.pgd == s.list[s.cur].mm.pgd && p.code == c.code == s.list[s.cur].mm.code
               && p.data == c.data == s.list[s.cur].mm.data && p.rodata == c.rodata == s.list[s.cur].mm.rodata
               && p.stack == c.stack == s.list[s.cur].mm.stack
  {
    var t := Step(s, Clone(child, pfn, func, ustack));
    StepSafe(s, Clone(child, pfn, func, ustack));
    CloneCopies(s, child, pfn, func, ustack);
    MemoryStays(t, es, s.cur);
    MemoryStays(t, es, child);
  }

  // ---- Who runs next ----

  /**
    In pid order: the first READY process after `cur`, else the first READY one before it that is not the
    swapper, else the swapper.
   */
  lemma PickInOrder(list: seq<Context>, cur: nat)
    requires cur < |list|
    ensures (exists i :: cur < i < |list| && list[i].state == Ready) ==>
              && cur < Pick(list, cur) && list[Pick(list, cur)].state == Ready
              && forall i :: cur < i < Pick(list, cur) ==> list[i].state != Ready
    ensures !(exists i :: cur < i < |list| && list[i].state == Ready)
            && (exists i :: 0 < i < cur && list[i].state == Ready) ==>
              && 0 < Pick(list, cur) < cur && list[Pick(list, cur)].state == Ready
              && forall i :: 0 < i < Pick(list, cur) ==> list[i].state != Ready
    ensures !(exists i :: 0 < i < |list| && i != cur && list[i].state == Ready) ==> Pick(list, cur) == 0
  {
    PickNearest(list, cur);
    forall i | 0 < i < |list| && i != cur && list[i].state == Ready
      ensures Pick(list, cur) != 0 && Dist(|list|, cur, Pick(list, cur)) <= Dist(|list|, cur, i)
    {
      assert Candidate(list, i);
    }
  }

  /** That is the process that a sleep, or an exit that is not the last, hands the CPU to. */
  lemma LeaverHandsOver(s: Sys, e: Event)
    requires Safe(s) && Enabled(s, e) && (e.Sleep? || e.Exit?) && !Step(s, e).halted
    ensures var t := Step(s, e); var n := t.cur;
            && n < |t.list| == |s.list| && t.list[n].state == Running && t.cpu == s.list[n].regs
            && t.list[s.cur].state == (if e.Sleep? then Waiting else Unused)
            && ((exists i :: s.cur < i < |s.list| && s.list[i].state == Ready) ==>
                  && s.cur < n && s.list[n].state == Ready
                  && forall i :: s.cur < i < n ==> s.list[i].state != Ready)
            && (!(exists i :: s.cur < i < |s.list| && s.list[i].state == Ready)
                && (exists i :: 0 < i < s.cur && s.list[i].state == Ready) ==>
                  && 0 < n < s.cur && s.list[n].state == Ready
                  && forall i :: 0 < i < n ==> s.list[i].state != Ready)
            && (!(exists i :: 0 < i < |s.list| && i != s.cur && s.list[i].state == Ready) ==> n == 0)
  {
    var l := if e.Sleep? then s.list[s.cur := s.list[s.cur].(ticksToSleep := e.ticks, state := Waiting)]
             else s.list[s.cur := s.list[s.cur].(state := Unused)];
    PickNearest(l, s.cur);
    PickInOrder(l, s.cur);
    assert forall i :: 0 <= i < |s.list| && i != s.cur ==> l[i] == s.list[i];
  }

  /** READY once a tick has been counted. */
  predicate Up(c: Context) {
    c.state == Ready || (c.state == Waiting && c.ticksToSleep == 1)
  }

  /** And a tick, which first wakes those whose last tick of sleep it is; with nobody READY the process goes on. */
  lemma TickHandsOver(s: Sys)
    requires Safe(s) && !s.halted
    ensures var t := TickStep(s); var n := t.cur;
            && n < |t.list| == |s.list| && t.list[n].state == Running && (n != s.cur ==> t.list[s.cur].state == Ready)
            && ((exists i :: s.cur < i < |s.list| && Up(s.list[i])) ==>
                  s.cur < n && Up(s.list[n]) && forall i :: s.cur < i < n ==> !Up(s.list[i]))
            && (!(exists i :: s.cur < i < |s.list| && Up(s.list[i])) && (exists i :: 0 < i < s.cur && Up(s.list[i])) ==>
                  0 < n < s.cur && Up(s.list[n]) && forall i :: 0 < i < n ==> !Up(s.list[i]))
            && (!(exists i :: 0 < i < |s.list| && i != s.cur && Up(s.list[i])) ==> n == s.cur)
  {
    var w := Woken(s);
    assert forall i :: 0 <= i < |s.list| ==> (w[i].state == Ready <==> Up(s.list[i]));
    FoundIffPicked(w, s.cur);
    PickInOrder(w, s.cur);
    if i :| 0 < i < |s.list| && i != s.cur && Up(s.list[i]) {
      assert Candidate(w, i);
    }
  }

  /** The exit of the last process shuts the system down, and no other step does. */
  lemma ShutsDownIff(s: Sys, e: Event)
    requires Safe(s) && Enabled(s, e)
    ensures Step(s, e).halted <==>
            && (e.Exit? || (e.Fault? && e.trap != 2 && s.list[s.cur].handlers[e.trap] == 0))
            && forall i :: 0 < i < |s.list| && i != s.cur ==> s.list[i].state == Unused
  {
    assert OthersAlive(s) <==> exists i :: 0 < i < |s.list| && i != s.cur && Live(s, i);
    assert forall i :: 0 <= i < |s.list| ==> (Live(s, i) <==> s.list[i].state != Unused);
  }
}
