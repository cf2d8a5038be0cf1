/**
  The round-robin scheduler as a state machine: its steps on values, and what holds over whole runs.
  `Kernel.dfy` proves the handlers of the source against these steps.
 */
module Scheduler {
  import opened Common

  const SIGALRM: nat := 2
  const MAX_SIGNALS: nat := 3
  const USER_CS: nat := 0x23
  const USER_SS: nat := 0x2b

  datatype ProcState = Unused | Ready | Running | Waiting

  datatype Regs = Regs(
    rdi: nat, rsi: nat, rdx: nat, rcx: nat, rbx: nat, rax: nat,
    r15: nat, r14: nat, r13: nat, r12: nat, r11: nat, r10: nat, r9: nat, r8: nat,
    rbp: nat, rip: nat, cs: nat, rflags: nat, rsp: nat, ss: nat)

  /** `struct mm_segment` */
  datatype MmSegment = MmSegment(start: nat, end: nat, nextFree: nat, accessFlags: nat)

  /** A context's memory: its page tables and its code, data, read-only data and stack segments. */
  datatype Memory = Memory(
    pgd: nat, usedMem: nat, code: MmSegment, data: MmSegment, rodata: MmSegment, stack: MmSegment)

  /** `struct exec_context`, without the name; a context's pid is its index in the list. */
  datatype Context = Context(
    state: ProcState, ticksToSleep: nat, ticksToAlarm: nat, alarmConfig: nat, pendingSignals: nat,
    osStackPfn: nat, handlers: seq<nat>, mm: Memory, regs: Regs)

  /**
    The list, the running pid, `free_os_pfn`, the frames allocated from OS_PT_REG, the registers of the
    CPU in user mode, user memory as far as signal delivery writes it, and whether `do_cleanup` was called.
   */
  datatype Sys = Sys(
    list: seq<Context>, cur: nat, pending: seq<nat>, inUse: set<nat>,
    cpu: Regs, userMem: map<nat, nat>, halted: bool)

  datatype Event =
    | Tick
    | Sleep(ticks: nat)
    | Exit
    | Clone(child: nat, pfn: nat, func: nat, ustack: nat)
    | Signal(signo: int, handler: nat)
    | Alarm(ticks: nat)
    | Fault(trap: nat)
    | UserStep(regs: Regs, mem: map<nat, nat>)

  // ---- Invariants ----

  /** One context runs, it is `cur`, and the swapper is READY or RUNNING. */
  ghost predicate Safe(s: Sys) {
    && |s.list| >= 2 && |s.pending| == |s.list| && s.cur < |s.list|
    && (forall i :: 0 <= i < |s.list| ==> |s.list[i].handlers| == MAX_SIGNALS)
    && (forall i :: 0 <= i < |s.list| ==> (s.list[i].state == Running <==> i == s.cur))
    && s.list[0].state in {Ready, Running}
  }

  predicate Live(s: Sys, i: nat)
    requires i < |s.list|
  {
    s.list[i].state != Unused
  }

  /** Stacks of live contexts and stacks waiting to be freed are allocated frames, all different. */
  ghost predicate StacksSafe(s: Sys) {
    && |s.pending| == |s.list|
    && (forall i :: 0 <= i < |s.list| && Live(s, i) ==> s.list[i].osStackPfn in s.inUse)
    && (forall i :: 0 <= i < |s.list| && s.pending[i] != 0 ==> s.pending[i] in s.inUse)
    && (forall i, j :: 0 <= i < j < |s.list| && Live(s, i) && Live(s, j) ==>
      s.list[i].osStackPfn != s.list[j].osStackPfn)
    && (forall i, j :: 0 <= i < j < |s.list| && s.pending[i] != 0 ==> s.pending[i] != s.pending[j])
    && (forall i, j :: 0 <= i < |s.list| && 0 <= j < |s.list| && Live(s, i) && s.pending[j] != 0 ==>
          s.list[i].osStackPfn != s.pending[j])
  }

  // ---- pick_next_context ----

  predicate Candidate(list: seq<Context>, i: nat) {
    0 < i < |list| && list[i].state == Ready
  }

  /** The pid that lies `d` after `cur` in the circle of `n` pids. */
  function After(n: nat, cur: nat, d: nat): (i: nat)
    requires cur < n && d < n
    ensures i < n
  {
    if cur + d < n then cur + d else cur + d - n
  }

  /** How far `p` lies after `cur` in the circle. */
  function Dist(n: nat, cur: nat, p: nat): (d: nat)
    requires cur < n && p < n
    ensures d < n && After(n, cur, d) == p
  {
    if p >= cur then p - cur else p + n - cur
  }

  /** The first candidate at distance `d` or more after `cur`, or the swapper. */
  function PickFrom(list: seq<Context>, cur: nat, d: nat): (i: nat)
    requires cur < |list|
    ensures i < |list|
    decreases |list| - d
  {
    if d >= |list| then 0
    else if Candidate(list, After(|list|, cur, d)) then After(|list|, cur, d)
    else PickFrom(list, cur, d + 1)
  }

  function Pick(list: seq<Context>, cur: nat): (i: nat)
    requires cur < |list|
    ensures i < |list|
  {
    PickFrom(list, cur, 1)
  }

  /** `Pick` gives the nearest candidate after `cur`, and the swapper exactly when there is none. */
  lemma {:induction false} PickNearestFrom(list: seq<Context>, cur: nat, d: nat)
    requires 1 <= d <= |list| && cur < |list|
    ensures var i := PickFrom(list, cur, d);
            && (i == 0 || (Candidate(list, i) && Dist(|list|, cur, i) >= d))
            && forall p: nat :: Candidate(list, p) && Dist(|list|, cur, p) >= d ==>
                 i != 0 && Dist(|list|, cur, i) <= Dist(|list|, cur, p)
    decreases |list| - d
  {
    if d < |list| {
      PickNearestFrom(list, cur, d + 1);
    }
  }

  lemma PickNearest(list: seq<Context>, cur: nat)
    requires cur < |list|
    ensures Pick(list, cur) != cur || Pick(list, cur) == 0
    ensures Pick(list, cur) != 0 ==> Candidate(list, Pick(list, cur))
    ensures forall p: nat :: Candidate(list, p) && p != cur ==>
              Pick(list, cur) != 0 && Dist(|list|, cur, Pick(list, cur)) <= Dist(|list|, cur, p)
  {
    PickNearestFrom(list, cur, 1);
  }

  // ---- Steps ----

  /** One sleeper's share of a tick. */
  function Wake(c: Context): Context {
    if c.state == Waiting && c.ticksToSleep > 0 then
      c.(ticksToSleep := c.ticksToSleep - 1, state := if c.ticksToSleep == 1 then Ready else Waiting)
    else c
  }

  /** `invoke_sync_signal` with a handler: push the user rip and enter the handler. */
  function Deliver(cpu: Regs, handler: nat): Regs {
    cpu.(rsp := (cpu.rsp - 8) % U64, rip := handler)
  }

  predicate AlarmCounts(c: Context) { c.ticksToAlarm != 0 && c.alarmConfig != 0 }

  predicate AlarmFires(c: Context)
    requires |c.handlers| == MAX_SIGNALS
  {
    AlarmCounts(c) && c.ticksToAlarm == 1 && c.handlers[SIGALRM] != 0
  }

  function Ring(c: Context): Context
    requires |c.handlers| == MAX_SIGNALS
  {
    if AlarmFires(c) then c.(ticksToAlarm := c.alarmConfig)
    else if AlarmCounts(c) then c.(ticksToAlarm := c.ticksToAlarm - 1)
    else c
  }

  ghost predicate Found(list: seq<Context>, cur: nat) {
    exists i: nat :: Candidate(list, i) && i != cur
  }

  /** The frames a tick gives back: slots 1 and up of `free_os_pfn`. */
  function Returned(pending: seq<nat>): set<nat> {
    set i | 1 <= i < |pending| && pending[i] != 0 :: pending[i]
  }

  function Cleared(pending: seq<nat>): seq<nat> {
    seq(|pending|, i requires 0 <= i < |pending| => if i == 0 then pending[0] else 0)
  }

  /** The CPU, the list and user memory after a tick has woken sleepers and rung the alarm, before it switches. */
  function Woken(s: Sys): seq<Context> {
    seq(|s.list|, i requires 0 <= i < |s.list| => Wake(s.list[i]))
  }

  function Rung(s: Sys): Sys
    requires s.cur < |s.list| && |s.list[s.cur].handlers| == MAX_SIGNALS
  {
    var c := Wake(s.list[s.cur]);
    s.(list := Woken(s)[s.cur := Ring(c)],
       pending := Cleared(s.pending), inUse := s.inUse - Returned(s.pending),
       cpu := if AlarmFires(c) then Deliver(s.cpu, c.handlers[SIGALRM]) else s.cpu,
       userMem := if AlarmFires(c) then s.userMem[(s.cpu.rsp - 8) % U64 := s.cpu.rip] else s.userMem)
  }

  /** Save the CPU in `out`'s context as `saved`, load the CPU from `next`'s, and make `next` current. */
  function Switch(s: Sys, out: ProcState, saved: Regs, next: nat): Sys
    requires s.cur < |s.list| && next < |s.list|
  {
    s.(list := s.list[s.cur := s.list[s.cur].(state := out, regs := saved)]
                     [next := s.list[next].(state := Running)],
       cur := next, cpu := s.list[next].regs)
  }

  /** What `switch_context_sleep` saves: every register but rax, which keeps its last saved value. */
  function SleepSaved(s: Sys): Regs
    requires s.cur < |s.list|
  {
    s.cpu.(rax := s.list[s.cur].regs.rax)
  }

  ghost function TickStep(s: Sys): Sys
    requires Safe(s)
  {
    var r := Rung(s);
    if Found(Woken(s), s.cur) then Switch(r, Ready, r.cpu, Pick(Woken(s), s.cur)) else r
  }

  function SleepStep(s: Sys, ticks: nat): Sys
    requires s.cur < |s.list|
  {
    var s1 := s.(list := s.list[s.cur := s.list[s.cur].(ticksToSleep := ticks, state := Waiting)]);
    Switch(s1, Waiting, SleepSaved(s), Pick(s1.list, s.cur))
  }

  ghost predicate OthersAlive(s: Sys) {
    exists i :: 1 <= i < |s.list| && i != s.cur && Live(s, i)
  }

  ghost function ExitStep(s: Sys): Sys
    requires s.cur < |s.list| && |s.pending| == |s.list|
  {
    var s1 := s.(list := s.list[s.cur := s.list[s.cur].(state := Unused)],
                 pending := s.pending[s.cur := s.list[s.cur].osStackPfn]);
    if OthersAlive(s) then Switch(s1, Unused, SleepSaved(s), Pick(s1.list, s.cur)) else s1.(halted := true)
  }

  /** The new context of `do_clone`. */
  function CloneOf(c: Context, cpu: Regs, pfn: nat, func: nat, ustack: nat): Context {
    Context(Ready, 0, 0, 0, 0, pfn, c.handlers, c.mm,
            c.regs.(cs := USER_CS, ss := USER_SS, rflags := cpu.rflags, rip := func, rsp := ustack, rbp := ustack))
  }

  function CloneStep(s: Sys, child: nat, pfn: nat, func: nat, ustack: nat): Sys
    requires s.cur < |s.list| && child < |s.list|
  {
    s.(list := s.list[child := CloneOf(s.list[s.cur], s.cpu, pfn, func, ustack)],
       inUse := s.inUse + {pfn}, cpu := s.cpu.(rax := child))
  }

  function SignalStep(s: Sys, signo: int, handler: nat): Sys
    requires s.cur < |s.list| && |s.list[s.cur].handlers| == MAX_SIGNALS && signo < MAX_SIGNALS
  {
    var c := s.list[s.cur];
    if signo < 0 || handler == 0 then s.(cpu := s.cpu.(rax := U64 - 1))
    else s.(list := s.list[s.cur := c.(handlers := c.handlers[signo := handler])],
      cpu := s.cpu.(rax := c.handlers[signo]))
  }

  function AlarmStep(s: Sys, ticks: nat): Sys
    requires s.cur < |s.list|
  {
    var c := s.list[s.cur];
    s.(list := s.list[s.cur := c.(alarmConfig := ticks, ticksToAlarm := ticks)], cpu := s.cpu.(rax := c.ticksToAlarm))
  }

  /** `invoke_sync_signal` from an exception: enter the handler, or exit when SIGSEGV or SIGFPE has none. */
  ghost function FaultStep(s: Sys, signo: nat): Sys
    requires Safe(s) && signo < MAX_SIGNALS
  {
    var h := s.list[s.cur].handlers[signo];
    if h != 0 then s.(cpu := Deliver(s.cpu, h), userMem := s.userMem[(s.cpu.rsp - 8) % U64 := s.cpu.rip])
    else if signo != SIGALRM then ExitStep(s)
    else s
  }

  /** Which steps can happen: the swapper makes no system call, and a clone gets an unused slot and a fresh frame. */
  ghost predicate Enabled(s: Sys, e: Event) {
    && !s.halted
    && (e.Sleep? || e.Exit? || e.Clone? || e.Signal? || e.Alarm? || e.Fault? ==> s.cur != 0)
    && (e.Clone? ==> e.child < |s.list| && s.list[e.child].state == Unused && e.pfn !in s.inUse)
    && (e.Signal? ==> e.signo < MAX_SIGNALS)
    && (e.Fault? ==> e.trap < MAX_SIGNALS)
  }

  ghost function Step(s: Sys, e: Event): Sys
    requires Safe(s) && Enabled(s, e)
  {
    match e
    case Tick => TickStep(s)
    case Sleep(ticks) => SleepStep(s, ticks)
    case Exit => ExitStep(s)
    case Clone(child, pfn, func, ustack) => CloneStep(s, child, pfn, func, ustack)
    case Signal(signo, handler) => SignalStep(s, signo, handler)
    case Alarm(ticks) => AlarmStep(s, ticks)
    case Fault(signo) => FaultStep(s, signo)
    case UserStep(regs, mem) => s.(cpu := regs, userMem := mem)
  }

  // ---- What every step keeps ----

  /**
    The flag of the tick loop is set exactly when `pick_next_context` returns a process other than swapper and
    current.
   */
  lemma FoundIffPicked(list: seq<Context>, cur: nat)
    requires cur < |list|
    ensures Found(list, cur) <==> Pick(list, cur) != 0 && Pick(list, cur) != cur
  {
    PickNearest(list, cur);
    if Pick(list, cur) != 0 && Pick(list, cur) != cur {
      assert Candidate(list, Pick(list, cur));
    }
  }

  lemma TickSafe(s: Sys)
    requires Safe(s)
    ensures Safe(TickStep(s))
  {
    FoundIffPicked(Woken(s), s.cur);
    PickNearest(Woken(s), s.cur);
  }

  lemma ExitSafe(s: Sys)
    requires Safe(s) && s.cur != 0
    ensures ExitStep(s).halted || Safe(ExitStep(s))
  {
    PickNearest(s.list[s.cur := s.list[s.cur].(state := Unused)], s.cur);
  }

  /** Safety over every step; a halted system is one that `do_cleanup` shut down. */
  lemma StepSafe(s: Sys, e: Event)
    requires Safe(s) && Enabled(s, e)
    ensures Step(s, e).halted || Safe(Step(s, e))
    ensures Step(s, e).halted && !s.halted ==> !OthersAlive(s)
  {
    match e
    case Tick => TickSafe(s);
    case Sleep(ticks) =>
      PickNearest(s.list[s.cur := s.list[s.cur].(ticksToSleep := ticks, state := Waiting)], s.cur);
    case Exit => ExitSafe(s);
    case Fault(signo) => ExitSafe(s);
    case Clone(_, _, _, _) =>
    case Signal(_, _) =>
    case Alarm(_) =>
    case UserStep(_, _) =>
  }

  // ---- OS stacks ----

  lemma SleepStacks(s: Sys, ticks: nat)
    requires Safe(s) && StacksSafe(s) && s.cur != 0
    ensures StacksSafe(SleepStep(s, ticks))
  {
    PickNearest(s.list[s.cur := s.list[s.cur].(ticksToSleep := ticks, state := Waiting)], s.cur);
    var t := SleepStep(s, ticks);
    forall i | 0 <= i < |s.list|
      ensures Live(t, i) == Live(s, i) && t.list[i].osStackPfn == s.list[i].osStackPfn
    {
    }
  }

  lemma CloneStacks(s: Sys, child: nat, pfn: nat, func: nat, ustack: nat)
    requires Safe(s) && StacksSafe(s) && child < |s.list| && !Live(s, child) && pfn !in s.inUse
    ensures StacksSafe(CloneStep(s, child, pfn, func, ustack))
  {
    var t := CloneStep(s, child, pfn, func, ustack);
    forall i | 0 <= i < |s.list| && i != child
      ensures t.list[i] == s.list[i]
    {
    }
  }

  /** What an exit does to stacks and pending frees. */
  lemma ExitKeeps(s: Sys)
    requires Safe(s) && s.cur != 0
    ensures var t := ExitStep(s); |t.list| == |t.pending| == |s.list| && t.inUse == s.inUse
    ensures var t := ExitStep(s); forall i :: 0 <= i < |s.list| ==>
              Live(t, i) == (Live(s, i) && i != s.cur) && t.list[i].osStackPfn == s.list[i].osStackPfn
    ensures var t := ExitStep(s); forall i :: 0 <= i < |s.list| ==>
              t.pending[i] == if i == s.cur then s.list[i].osStackPfn else s.pending[i]
  {
    PickNearest(s.list[s.cur := s.list[s.cur].(state := Unused)], s.cur);
  }

  lemma ExitStacks(s: Sys)
    requires Safe(s) && StacksSafe(s) && s.cur != 0
    ensures StacksSafe(ExitStep(s))
  {
    ExitKeeps(s);
  }

  /** A tick frees only allocated frames, each once, and none that is the stack of a live context. */
  lemma TickFrees(s: Sys)
    requires Safe(s) && StacksSafe(s)
    ensures Returned(s.pending) <= s.inUse
    ensures TickStep(s).inUse == s.inUse - Returned(s.pending)
    ensures forall i :: 0 <= i < |s.list| && Live(s, i) ==> s.list[i].osStackPfn !in Returned(s.pending)
    ensures forall i, j :: 0 < i < j < |s.list| && s.pending[i] != 0 ==> s.pending[i] != s.pending[j]
    ensures forall i :: 0 < i < |s.list| ==> TickStep(s).pending[i] == 0
  {
  }

  /** What a tick does to stacks and pending frees. */
  lemma TickKeeps(s: Sys)
    requires Safe(s)
    ensures var t := TickStep(s); |t.list| == |t.pending| == |s.list| && t.inUse == s.inUse - Returned(s.pending)
    ensures var t := TickStep(s); forall i :: 0 <= i < |s.list| ==>
              Live(t, i) == Live(s, i) && t.list[i].osStackPfn == s.list[i].osStackPfn
    ensures var t := TickStep(s); forall i :: 0 <= i < |s.list| ==> t.pending[i] == if i == 0 then s.pending[0] else 0
  {
    FoundIffPicked(Woken(s), s.cur);
    PickNearest(Woken(s), s.cur);
  }

  lemma TickStacks(s: Sys)
    requires Safe(s) && StacksSafe(s)
    ensures StacksSafe(TickStep(s))
  {
    TickFrees(s);
    TickKeeps(s);
  }

  /** Over every step: stacks of live contexts and stacks awaiting their free stay allocated and apart. */
  lemma StepStacks(s: Sys, e: Event)
    requires Safe(s) && StacksSafe(s) && Enabled(s, e)
    ensures StacksSafe(Step(s, e))
  {
    match e
    case Tick =>
      TickStacks(s);
    case Sleep(ticks) => SleepStacks(s, ticks);
    case Exit => ExitStacks(s);
    case Fault(trap) => ExitStacks(s);
    case Clone(child, pfn, func, ustack) => CloneStacks(s, child, pfn, func, ustack);
    case Signal(_, _) =>
    case Alarm(_) =>
    case UserStep(_, _) =>
  }

  // ---- Leaks ----

  ghost predicate Reachable(s: Sys, f: nat)
    requires |s.pending| == |s.list|
  {
    exists i :: 0 <= i < |s.list| && ((Live(s, i) && s.list[i].osStackPfn == f) || (f != 0 && s.pending[i] == f))
  }

  /** Every allocated frame is the stack of a live context or waits in `free_os_pfn`. */
  ghost predicate NoLeak(s: Sys)
    requires |s.pending| == |s.list|
  {
    forall f :: f in s.inUse ==> Reachable(s, f)
  }

  ghost predicate Exits(s: Sys, e: Event)
    requires Safe(s) && Enabled(s, e)
  {
    e.Exit? || (e.Fault? && e.trap != SIGALRM && s.list[s.cur].handlers[e.trap] == 0)
  }

  lemma ReachableStays(s: Sys, t: Sys, f: nat, i: nat)
    requires |s.pending| == |s.list| == |t.list| == |t.pending| && i < |s.list|
    requires (Live(t, i) && t.list[i].osStackPfn == f) || (f != 0 && t.pending[i] == f)
    ensures Reachable(t, f)
  {
  }

  /** Frames stay reachable through every stack and pending slot that keeps its place; `gone` are the slots cleared. */
  lemma FramesStay(s: Sys, t: Sys, gone: set<nat>)
    requires |s.pending| == |s.list| == |t.list| == |t.pending| && NoLeak(s)
    requires forall i :: 0 <= i < |s.list| && Live(s, i) ==> Live(t, i) && t.list[i].osStackPfn == s.list[i].osStackPfn
    requires forall i :: 0 <= i < |s.list| ==> t.pending[i] == s.pending[i] || s.pending[i] in gone
    requires t.inUse == s.inUse - gone
    ensures NoLeak(t)
  {
    forall g | g in t.inUse ensures Reachable(t, g) {
      var i :| 0 <= i < |s.list| && ((Live(s, i) && s.list[i].osStackPfn == g) || (g != 0 && s.pending[i] == g));
      ReachableStays(s, t, g, i);
    }
  }

  /** An exit loses a frame exactly when the slot's previous stack still waits to be freed: the entry is overwritten. */
  lemma ExitLeaksIff(s: Sys)
    requires Safe(s) && StacksSafe(s) && NoLeak(s) && s.cur != 0 && 0 !in s.inUse
    ensures NoLeak(ExitStep(s)) <==> s.pending[s.cur] == 0
  {
    ExitKeeps(s);
    var t, f := ExitStep(s), s.pending[s.cur];
    assert Live(s, s.cur) && s.list[s.cur].osStackPfn in s.inUse;
    forall g | g in s.inUse && g != f ensures Reachable(t, g) {
      var i :| 0 <= i < |s.list| && ((Live(s, i) && s.list[i].osStackPfn == g) || (g != 0 && s.pending[i] == g));
      ReachableStays(s, t, g, i);
    }
    if f != 0 {
      assert f in t.inUse && !Reachable(t, f);
    } else {
      assert forall g :: g in t.inUse ==> g != f && Reachable(t, g);
    }
  }

  lemma SleepKeepsFrames(s: Sys, ticks: nat)
    requires Safe(s) && NoLeak(s) && s.cur != 0
    ensures NoLeak(SleepStep(s, ticks))
  {
    PickNearest(s.list[s.cur := s.list[s.cur].(ticksToSleep := ticks, state := Waiting)], s.cur);
    FramesStay(s, SleepStep(s, ticks), {});
  }

  lemma TickKeepsFrames(s: Sys)
    requires Safe(s) && StacksSafe(s) && NoLeak(s)
    ensures NoLeak(TickStep(s))
  {
    TickKeeps(s);
    var t := TickStep(s);
    forall i | 0 <= i < |s.list| ensures t.pending[i] == s.pending[i] || s.pending[i] in Returned(s.pending) {}
    FramesStay(s, t, Returned(s.pending));
  }

  /** No other step loses a frame. */
  lemma StepKeepsFrames(s: Sys, e: Event)
    requires Safe(s) && StacksSafe(s) && NoLeak(s) && Enabled(s, e) && !Exits(s, e)
    requires e.Clone? ==> e.pfn != 0
    ensures NoLeak(Step(s, e))
  {
    if e.Tick? {
      TickKeepsFrames(s);
    } else if e.Clone? {
      var t := Step(s, e);
      FramesStay(s, t.(inUse := s.inUse), {});
      ReachableStays(s, t, e.pfn, e.child);
    } else if e.Sleep? {
      SleepKeepsFrames(s, e.ticks);
    } else {
      FramesStay(s, Step(s, e), {});
    }
  }

  // ---- Runs ----

  ghost predicate Runs(s: Sys, es: seq<Event>)
    decreases |es|
  {
    es == [] || (Safe(s) && Enabled(s, es[0]) && Runs(Step(s, es[0]), es[1..]))
  }

  ghost function End(s: Sys, es: seq<Event>): Sys
    requires Runs(s, es)
    decreases |es|
  {
    if es == [] then s else End(Step(s, es[0]), es[1..])
  }

  /** In every run exactly one context runs, it is `cur`, the swapper is READY or RUNNING, and stacks are safe. */
  lemma {:induction false} RunSafe(s: Sys, es: seq<Event>)
    requires Safe(s) && StacksSafe(s) && Runs(s, es)
    ensures End(s, es).halted || Safe(End(s, es))
    ensures StacksSafe(End(s, es))
    decreases |es|
  {
    if es != [] {
      StepSafe(s, es[0]);
      StepStacks(s, es[0]);
      if |es| > 1 {
        RunSafe(Step(s, es[0]), es[1..]);
      }
    }
  }

  function Ticks(es: seq<Event>): nat {
    if es == [] then 0 else (if es[0].Tick? then 1 else 0) + Ticks(es[1..])
  }

  // ---- Frames freed over a run ----

  /** How often `f` stands in slots 1 and up of `free_os_pfn`. */
  function Times(pending: seq<nat>, f: nat): nat {
    if |pending| <= 1 then 0
    else Times(pending[..|pending| - 1], f) + if f != 0 && pending[|pending| - 1] == f then 1 else 0
  }

  lemma {:induction false} TimesOnce(pending: seq<nat>, f: nat)
    requires forall i, j :: 0 <= i < j < |pending| && pending[i] != 0 ==> pending[i] != pending[j]
    ensures Times(pending, f) == if f in Returned(pending) then 1 else 0
    decreases |pending|
  {
    if |pending| > 1 {
      var p := pending[..|pending| - 1];
      TimesOnce(p, f);
      assert forall i :: 1 <= i < |p| ==> p[i] == pending[i];
      assert f in Returned(pending) <==> f in Returned(p) || (f != 0 && pending[|p|] == f);
    }
  }

  /** Calls of `os_pfn_free` on `f` made by the ticks of a run. */
  ghost function Frees(s: Sys, es: seq<Event>, f: nat): nat
    requires Runs(s, es)
    decreases |es|
  {
    if es == [] then 0
    else (if es[0].Tick? then Times(s.pending, f) else 0) + Frees(Step(s, es[0]), es[1..], f)
  }

  /** Calls of `os_pfn_alloc` that returned `f` in the clones of a run. */
  function Allocs(es: seq<Event>, f: nat): nat {
    if es == [] then 0
    else (if es[0].Clone? && es[0].pfn == f then 1 else 0) + Allocs(es[1..], f)
  }

  function Held(s: Sys, f: nat): nat { if f in s.inUse then 1 else 0 }

  lemma StepBalance(s: Sys, e: Event, f: nat)
    requires Safe(s) && StacksSafe(s) && Enabled(s, e)
    ensures (if e.Tick? then Times(s.pending, f) else 0) + Held(Step(s, e), f) ==
            Held(s, f) + if e.Clone? && e.pfn == f then 1 else 0
  {
    if e.Tick? {
      TimesOnce(s.pending, f);
    }
  }

  /** In every run each frame is freed exactly as often as it was allocated, less what is still in use: never twice. */
  lemma {:induction false} FreesBalanced(s: Sys, es: seq<Event>, f: nat)
    requires Safe(s) && StacksSafe(s) && Runs(s, es)
    ensures Frees(s, es, f) + Held(End(s, es), f) == Held(s, f) + Allocs(es, f)
    decreases |es|
  {
    if es != [] {
      StepBalance(s, es[0], f);
      StepSafe(s, es[0]);
      StepStacks(s, es[0]);
      if es[1..] != [] {
        FreesBalanced(Step(s, es[0]), es[1..], f);
      }
    }
  }

  // ---- A leak ----

  /** Three contexts, the first user process running and the second one READY, no free pending. */
  ghost predicate ThreeContexts(s: Sys) {
    && Safe(s) && StacksSafe(s) && NoLeak(s) && !s.halted && 0 !in s.inUse
    && |s.list| == 3 && s.cur == 1 && s.list[2].state == Ready && s.pending == [0, 0, 0]
  }

  function LeakRun(pfn: nat): seq<Event> { [Exit] + ([Clone(1, pfn, 0, 0)] + ([Sleep(1)] + ([Exit] + []))) }

  lemma RunCons(s: Sys, e: Event, es: seq<Event>)
    requires Safe(s) && Enabled(s, e) && Runs(Step(s, e), es)
    ensures Runs(s, [e] + es) && End(s, [e] + es) == End(Step(s, e), es)
    ensures Ticks([e] + es) == Ticks(es) + if e.Tick? then 1 else 0
  {
    assert ([e] + es)[1..] == es;
  }

  lemma LeakClone(s: Sys, pfn: nat) returns (t: Sys)
    requires Safe(s) && StacksSafe(s) && NoLeak(s) && !s.halted && |s.list| == 3 && s.cur == 2
    requires s.list[1].state == Unused && pfn !in s.inUse && pfn != 0
    ensures t == Step(s, Clone(1, pfn, 0, 0)) && Enabled(s, Clone(1, pfn, 0, 0))
    ensures Safe(t) && StacksSafe(t) && NoLeak(t) && !t.halted && |t.list| == 3 && t.cur == 2
            && t.list[1].state == Ready
    ensures t.pending == s.pending && t.inUse == s.inUse + {pfn}
  {
    var e := Clone(1, pfn, 0, 0);
    t := Step(s, e);
    StepSafe(s, e);
    StepStacks(s, e);
    StepKeepsFrames(s, e);
  }

  lemma LeakLast(s: Sys) returns (t: Sys)
    requires Safe(s) && StacksSafe(s) && NoLeak(s) && !s.halted && |s.list| == 3 && s.cur == 1
    requires s.list[2].state == Waiting && s.pending[1] != 0 && 0 !in s.inUse
    ensures t == Step(s, Exit) && !t.halted && |t.pending| == |t.list| && !NoLeak(t)
  {
    assert Live(s, 2);
    ExitLeaksIff(s);
    ExitKeeps(s);
    t := Step(s, Exit);
  }

  lemma LeakSleep(s: Sys) returns (t: Sys)
    requires Safe(s) && StacksSafe(s) && NoLeak(s) && !s.halted && |s.list| == 3 && s.cur == 2
             && s.list[1].state == Ready
    ensures t == Step(s, Sleep(1)) && Safe(t) && StacksSafe(t) && NoLeak(t) && !t.halted && |t.list| == 3 && t.cur == 1
    ensures t.list[2].state == Waiting && t.pending == s.pending && t.inUse == s.inUse
  {
    var l := s.list[2 := s.list[2].(ticksToSleep := 1, state := Waiting)];
    assert Candidate(l, 1);
    PickNearest(l, 2);
    t := Step(s, Sleep(1));
    StepSafe(s, Sleep(1));
    StepStacks(s, Sleep(1));
    StepKeepsFrames(s, Sleep(1));
  }

  lemma LeakTail(s: Sys) returns (t: Sys)
    requires Safe(s) && StacksSafe(s) && NoLeak(s) && !s.halted && |s.list| == 3 && s.cur == 2
    requires s.list[1].state == Ready && s.pending[1] != 0 && 0 !in s.inUse
    ensures Runs(s, [Sleep(1)] + ([Exit] + [])) && End(s, [Sleep(1)] + ([Exit] + [])) == t
    ensures Ticks([Sleep(1)] + ([Exit] + [])) == 0
    ensures !t.halted && |t.pending| == |t.list| && !NoLeak(t)
  {
    var s1 := LeakSleep(s);
    t := LeakLast(s1);
    RunCons(s1, Exit, []);
    RunCons(s, Sleep(1), [Exit] + []);
  }

  lemma LeakExit(s: Sys) returns (t: Sys)
    requires ThreeContexts(s)
    ensures t == Step(s, Exit) && Safe(t) && StacksSafe(t) && NoLeak(t) && !t.halted && |t.list| == 3 && t.cur == 2
    ensures t.list[1].state == Unused && t.pending == [0, s.list[1].osStackPfn, 0] && s.list[1].osStackPfn != 0
    ensures t.inUse == s.inUse
  {
    assert Live(s, 2) && Live(s, 1);
    var l := s.list[1 := s.list[1].(state := Unused)];
    assert Candidate(l, 2);
    PickNearest(l, 1);
    t := Step(s, Exit);
    StepSafe(s, Exit);
    StepStacks(s, Exit);
    ExitLeaksIff(s);
  }

  /**
    The gap: an exit, a clone into its slot, a switch to the clone and its exit, all between two ticks, lose
    the first stack.
   */
  lemma LeakWitness(s: Sys, pfn: nat)
    requires ThreeContexts(s) && pfn !in s.inUse && pfn != 0
    ensures Runs(s, LeakRun(pfn)) && Ticks(LeakRun(pfn)) == 0
    ensures var t := End(s, LeakRun(pfn)); !t.halted && |t.pending| == |t.list| && !NoLeak(t)
  {
    var clone := Clone(1, pfn, 0, 0);
    var s1 := LeakExit(s);
    var s2 := LeakClone(s1, pfn);
    var s4 := LeakTail(s2);
    RunCons(s1, clone, [Sleep(1)] + ([Exit] + []));
    RunCons(s, Exit, [clone] + ([Sleep(1)] + ([Exit] + [])));
  }

  function LeakState(mm: Memory, regs: Regs): Sys {
    var c := (state: ProcState, pfn: nat) => Context(state, 0, 0, 0, 0, pfn, [0, 0, 0], mm, regs);
    Sys([c(Ready, 10), c(Running, 11), c(Ready, 12)], 1, [0, 0, 0], {10, 11, 12}, regs, map[], false)
  }

  /** Such a state: stacks 10, 11 and 12, and nothing else in use. */
  lemma LeakStart(mm: Memory, regs: Regs)
    ensures ThreeContexts(LeakState(mm, regs))
  {
    var s := LeakState(mm, regs);
    assert forall i :: 0 <= i < 3 ==> Live(s, i) && s.list[i].osStackPfn == 10 + i;
    forall f | f in s.inUse ensures Reachable(s, f) {
      assert Live(s, f - 10) && s.list[f - 10].osStackPfn == f;
    }
  }

  // ---- Bounded waiting ----

  /** The number of ticks of the run until `p` is current, if it ever is. */
  ghost function TicksToRun(s: Sys, es: seq<Event>, p: nat): Option<nat>
    requires Runs(s, es)
    decreases |es|
  {
    if s.cur == p then Some(0)
    else if es == [] then None
    else
      match TicksToRun(Step(s, es[0]), es[1..], p)
      case None => None
      case Some(t) => Some(t + if es[0].Tick? then 1 else 0)
  }

  /** Until `p` is current, no step hands the CPU to the swapper. */
  ghost predicate SwapperPassedOver(s: Sys, es: seq<Event>, p: nat)
    requires Runs(s, es)
    decreases |es|
  {
    s.cur == p || es == [] ||
    ((Step(s, es[0]).cur == 0 ==> s.cur == 0) && SwapperPassedOver(Step(s, es[0]), es[1..], p))
  }

  /** `t` is one step nearer to running `p` than `s`, strictly so if the step was a tick or changed the CPU. */
  ghost predicate Nearer(s: Sys, t: Sys, p: nat, tick: bool)
    requires s.cur < |s.list| && p < |s.list|
  {
    && !t.halted && |t.list| == |s.list| && t.cur < |t.list|
    && (t.cur == 0 ==> s.cur == 0)
    && (t.cur == p || (t.list[p].state == Ready && Dist(|s.list|, t.cur, p) <= Dist(|s.list|, s.cur, p)))
    && (tick || t.cur != s.cur ==> Dist(|s.list|, t.cur, p) < Dist(|s.list|, s.cur, p))
  }

  /** Handing the CPU to the nearest candidate brings it nearer to any candidate `p`. */
  lemma SwitchTowards(list: seq<Context>, cur: nat, p: nat)
    requires cur < |list| && Candidate(list, p) && p != cur
    ensures Pick(list, cur) != 0
    ensures Dist(|list|, Pick(list, cur), p) < Dist(|list|, cur, p)
  {
    PickNearest(list, cur);
  }

  lemma ExitTowards(s: Sys, p: nat)
    requires Safe(s) && !s.halted && s.cur != 0 && Candidate(s.list, p)
    ensures Nearer(s, ExitStep(s), p, false)
  {
    assert p != s.cur && Live(s, p);
    SwitchTowards(s.list[s.cur := s.list[s.cur].(state := Unused)], s.cur, p);
  }

  lemma StepTowards(s: Sys, e: Event, p: nat)
    requires Safe(s) && Enabled(s, e) && Candidate(s.list, p)
    ensures Nearer(s, Step(s, e), p, e.Tick?)
  {
    match e
    case Tick =>
      assert Candidate(Woken(s), p);
      SwitchTowards(Woken(s), s.cur, p);
    case Sleep(ticks) =>
      SwitchTowards(s.list[s.cur := s.list[s.cur].(ticksToSleep := ticks, state := Waiting)], s.cur, p);
    case Exit => ExitTowards(s, p);
    case Fault(trap) => ExitTowards(s, p);
    case Clone(_, _, _, _) =>
    case Signal(_, _) =>
    case Alarm(_) =>
    case UserStep(_, _) =>
  }

  lemma {:induction false} WaitsAtMostDist(s: Sys, es: seq<Event>, p: nat)
    requires Safe(s) && Runs(s, es) && (s.cur == p || Candidate(s.list, p)) && p < |s.list|
    ensures var t := TicksToRun(s, es, p);
            if t.Some? then t.value <= Dist(|s.list|, s.cur, p) else Ticks(es) < Dist(|s.list|, s.cur, p)
    ensures SwapperPassedOver(s, es, p)
    decreases |es|
  {
    if s.cur != p && es != [] {
      StepTowards(s, es[0], p);
      StepSafe(s, es[0]);
      WaitsAtMostDist(Step(s, es[0]), es[1..], p);
    }
  }

  /**
    A READY process other than the swapper runs within N - 1 ticks, whatever else happens, and the swapper
    does not run meanwhile.
   */
  lemma BoundedWaiting(s: Sys, es: seq<Event>, p: nat)
    requires Safe(s) && Runs(s, es) && Candidate(s.list, p) && Ticks(es) >= |s.list| - 1
    ensures TicksToRun(s, es, p).Some? && TicksToRun(s, es, p).value <= |s.list| - 1
    ensures SwapperPassedOver(s, es, p)
  {
    WaitsAtMostDist(s, es, p);
  }

  // ---- Sleep ----

  lemma ExitSleeper(s: Sys, p: nat)
    requires Safe(s) && !s.halted && s.cur != 0 && p < |s.list| && s.list[p].state == Waiting && p != s.cur && p != 0
    ensures |ExitStep(s).list| == |s.list| && ExitStep(s).list[p] == s.list[p] && !ExitStep(s).halted
            && ExitStep(s).cur != p
  {
    assert Live(s, p);
    PickNearest(s.list[s.cur := s.list[s.cur].(state := Unused)], s.cur);
  }

  /** A sleeper that is not current: a tick counts it down, or wakes it at 1, and no other step touches it. */
  lemma StepSleeper(s: Sys, e: Event, p: nat)
    requires Safe(s) && Enabled(s, e) && p < |s.list| && s.list[p].state == Waiting
    ensures var t := Step(s, e); var c := s.list[p];
            && |t.list| == |s.list| && !t.halted
            && (if e.Tick? && c.ticksToSleep > 0 then
                  if c.ticksToSleep == 1 then t.cur == p || Candidate(t.list, p)
                  else t.list[p] == c.(ticksToSleep := c.ticksToSleep - 1) && t.cur != p
                else t.list[p] == c && t.cur != p)
  {
    assert p != 0 && p != s.cur;
    match e
    case Tick =>
      FoundIffPicked(Woken(s), s.cur);
      PickNearest(Woken(s), s.cur);
    case Sleep(ticks) =>
      PickNearest(s.list[s.cur := s.list[s.cur].(ticksToSleep := ticks, state := Waiting)], s.cur);
    case Exit => ExitSleeper(s, p);
    case Fault(trap) => ExitSleeper(s, p);
    case Clone(_, _, _, _) =>
    case Signal(_, _) =>
    case Alarm(_) =>
    case UserStep(_, _) =>
  }

  lemma {:induction false} TicksOfLast(es: seq<Event>)
    requires es != [] && es[|es| - 1].Tick?
    ensures Ticks(es) >= 1
    decreases |es|
  {
    if |es| > 1 {
      TicksOfLast(es[1..]);
    }
  }

  /**
    With `k` ticks left: WAITING with the rest of the count before the k-th tick; READY or already RUNNING at
    the k-th.
   */
  lemma {:induction false} WakesExactly(s: Sys, es: seq<Event>, p: nat)
    requires Safe(s) && Runs(s, es) && p < |s.list| && s.list[p].state == Waiting && s.list[p].ticksToSleep > 0
    requires Ticks(es) <= s.list[p].ticksToSleep
    requires Ticks(es) == s.list[p].ticksToSleep ==> es != [] && es[|es| - 1].Tick?
    ensures var t := End(s, es); var k := s.list[p].ticksToSleep;
            && |t.list| == |s.list|
            && if Ticks(es) < k then t.list[p] == s.list[p].(ticksToSleep := k - Ticks(es))
               else t.cur == p || Candidate(t.list, p)
    decreases |es|
  {
    if es != [] {
      StepSleeper(s, es[0], p);
      StepSafe(s, es[0]);
      var t := Step(s, es[0]);
      if |es| == 1 {
        assert es[1..] == [];
      } else {
        if t.list[p].state == Waiting {
          assert es[1..][|es| - 2] == es[|es| - 1];
          WakesExactly(t, es[1..], p);
        } else {
          TicksOfLast(es[1..]);
        }
      }
    }
  }

  /** A sleeper with `k > 0` ticks left runs within k + N - 1 ticks; one with 0 ticks left never runs. */
  lemma {:induction false} SleeperRuns(s: Sys, es: seq<Event>, p: nat)
    requires Safe(s) && Runs(s, es) && p < |s.list| && s.list[p].state == Waiting
    ensures var k := s.list[p].ticksToSleep; var t := TicksToRun(s, es, p);
            if k == 0 then t == None
            else if t.Some? then k <= t.value <= k + |s.list| - 1
            else Ticks(es) < k + |s.list| - 1
    decreases |es|
  {
    if es != [] {
      var t := Step(s, es[0]);
      StepSleeper(s, es[0], p);
      StepSafe(s, es[0]);
      if t.list[p].state == Waiting {
        SleeperRuns(t, es[1..], p);
      } else {
        WaitsAtMostDist(t, es[1..], p);
      }
    }
  }

  /** `n` ticks in a row are a run. */
  function OnlyTicks(n: nat): (es: seq<Event>)
    ensures |es| == n && Ticks(es) == n
  {
    if n == 0 then [] else [Tick] + OnlyTicks(n - 1)
  }

  lemma {:induction false} OnlyTicksRun(s: Sys, n: nat)
    requires Safe(s) && !s.halted
    ensures Runs(s, OnlyTicks(n))
    decreases n
  {
    if n > 0 {
      assert OnlyTicks(n)[1..] == OnlyTicks(n - 1);
      StepSafe(s, Tick);
      OnlyTicksRun(Step(s, Tick), n - 1);
    }
  }

  /** After `sleep(k)`: WAITING for k ticks, and back on the CPU within k + N - 1 of them. */
  lemma SleepReturns(s: Sys, k: nat, es: seq<Event>)
    requires Safe(s) && Enabled(s, Sleep(k)) && Runs(Step(s, Sleep(k)), es)
    ensures var t := Step(s, Sleep(k));
            && t.cur != s.cur && t.list[s.cur].state == Waiting && t.list[s.cur].ticksToSleep == k
            && (k > 0 && Ticks(es) >= k + |s.list| - 1 ==>
                  TicksToRun(t, es, s.cur).Some? && k <= TicksToRun(t, es, s.cur).value <= k + |s.list| - 1)
  {
    StepSafe(s, Sleep(k));
    PickNearest(s.list[s.cur := s.list[s.cur].(ticksToSleep := k, state := Waiting)], s.cur);
    SleeperRuns(Step(s, Sleep(k)), es, s.cur);
  }

  /** A process that calls `sleep(k)` can ever run again exactly when k is not 0. */
  lemma SleepWakesIff(s: Sys, k: nat)
    requires Safe(s) && Enabled(s, Sleep(k))
    ensures (exists es :: Runs(Step(s, Sleep(k)), es) && TicksToRun(Step(s, Sleep(k)), es, s.cur).Some?) <==> k > 0
  {
    var t := Step(s, Sleep(k));
    SleepReturns(s, k, []);
    StepSafe(s, Sleep(k));
    if k > 0 {
      var es := OnlyTicks(k + |s.list| - 1);
      OnlyTicksRun(t, k + |s.list| - 1);
      SleepReturns(s, k, es);
    } else {
      forall es | Runs(t, es) ensures TicksToRun(t, es, s.cur).None? {
        SleeperRuns(t, es, s.cur);
      }
    }
  }

  // ---- Alarms ----

  /** The alarm of a live process is set to ring every `k` of its own ticks, with a handler registered. */
  ghost predicate Armed(s: Sys, p: nat, k: nat) {
    && p < |s.list| && Live(s, p) && |s.list[p].handlers| == MAX_SIGNALS
    && s.list[p].alarmConfig == k && s.list[p].handlers[SIGALRM] != 0 && 1 <= s.list[p].ticksToAlarm <= k
  }

  /** The step ends `p` or changes its alarm setting. */
  ghost predicate Rearms(s: Sys, e: Event, p: nat)
    requires Safe(s) && Enabled(s, e)
  {
    s.cur == p && (e.Alarm? || Exits(s, e))
  }

  lemma TickArmed(s: Sys, p: nat, k: nat)
    requires Safe(s) && Armed(s, p, k)
    ensures var t := TickStep(s); var left := s.list[p].ticksToAlarm;
            Armed(t, p, k) && t.list[p].ticksToAlarm == if s.cur != p then left else if left == 1 then k else left - 1
    ensures AlarmFires(s.list[p]) <==> s.list[p].ticksToAlarm == 1
  {
    FoundIffPicked(Woken(s), s.cur);
    PickNearest(Woken(s), s.cur);
  }

  lemma ExitArmed(s: Sys, p: nat, k: nat)
    requires Safe(s) && s.cur != 0 && Armed(s, p, k) && p != s.cur
    ensures Armed(ExitStep(s), p, k) && ExitStep(s).list[p].ticksToAlarm == s.list[p].ticksToAlarm
  {
    PickNearest(s.list[s.cur := s.list[s.cur].(state := Unused)], s.cur);
  }

  lemma StepArmed(s: Sys, e: Event, p: nat, k: nat)
    requires Safe(s) && Enabled(s, e) && Armed(s, p, k) && !Rearms(s, e, p)
    ensures var t := Step(s, e); var left := s.list[p].ticksToAlarm;
            Armed(t, p, k) && t.list[p].ticksToAlarm ==
              if !(e.Tick? && s.cur == p) then left else if left == 1 then k else left - 1
    ensures e.Tick? && s.cur == p ==> (AlarmFires(s.list[p]) <==> s.list[p].ticksToAlarm == 1)
  {
    match e
    case Tick => TickArmed(s, p, k);
    case Sleep(ticks) =>
      PickNearest(s.list[s.cur := s.list[s.cur].(ticksToSleep := ticks, state := Waiting)], s.cur);
    case Exit => ExitArmed(s, p, k);
    case Fault(_) => if Exits(s, e) { ExitArmed(s, p, k); }
    case Clone(_, _, _, _) =>
    case Signal(_, _) =>
    case Alarm(_) =>
    case UserStep(_, _) =>
  }

  /** No step of the run ends `p` or sets its alarm. */
  ghost predicate KeepsAlarm(s: Sys, es: seq<Event>, p: nat)
    requires Runs(s, es)
    decreases |es|
  {
    es == [] || (!Rearms(s, es[0], p) && KeepsAlarm(Step(s, es[0]), es[1..], p))
  }

  /** The ticks of a run during which `p` is current. */
  ghost function OwnTicks(s: Sys, es: seq<Event>, p: nat): nat
    requires Runs(s, es)
    decreases |es|
  {
    if es == [] then 0 else (if es[0].Tick? && s.cur == p then 1 else 0) + OwnTicks(Step(s, es[0]), es[1..], p)
  }

  /** The ticks of a run that deliver SIGALRM to `p`. */
  ghost function Rings(s: Sys, es: seq<Event>, p: nat): nat
    requires Runs(s, es)
    decreases |es|
  {
    if es == [] then 0
    else
      (if es[0].Tick? && s.cur == p && |s.list[p].handlers| == MAX_SIGNALS && AlarmFires(s.list[p]) then 1 else 0)
      + Rings(Step(s, es[0]), es[1..], p)
  }

  /** One step of the count, a tick of its own or not, before a rest that rings `r` times in `o` own ticks. */
  lemma BalanceMore(k: nat, left: nat, own: bool, left': nat, r: nat, o: nat, last: nat)
    requires left' == if !own then left else if left == 1 then k else left - 1
    requires left' + k * r == o + last
    ensures left + k * (r + if own && left == 1 then 1 else 0) == o + (if own then 1 else 0) + last
  {
    assert k * (r + 1) == k * r + k;
  }

  /** Own ticks and rings keep step: what was left, plus `k` for every ring, is what was counted plus what is left. */
  lemma {:induction false} AlarmBalance(s: Sys, es: seq<Event>, p: nat, k: nat)
    requires Safe(s) && Runs(s, es) && Armed(s, p, k) && KeepsAlarm(s, es, p)
    ensures Armed(End(s, es), p, k)
    ensures s.list[p].ticksToAlarm + k * Rings(s, es, p) == OwnTicks(s, es, p) + End(s, es).list[p].ticksToAlarm
    decreases |es|
  {
    if es != [] {
      var t := Step(s, es[0]);
      StepArmed(s, es[0], p, k);
      StepSafe(s, es[0]);
      if es[1..] != [] {
        AlarmBalance(t, es[1..], p, k);
      } else {
        assert Rings(t, es[1..], p) == 0 && OwnTicks(t, es[1..], p) == 0;
      }
      BalanceMore(k, s.list[p].ticksToAlarm, es[0].Tick? && s.cur == p, t.list[p].ticksToAlarm,
                  Rings(t, es[1..], p), OwnTicks(t, es[1..], p), End(t, es[1..]).list[p].ticksToAlarm);
    }
  }

  lemma Products(k: nat, a: nat, b: nat)
    requires a <= b
    ensures k * a <= k * b
  {
  }

  lemma RingsAre(k: nat, n: nat, r: nat, left: nat)
    requires 1 <= left <= k && k + k * r == n + left
    ensures r == n / k && left == k - n % k
  {
    var x := n / k;
    assert n == k * x + n % k;
    if r < x { assert k * (r + 1) <= k * x by { Products(k, r + 1, x); } }
    if x < r { assert k * (x + 1) <= k * r by { Products(k, x + 1, r); } }
  }

  /**
    After `alarm(k)` with a handler registered, SIGALRM is delivered at the k-th tick during which the
    process is current, and at every k-th such tick after it: a run with n own ticks has n / k rings.
   */
  lemma AlarmRings(s: Sys, k: nat, es: seq<Event>)
    requires Safe(s) && Enabled(s, Alarm(k)) && k > 0 && s.list[s.cur].handlers[SIGALRM] != 0
    requires Runs(Step(s, Alarm(k)), es) && KeepsAlarm(Step(s, Alarm(k)), es, s.cur)
    ensures var t := Step(s, Alarm(k)); var n := OwnTicks(t, es, s.cur);
            && Rings(t, es, s.cur) == n / k && Armed(End(t, es), s.cur, k)
            && End(t, es).list[s.cur].ticksToAlarm == k - n % k
  {
    var t, p := Step(s, Alarm(k)), s.cur;
    StepSafe(s, Alarm(k));
    AlarmBalance(t, es, p, k);
    RingsAre(k, OwnTicks(t, es, p), Rings(t, es, p), End(t, es).list[p].ticksToAlarm);
  }

  /** Every k timer interrupts ring once exactly when the process's own ticks are as many, up to less than a period. */
  lemma AlarmTimerIff(s: Sys, k: nat, es: seq<Event>)
    requires Safe(s) && Enabled(s, Alarm(k)) && k > 0 && s.list[s.cur].handlers[SIGALRM] != 0
    requires Runs(Step(s, Alarm(k)), es) && KeepsAlarm(Step(s, Alarm(k)), es, s.cur)
    ensures var t := Step(s, Alarm(k));
            Rings(t, es, s.cur) == Ticks(es) / k <==> OwnTicks(t, es, s.cur) / k == Ticks(es) / k
  {
    AlarmRings(s, k, es);
  }

  /** The gap: with another process READY, an alarm every tick rings once in two ticks. */
  lemma AlarmLate(s: Sys)
    requires Safe(s) && Enabled(s, Alarm(1)) && s.list[s.cur].handlers[SIGALRM] != 0 && Found(s.list, s.cur)
    ensures var t := Step(s, Alarm(1));
            Runs(t, OnlyTicks(2)) && KeepsAlarm(t, OnlyTicks(2), s.cur) && Rings(t, OnlyTicks(2), s.cur) == 1
  {
    var t, es := Step(s, Alarm(1)), OnlyTicks(2);
    var i :| Candidate(s.list, i) && i != s.cur;
    StepSafe(s, Alarm(1));
    var u := Step(t, Tick);
    assert Candidate(Woken(t), i);
    FoundIffPicked(Woken(t), t.cur);
    StepSafe(t, Tick);
    OnlyTicksRun(t, 2);
    assert es == [Tick, Tick] && es[1..] == [Tick] && [Tick][1..] == [];
    assert u.cur != s.cur && Runs(u, [Tick]) && Runs(Step(u, Tick), []);
    assert OwnTicks(u, [Tick], s.cur) == 0 && OwnTicks(t, es, s.cur) == 1;
    AlarmRings(s, 1, es);
  }

  /** Without a handler the count runs out at the last own tick, nothing is delivered, and the count stops. */
  lemma AlarmNeedsHandler(s: Sys)
    requires Safe(s) && s.list[s.cur].ticksToAlarm == 1 && s.list[s.cur].alarmConfig > 0
    ensures var t := TickStep(s);
            (AlarmCounts(t.list[s.cur]) <==> s.list[s.cur].handlers[SIGALRM] != 0) &&
            (AlarmFires(s.list[s.cur]) <==> s.list[s.cur].handlers[SIGALRM] != 0)
  {
    FoundIffPicked(Woken(s), s.cur);
    PickNearest(Woken(s), s.cur);
  }

  // ---- Register isolation ----

  /** The register file of process `i`: the CPU while it runs, its saved context otherwise. */
  function File(s: Sys, i: nat): Regs
    requires i < |s.list|
  {
    if i == s.cur then s.cpu else s.list[i].regs
  }

  /** What a step does to the file of the process that was current. */
  ghost function OwnFile(s: Sys, e: Event): Regs
    requires Safe(s) && Enabled(s, e)
  {
    match e
    case Tick => Rung(s).cpu
    case Sleep(_) => SleepSaved(s)
    case Exit => SleepSaved(s)
    case Clone(child, _, _, _) => s.cpu.(rax := child)
    case Signal(signo, handler) =>
      s.cpu.(rax := if signo < 0 || handler == 0 then U64 - 1 else s.list[s.cur].handlers[signo])
    case Alarm(_) => s.cpu.(rax := s.list[s.cur].ticksToAlarm)
    case Fault(trap) =>
      var h := s.list[s.cur].handlers[trap];
      if h != 0 then Deliver(s.cpu, h) else if trap != SIGALRM then SleepSaved(s) else s.cpu
    case UserStep(regs, _) => regs
  }

  lemma ExitFiles(s: Sys, i: nat)
    requires Safe(s) && s.cur != 0 && i < |s.list|
    ensures |ExitStep(s).list| == |s.list|
    ensures i != s.cur ==> File(ExitStep(s), i) == File(s, i)
    ensures i == s.cur && !ExitStep(s).halted ==> File(ExitStep(s), i) == SleepSaved(s)
  {
    PickNearest(s.list[s.cur := s.list[s.cur].(state := Unused)], s.cur);
  }

  /**
    One CPU with saved contexts behaves as one register file per process: a step changes the file of the
    process that was current, and of the slot a clone fills, and no other, whether or not it switches.
   */
  lemma StepFiles(s: Sys, e: Event, i: nat)
    requires Safe(s) && Enabled(s, e) && i < |s.list|
    ensures |Step(s, e).list| == |s.list|
    ensures i != s.cur && !(e.Clone? && i == e.child) ==> File(Step(s, e), i) == File(s, i)
    ensures i == s.cur && !Step(s, e).halted ==> File(Step(s, e), i) == OwnFile(s, e)
    ensures e.Clone? && i == e.child ==>
              File(Step(s, e), i) == s.list[s.cur].regs.(cs := USER_CS, ss := USER_SS, rflags := s.cpu.rflags,
                                                          rip := e.func, rsp := e.ustack, rbp := e.ustack)
  {
    match e
    case Tick =>
      FoundIffPicked(Woken(s), s.cur);
    case Sleep(ticks) =>
      PickNearest(s.list[s.cur := s.list[s.cur].(ticksToSleep := ticks, state := Waiting)], s.cur);
    case Exit => ExitFiles(s, i);
    case Fault(trap) => ExitFiles(s, i);
    case Clone(_, _, _, _) =>
    case Signal(_, _) =>
    case Alarm(_) =>
    case UserStep(_, _) =>
  }

  /** The registers with which `p` next gets the CPU, if it does in this run. */
  ghost function Resumed(s: Sys, es: seq<Event>, p: nat): Option<Regs>
    requires Runs(s, es)
    decreases |es|
  {
    if s.cur == p && !s.halted then Some(s.cpu)
    else if es == [] then None
    else Resumed(Step(s, es[0]), es[1..], p)
  }

  lemma StaysLive(s: Sys, e: Event, p: nat)
    requires Safe(s) && Enabled(s, e) && p < |s.list| && p != s.cur && Live(s, p)
    ensures |Step(s, e).list| == |s.list| && Live(Step(s, e), p)
  {
    match e
    case Tick => PickNearest(Woken(s), s.cur);
    case Sleep(_) =>
    case Exit =>
    case Fault(_) =>
    case Clone(_, _, _, _) =>
    case Signal(_, _) =>
    case Alarm(_) =>
    case UserStep(_, _) =>
  }

  /**
    A process that is off the CPU gets it back with its saved registers, however long the run and whoever ran
    meanwhile.
   */
  lemma {:induction false} ResumedAsSaved(s: Sys, es: seq<Event>, p: nat)
    requires Safe(s) && Runs(s, es) && p < |s.list| && p != s.cur && Live(s, p)
    ensures Resumed(s, es, p) in {None, Some(s.list[p].regs)}
    decreases |es|
  {
    if es != [] {
      var t := Step(s, es[0]);
      StepFiles(s, es[0], p);
      StepSafe(s, es[0]);
      StaysLive(s, es[0], p);
      if t.cur != p && es[1..] != [] {
        ResumedAsSaved(t, es[1..], p);
      }
    }
  }

  /** A process that loses the CPU to a tick gets it back as it was, after the alarm signal if that was delivered. */
  lemma PreemptedAndResumed(s: Sys, es: seq<Event>)
    requires Safe(s) && !s.halted && Runs(TickStep(s), es) && TickStep(s).cur != s.cur
    ensures Resumed(TickStep(s), es, s.cur) in {None, Some(Rung(s).cpu)}
    ensures !AlarmFires(s.list[s.cur]) ==> Rung(s).cpu == s.cpu
  {
    assert Enabled(s, Tick) && TickStep(s) == Step(s, Tick);
    StepSafe(s, Tick);
    StepFiles(s, Tick, s.cur);
    ResumedAsSaved(TickStep(s), es, s.cur);
  }

  /**
    A process that sleeps gets every register back but rax, for which it gets its last saved value: exactly
    then is it isolated.
   */
  lemma SleptAndResumed(s: Sys, k: nat, es: seq<Event>)
    requires Safe(s) && Enabled(s, Sleep(k)) && Runs(SleepStep(s, k), es)
    ensures var r := Resumed(SleepStep(s, k), es, s.cur);
            && r in {None, Some(s.cpu.(rax := s.list[s.cur].regs.rax))}
            && (r.Some? ==> (r.value == s.cpu <==> s.cpu.rax == s.list[s.cur].regs.rax))
  {
    assert SleepStep(s, k) == Step(s, Sleep(k));
    SleepReturns(s, k, []);
    StepSafe(s, Sleep(k));
    StepFiles(s, Sleep(k), s.cur);
    ResumedAsSaved(SleepStep(s, k), es, s.cur);
  }

  /** Nothing shuts down while a process other than the current one is alive. */
  lemma StillRuns(s: Sys, e: Event, p: nat)
    requires Safe(s) && Enabled(s, e) && p < |s.list| && p != s.cur && p != 0 && Live(s, p)
    ensures !Step(s, e).halted
  {
  }

  lemma {:induction false} RunsThenResumes(s: Sys, es: seq<Event>, p: nat)
    requires Safe(s) && !s.halted && Runs(s, es) && 0 < p < |s.list| && (s.cur == p || Live(s, p))
    requires TicksToRun(s, es, p).Some?
    ensures Resumed(s, es, p).Some?
    decreases |es|
  {
    if s.cur != p {
      StepSafe(s, es[0]);
      StaysLive(s, es[0], p);
      StillRuns(s, es[0], p);
      RunsThenResumes(Step(s, es[0]), es[1..], p);
    }
  }

  /** The gap: a process whose rax is not what was last saved loses it in a sleep; ticks alone bring it back without. */
  lemma RaxLost(s: Sys, k: nat)
    requires Safe(s) && Enabled(s, Sleep(k)) && k > 0 && s.cpu.rax != s.list[s.cur].regs.rax
    ensures var es := OnlyTicks(k + |s.list| - 1);
            && Runs(SleepStep(s, k), es)
            && Resumed(SleepStep(s, k), es, s.cur).Some? && Resumed(SleepStep(s, k), es, s.cur).value.rax != s.cpu.rax
  {
    var es, t := OnlyTicks(k + |s.list| - 1), Step(s, Sleep(k));
    assert SleepStep(s, k) == t;
    StepSafe(s, Sleep(k));
    assert t.list[s.cur].state == Waiting by { SleepReturns(s, k, []); }
    OnlyTicksRun(t, k + |s.list| - 1);
    SleepReturns(s, k, es);
    RunsThenResumes(t, es, s.cur);
    SleptAndResumed(s, k, es);
  }

  function RaxState(mm: Memory, regs: Regs): Sys {
    var s := LeakState(mm, regs);
    s.(cpu := regs.(rax := regs.rax + 1))
  }

  /** Such a state: rax was changed since the process last lost the CPU. */
  lemma RaxStart(mm: Memory, regs: Regs)
    ensures var s := RaxState(mm, regs);
            Safe(s) && StacksSafe(s) && Enabled(s, Sleep(1)) && s.cpu.rax != s.list[s.cur].regs.rax
  {
  }
}
