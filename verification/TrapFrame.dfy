/**
  The registers in the trap frames of `Assn3/schedule.c`: the slots that its handlers read and write, and
  the pushes and pops around the handlers that fill and empty them.
 */
module TrapFrames {
  import opened Scheduler

  // ---- Slots ----

  /** The interrupted registers as the timer handler's frame holds them: GPRs at `rsp`, the rest at `rbp`. */
  function TimerRegs(stk: seq<nat>, rsp: nat, rbp: nat): Regs
    requires rsp + 14 <= rbp && rbp + 6 <= |stk|
  {
    Regs(stk[rsp], stk[rsp + 1], stk[rsp + 2], stk[rsp + 3], stk[rsp + 4], stk[rsp + 5],
         stk[rsp + 6], stk[rsp + 7], stk[rsp + 8], stk[rsp + 9],
         stk[rsp + 10], stk[rsp + 11], stk[rsp + 12], stk[rsp + 13],
         stk[rbp], stk[rbp + 1], stk[rbp + 2], stk[rbp + 3], stk[rbp + 4], stk[rbp + 5])
  }

  /** The registers at a system call, as the entry code pushed them from `b + 2` on; rax is not among them. */
  function SyscallRegs(stk: seq<nat>, b: nat, rax: nat): Regs
    requires b + 21 <= |stk|
  {
    Regs(stk[b + 11], stk[b + 12], stk[b + 13], stk[b + 14], stk[b + 15], rax,
         stk[b + 2], stk[b + 3], stk[b + 4], stk[b + 5], stk[b + 6], stk[b + 7], stk[b + 8], stk[b + 9],
         stk[b + 10], stk[b + 16], stk[b + 17], stk[b + 18], stk[b + 19], stk[b + 20])
  }

  /** The registers that the pops from `b + 1` on and the `iretq` after them load. */
  function PoppedRegs(stk: seq<nat>, b: nat): Regs
    requires b + 21 <= |stk|
  {
    Regs(stk[b + 10], stk[b + 11], stk[b + 12], stk[b + 13], stk[b + 14], stk[b + 15],
         stk[b + 1], stk[b + 2], stk[b + 3], stk[b + 4], stk[b + 5], stk[b + 6], stk[b + 7], stk[b + 8],
         stk[b + 9], stk[b + 16], stk[b + 17], stk[b + 18], stk[b + 19], stk[b + 20])
  }

  // ---- Pushes and pops ----

  datatype Reg = Rdi | Rsi | Rdx | Rcx | Rbx | Rax | R15 | R14 | R13 | R12 | R11 | R10 | R9 | R8 | Rbp

  function Get(r: Regs, g: Reg): nat {
    match g
    case Rdi => r.rdi
    case Rsi => r.rsi
    case Rdx => r.rdx
    case Rcx => r.rcx
    case Rbx => r.rbx
    case Rax => r.rax
    case R15 => r.r15
    case R14 => r.r14
    case R13 => r.r13
    case R12 => r.r12
    case R11 => r.r11
    case R10 => r.r10
    case R9 => r.r9
    case R8 => r.r8
    case Rbp => r.rbp
  }

  function Set(r: Regs, g: Reg, x: nat): (r': Regs)
    ensures forall h :: Get(r', h) == if h == g then x else Get(r, h)
  {
    match g
    case Rdi => r.(rdi := x)
    case Rsi => r.(rsi := x)
    case Rdx => r.(rdx := x)
    case Rcx => r.(rcx := x)
    case Rbx => r.(rbx := x)
    case Rax => r.(rax := x)
    case R15 => r.(r15 := x)
    case R14 => r.(r14 := x)
    case R13 => r.(r13 := x)
    case R12 => r.(r12 := x)
    case R11 => r.(r11 := x)
    case R10 => r.(r10 := x)
    case R9 => r.(r9 := x)
    case R8 => r.(r8 := x)
    case Rbp => r.(rbp := x)
  }

  /** The stack, from its top, after pushing the registers of `order` in that order. */
  function Pushed(order: seq<Reg>, r: Regs, stack: seq<nat>): (s: seq<nat>)
    ensures |s| == |order| + |stack|
  {
    if order == [] then stack else Pushed(order[1..], r, [Get(r, order[0])] + stack)
  }

  /** The registers after popping into those of `order` in that order. */
  function Popped(order: seq<Reg>, r: Regs, stack: seq<nat>): Regs
    requires |stack| >= |order|
  {
    if order == [] then r else Popped(order[1..], Set(r, order[0], stack[0]), stack[1..])
  }

  /** `iretq` with `s` on top of the stack. */
  function Iret(r: Regs, s: seq<nat>): Regs
    requires |s| >= 5
  {
    r.(rip := s[0], cs := s[1], rflags := s[2], rsp := s[3], ss := s[4])
  }

  const TIMER_PUSHES: seq<Reg> := [R8, R9, R10, R11, R12, R13, R14, R15, Rax, Rbx, Rcx, Rdx, Rsi, Rdi]
  const TIMER_POPS: seq<Reg> := [Rdi, Rsi, Rdx, Rcx, Rbx, Rax, R15, R14, R13, R12, R11, R10, R9, R8]
  const CALL_POPS: seq<Reg> := [R15, R14, R13, R12, R11, R10, R9, R8, Rbp, Rdi, Rsi, Rdx, Rcx, Rbx, Rax]

  lemma {:induction false} PushedAt(order: seq<Reg>, r: Regs, stack: seq<nat>, i: nat)
    requires i < |order| + |stack|
    ensures Pushed(order, r, stack)[i] == if i < |order| then Get(r, order[|order| - 1 - i]) else stack[i - |order|]
    decreases |order|
  {
    if order != [] {
      PushedAt(order[1..], r, [Get(r, order[0])] + stack, i);
    }
  }

  predicate Distinct(order: seq<Reg>) {
    forall i, j :: 0 <= i < j < |order| ==> order[i] != order[j]
  }

  /** Each register popped holds its slot of the stack, the others are as before. */
  lemma {:induction false} PoppedAt(order: seq<Reg>, r: Regs, stack: seq<nat>, g: Reg)
    requires |stack| >= |order| && Distinct(order)
    ensures forall i :: 0 <= i < |order| && order[i] == g ==> Get(Popped(order, r, stack), g) == stack[i]
    ensures g !in order ==> Get(Popped(order, r, stack), g) == Get(r, g)
    decreases |order|
  {
    if order != [] {
      PoppedAt(order[1..], Set(r, order[0], stack[0]), stack[1..], g);
      forall i | 0 <= i < |order| && order[i] == g ensures Get(Popped(order, r, stack), g) == stack[i] {
        if i > 0 { assert order[1..][i - 1] == g; }
      }
    }
  }

  lemma Loaded(a: Regs, b: Regs, s: seq<nat>)
    requires forall g :: Get(a, g) == Get(b, g)
    requires |s| >= 5 && s[0] == b.rip && s[1] == b.cs && s[2] == b.rflags && s[3] == b.rsp && s[4] == b.ss
    ensures Iret(a, s) == b
  {
    assert Get(a, Rdi) == Get(b, Rdi) && Get(a, Rsi) == Get(b, Rsi) && Get(a, Rdx) == Get(b, Rdx)
           && Get(a, Rcx) == Get(b, Rcx) && Get(a, Rbx) == Get(b, Rbx) && Get(a, Rax) == Get(b, Rax)
           && Get(a, R15) == Get(b, R15) && Get(a, R14) == Get(b, R14) && Get(a, R13) == Get(b, R13)
           && Get(a, R12) == Get(b, R12) && Get(a, R11) == Get(b, R11) && Get(a, R10) == Get(b, R10)
           && Get(a, R9) == Get(b, R9) && Get(a, R8) == Get(b, R8) && Get(a, Rbp) == Get(b, Rbp);
  }

  /** Popping in the reverse order undoes any pushes of different registers. */
  lemma PopsUndoPushes(order: seq<Reg>, back: seq<Reg>, r: Regs, r': Regs, stack: seq<nat>, g: Reg)
    requires Distinct(back) && |back| == |order| && forall i :: 0 <= i < |order| ==> back[i] == order[|order| - 1 - i]
    ensures Get(Popped(back, r', Pushed(order, r, stack)), g) == Get(if g in back then r else r', g)
  {
    PoppedAt(back, r', Pushed(order, r, stack), g);
    if i :| 0 <= i < |back| && back[i] == g {
      PushedAt(order, r, stack, i);
    }
  }

  /** The frame that the handler reads is what the interrupt and the pushes at its start make of the registers. */
  lemma TimerFrame(stk: seq<nat>, rsp: nat, rbp: nat, r: Regs)
    requires rsp + 14 <= rbp && rbp + 6 <= |stk|
    requires stk[rsp..rsp + 14] == Pushed(TIMER_PUSHES, r, [])
    requires stk[rbp..rbp + 6] == [r.rbp, r.rip, r.cs, r.rflags, r.rsp, r.ss]
    ensures TimerRegs(stk, rsp, rbp) == r
  {
    var s, f := stk[rsp..rsp + 14], stk[rbp..rbp + 6];
    forall i: nat | i < 14 ensures s[i] == Get(r, TIMER_PUSHES[13 - i]) {
      PushedAt(TIMER_PUSHES, r, [], i);
    }
    assert forall i: nat :: i < 14 ==> s[i] == stk[rsp + i];
    assert f[0] == stk[rbp] && f[1] == stk[rbp + 1] && f[2] == stk[rbp + 2] && f[3] == stk[rbp + 3]
           && f[4] == stk[rbp + 4] && f[5] == stk[rbp + 5];
  }

  /** Each register that is popped holds its slot, if the slots are listed in the order of the pops. */
  lemma PoppedSlots(order: seq<Reg>, r: Regs, stack: seq<nat>, f: Regs)
    requires |stack| >= |order| && Distinct(order) && forall i :: 0 <= i < |order| ==> Get(f, order[i]) == stack[i]
    ensures forall g :: Get(Popped(order, r, stack), g) == Get(if g in order then f else r, g)
  {
    forall g ensures Get(Popped(order, r, stack), g) == Get(if g in order then f else r, g) {
      PoppedAt(order, r, stack, g);
    }
  }

  /** Which registers are popped. */
  lemma PopsAll()
    ensures forall g :: g in CALL_POPS && (g in CALL_POPS[..14] <==> g != Rax) && (g in TIMER_POPS <==> g != Rbp)
  {
    forall g ensures g in CALL_POPS && (g in CALL_POPS[..14] <==> g != Rax) && (g in TIMER_POPS <==> g != Rbp) {
      var i := match g
        case R15 => 0 case R14 => 1 case R13 => 2 case R12 => 3 case R11 => 4 case R10 => 5 case R9 => 6
        case R8 => 7 case Rbp => 8 case Rdi => 9 case Rsi => 10 case Rdx => 11 case Rcx => 12 case Rbx => 13
        case Rax => 14;
      assert CALL_POPS[i] == g;
      if i < 14 { assert CALL_POPS[..14][i] == g; }
      if i != 8 { assert TIMER_POPS[if i < 8 then i + 6 else i - 9] == g; }
    }
  }

  lemma TimerPopped(stk: seq<nat>, rsp: nat, rbp: nat, r: Regs)
    requires rsp + 14 <= rbp && rbp + 6 <= |stk|
    ensures forall g :: Get(Popped(TIMER_POPS, r, stk[rsp..]), g) ==
                        Get(if g != Rbp then TimerRegs(stk, rsp, rbp) else r, g)
  {
    var f, s := TimerRegs(stk, rsp, rbp), stk[rsp..];
    assert s[0] == f.rdi && s[1] == f.rsi && s[2] == f.rdx && s[3] == f.rcx && s[4] == f.rbx && s[5] == f.rax;
    assert s[6] == f.r15 && s[7] == f.r14 && s[8] == f.r13 && s[9] == f.r12;
    assert s[10] == f.r11 && s[11] == f.r10 && s[12] == f.r9 && s[13] == f.r8;
    PoppedSlots(TIMER_POPS, r, s, f);
    PopsAll();
  }

  /** The pops and the `iretq` at its end load what the frame then holds, whatever the handler left in the registers. */
  lemma TimerReturn(stk: seq<nat>, rsp: nat, rbp: nat, r: Regs)
    requires rsp + 14 <= rbp && rbp + 6 <= |stk|
    ensures Iret(Popped([Rbp], Popped(TIMER_POPS, r, stk[rsp..]), stk[rbp..]), stk[rbp + 1..])
            == TimerRegs(stk, rsp, rbp)
  {
    var f, p := TimerRegs(stk, rsp, rbp), Popped(TIMER_POPS, r, stk[rsp..]);
    TimerPopped(stk, rsp, rbp, r);
    PoppedSlots([Rbp], p, stk[rbp..], f);
    Loaded(Popped([Rbp], p, stk[rbp..]), f, stk[rbp + 1..]);
  }

  /** The pops at the end of `do_sleep` and `do_exit`. */
  lemma CallReturn(stk: seq<nat>, b: nat, r: Regs)
    requires b + 21 <= |stk|
    ensures Iret(Popped(CALL_POPS, r, stk[b + 1..]), stk[b + 16..]) == PoppedRegs(stk, b)
  {
    var f := PoppedRegs(stk, b);
    PoppedSlots(CALL_POPS, r, stk[b + 1..], f);
    PopsAll();
    Loaded(Popped(CALL_POPS, r, stk[b + 1..]), f, stk[b + 16..]);
  }

  lemma CallPushed(stk: seq<nat>, b: nat, r: Regs)
    requires b + 21 <= |stk|
    ensures forall g :: Get(Popped(CALL_POPS[..14], r, stk[b + 2..]), g) == Get(SyscallRegs(stk, b, r.rax), g)
  {
    var f, s, order := SyscallRegs(stk, b, r.rax), stk[b + 2..], CALL_POPS[..14];
    assert s[0] == f.r15 && s[1] == f.r14 && s[2] == f.r13 && s[3] == f.r12 && s[4] == f.r11 && s[5] == f.r10;
    assert s[6] == f.r9 && s[7] == f.r8 && s[8] == f.rbp;
    assert s[9] == f.rdi && s[10] == f.rsi && s[11] == f.rdx && s[12] == f.rcx && s[13] == f.rbx;
    assert forall i :: 0 <= i < 14 ==> order[i] == CALL_POPS[i] && Get(f, CALL_POPS[i]) == s[i];
    PoppedSlots(order, r, s, f);
    PopsAll();
  }

  /**
    The frame that a system call is saved from holds the same registers in the same order but for rax, which
    is not in it, and lies one slot higher.
   */
  lemma CallFrame(stk: seq<nat>, b: nat, r: Regs)
    requires b + 21 <= |stk|
    ensures Iret(Popped(CALL_POPS[..14], r, stk[b + 2..]), stk[b + 16..]) == SyscallRegs(stk, b, r.rax)
  {
    CallPushed(stk, b, r);
    Loaded(Popped(CALL_POPS[..14], r, stk[b + 2..]), SyscallRegs(stk, b, r.rax), stk[b + 16..]);
  }
}
