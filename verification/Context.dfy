/** Process stacks and registers under the scheduler: src/yos/yos.c with the push and pop macros of
    src/yos/ystack.h. Addresses count 4-byte words from the base of SRAM. Exception entry and return
    follow section B1.5 of the ARMv7-M Architecture Reference Manual. */
module Context {
  import opened Scheduler
  import opened SchedulerRuns
  import opened Arith

  type Word = nat

  /** What a process sees of the processor: `callee` is r4-r11, `caller` is r0-r3, r12, lr, pc. */
  datatype Cpu = Cpu(callee: seq<Word>, caller: seq<Word>, psr: Word, psp: nat)

  predicate Regs(cpu: Cpu) {
    |cpu.callee| == 8 && |cpu.caller| == 7
  }

  /** What the model leaves open: whether exception entry aligns the stack (CCR.STKALIGN), and where
      `_yos_task_shell` and `_yos_start_error` are. */
  datatype Board = Board(align: bool, shell: Word, startError: Word)

  const PAD_BIT := 0x200
  const DUMMY_PSR := 0x0100_0000
  const FRAME := 16

  /** Bit 9 of a stacked xPSR: was a padding word inserted? */
  function Padded(psr: Word): bool {
    psr / PAD_BIT % 2 == 1
  }

  function WithPad(psr: Word, pad: bool): Word {
    var plain := if Padded(psr) then psr - PAD_BIT else psr;
    if pad then plain + PAD_BIT else plain
  }

  /** `now` has every bit of `was`, but for bit 9, which is clear. */
  predicate PsrKept(was: Word, now: Word) {
    now % 0x200 == was % 0x200 && now / 0x400 == was / 0x400 && now / 0x200 % 2 == 0
  }

  /** Stacking the padding changes bit 9 of the xPSR alone, and clearing it gives the rest back. */
  lemma PadBitIsBitNine(psr: Word, pad: bool)
    ensures var p := WithPad(psr, pad);
            && p % 0x200 == psr % 0x200 && p / 0x400 == psr / 0x400 && (p / 0x200 % 2 == 1 <==> pad)
            && PsrKept(psr, WithPad(p, false)) && (Padded(p) <==> pad)
  {
    var high, bit, low := psr / 0x400, psr / 0x200 % 2, psr % 0x200;
    PsrParts(high, bit, low);
    PsrParts(high, 0, low);
    PsrParts(high, 1, low);
    assert psr == high * 0x400 + bit * 0x200 + low;
    assert WithPad(psr, pad) == high * 0x400 + (if pad then 0x200 else 0) + low;
  }

  lemma PsrParts(high: nat, bit: nat, low: nat)
    requires bit < 2 && low < 0x200
    ensures var psr := high * 0x400 + bit * 0x200 + low;
            psr / 0x400 == high && psr / 0x200 % 2 == bit && psr % 0x200 == low
  {
    var psr := high * 0x400 + bit * 0x200 + low;
    assert psr / 0x200 == high * 2 + bit;
  }

  /** Every register and the stack pointer are the same, and the xPSR but for bit 9; all of it if bit 9
      was clear, as it reads in a running program. */
  ghost predicate SameRegisters(was: Cpu, now: Cpu) {
    && now.callee == was.callee && now.caller == was.caller && now.psp == was.psp
    && PsrKept(was.psr, now.psr) && (was.psr / 0x200 % 2 == 0 ==> now == was)
  }

  function Pad(align: bool, psp: nat): nat {
    if align && psp % 2 == 1 then 1 else 0
  }

  /** `mem` with `words` at `at`. */
  function Write(mem: seq<Word>, at: nat, words: seq<Word>): (mem': seq<Word>)
    requires at + |words| <= |mem|
    ensures |mem'| == |mem|
  {
    seq(|mem|, a requires 0 <= a < |mem| => if at <= a < at + |words| then words[a - at] else mem[a])
  }

  /** The `n` words at `at`. */
  function Words(mem: seq<Word>, at: nat, n: nat): (words: seq<Word>)
    requires at + n <= |mem|
    ensures |words| == n
  {
    seq(n, i requires 0 <= i < n => mem[at + i])
  }

  /** The words stacked by the hardware on exception entry, lowest address first. */
  function EntryFrame(align: bool, cpu: Cpu): seq<Word> {
    cpu.caller + [WithPad(cpu.psr, Pad(align, cpu.psp) == 1)]
  }

  predicate HasRoom(align: bool, cpu: Cpu, base: nat) {
    base + FRAME + Pad(align, cpu.psp) <= cpu.psp
  }

  /** `task->sp` once `r4-r11` are pushed below the hardware's frame. */
  function SavedSp(align: bool, cpu: Cpu): nat
    requires HasRoom(align, cpu, 0)
  {
    cpu.psp - Pad(align, cpu.psp) - FRAME
  }

  function Save(align: bool, mem: seq<Word>, cpu: Cpu): seq<Word>
    requires Regs(cpu) && HasRoom(align, cpu, 0) && cpu.psp <= |mem|
  {
    Write(mem, SavedSp(align, cpu), cpu.callee + EntryFrame(align, cpu))
  }

  /** Popping `r4-r11` from `sp` and returning from the exception. */
  function Restore(align: bool, mem: seq<Word>, sp: nat): Cpu
    requires sp + FRAME <= |mem|
  {
    var psr := mem[sp + 15];
    var skip := if align && Padded(psr) && sp % 2 == 0 then 1 else 0;
    Cpu(Words(mem, sp, 8), Words(mem, sp + 8, 7), WithPad(psr, false), sp + FRAME + skip)
  }

  /** Saving then restoring gives back every register, flags included, whether or not the entry had to be
      padded; and with alignment on, the frame lies on an even word. */
  lemma SaveRestore(align: bool, mem: seq<Word>, cpu: Cpu)
    requires Regs(cpu) && HasRoom(align, cpu, 0) && cpu.psp <= |mem|
    ensures SameRegisters(cpu, Restore(align, Save(align, mem, cpu), SavedSp(align, cpu)))
    ensures align ==> SavedSp(align, cpu) % 2 == 0
  {
    var sp := SavedSp(align, cpu);
    var m := Save(align, mem, cpu);
    assert Words(m, sp, 8) == cpu.callee;
    assert Words(m, sp + 8, 7) == cpu.caller;
    PadBitIsBitNine(cpu.psr, Pad(align, cpu.psp) == 1);
    assert m[sp + 15] == WithPad(cpu.psr, Pad(align, cpu.psp) == 1);
  }

  /** Restoring depends on the sixteen words of the frame alone. */
  lemma RestoreReadsFrame(align: bool, m1: seq<Word>, m2: seq<Word>, sp: nat)
    requires sp + FRAME <= |m1| && sp + FRAME <= |m2|
    requires forall a :: sp <= a < sp + FRAME ==> m1[a] == m2[a]
    ensures Restore(align, m1, sp) == Restore(align, m2, sp)
  {
    assert Words(m1, sp, 8) == Words(m2, sp, 8);
    assert Words(m1, sp + 8, 7) == Words(m2, sp + 8, 7);
  }

  /** What `_yos_init_task_stack` leaves below `bp`, lowest address first. */
  function InitialFrame(b: Board, id: nat): (f: seq<Word>)
    ensures |f| == FRAME
  {
    [0x04, 0x05, 0x06, 0x07, 0x08, 0x09, 0x10, 0x11] + [id, 0x01, 0x02, 0x03, 0x12, b.startError, b.shell] + [DUMMY_PSR]
  }

  /** A processor about to run `_yos_task_shell(id)` on an empty stack, in Thumb state and outside any
      exception. */
  predicate EntersShell(b: Board, cpu: Cpu, id: nat, bp: nat) {
    Regs(cpu) && cpu.psp == bp && cpu.psr / 0x0100_0000 % 2 == 1 && cpu.psr % 0x200 == 0
    && cpu.callee == [0x04, 0x05, 0x06, 0x07, 0x08, 0x09, 0x10, 0x11]
    && cpu.caller[1] == 0x01 && cpu.caller[2] == 0x02 && cpu.caller[3] == 0x03 && cpu.caller[4] == 0x12
    && cpu.caller[6] == b.shell && cpu.caller[5] == b.startError && cpu.caller[0] == id
  }

  lemma InitialFrameEntersShell(b: Board, mem: seq<Word>, id: nat, bp: nat)
    requires FRAME <= bp <= |mem| && Words(mem, bp - FRAME, FRAME) == InitialFrame(b, id)
    ensures EntersShell(b, Restore(b.align, mem, bp - FRAME), id, bp)
  {
    var f := Words(mem, bp - FRAME, FRAME);
    var callee := Words(mem, bp - FRAME, 8);
    assert callee[0] == f[0] && callee[1] == f[1] && callee[2] == f[2] && callee[3] == f[3];
    assert callee[4] == f[4] && callee[5] == f[5] && callee[6] == f[6] && callee[7] == f[7];
    assert callee == [0x04, 0x05, 0x06, 0x07, 0x08, 0x09, 0x10, 0x11];
    assert f[9] == mem[bp - 7] && f[10] == mem[bp - 6] && f[11] == mem[bp - 5] && f[12] == mem[bp - 4];
    assert f[8] == mem[bp - 8] && f[13] == mem[bp - 3] && f[14] == mem[bp - 2] && f[15] == mem[bp - 1];
  }

  // ----- The machine -----

  /** `sp`, `low`, `bp`, `size` are the task table's sp, min_sp_by_now, bp and stack_size. */
  datatype Machine = Machine(
    b: Board, k: Sched, sp: seq<nat>, low: seq<nat>, bp: seq<nat>, size: seq<nat>, mem: seq<Word>, cpu: Cpu)

  /** A kernel step, or the current task computing: any new registers and memory. */
  datatype COp = Kernel(op: Op) | Run(cpu: Cpu, mem: seq<Word>)

  ghost predicate Sized(m: Machine) {
    Shaped(m.k) && Regs(m.cpu) && |m.sp| == |m.low| == |m.bp| == |m.size| == |m.k.status|
  }

  function Base(m: Machine, i: nat): int
    requires i < |m.bp| && i < |m.size|
  {
    (m.bp[i] as int) - m.size[i]
  }

  /** Stack areas `i` and `j` do not overlap. */
  predicate Apart(bp: seq<nat>, size: seq<nat>, i: nat, j: nat)
    requires i < |bp| == |size| && j < |bp|
  {
    bp[i] <= (bp[j] as int) - size[j] || bp[j] <= (bp[i] as int) - size[i]
  }

  /** Stack areas lie in memory, apart from each other. */
  ghost predicate Laid(m: Machine) {
    && Sized(m)
    && (forall i :: 0 <= i < |m.bp| ==> m.size[i] <= m.bp[i] <= |m.mem|)
    && (forall i, j :: 0 <= i < |m.bp| && 0 <= j < |m.bp| && i != j ==> Apart(m.bp, m.size, i, j))
  }

  predicate IsSuspended(m: Machine, i: nat)
    requires i < |m.k.status|
  {
    i != m.k.cur && (m.k.status[i].Running? || m.k.status[i].Waiting?)
  }

  ghost predicate LowsInside(m: Machine)
    requires Sized(m)
  {
    forall i :: 0 <= i < |m.bp| ==> Base(m, i) <= m.low[i] <= m.bp[i]
  }

  /** A created task has room for its first frame, a suspended one for the frame it was left with. */
  ghost predicate FramesFit(m: Machine)
    requires Sized(m)
  {
    && (forall i :: 0 <= i < |m.bp| && m.k.status[i].Created? ==> FRAME <= m.size[i])
    && (forall i :: 0 <= i < |m.bp| && IsSuspended(m, i) ==> m.low[i] <= m.sp[i] <= m.bp[i] - FRAME)
  }

  /** A created task about to be switched to has its first frame in place. */
  ghost predicate FrameReady(m: Machine)
    requires Laid(m)
  {
    m.k.pending && m.k.status[m.k.next].Created? ==>
      var bp := m.bp[m.k.next];
      FRAME <= bp && m.sp[m.k.next] == bp - FRAME && Words(m.mem, bp - FRAME, FRAME) == InitialFrame(m.b, m.k.next)
  }

  ghost predicate CInv(m: Machine) {
    Inv(m.k) && Laid(m) && LowsInside(m) && FramesFit(m) && FrameReady(m)
  }

  /** A task writes only inside its own stack, and has left room there for its own frame when it is
      switched out. */
  ghost predicate CEnabled(m: Machine, op: COp)
    requires CInv(m)
  {
    match op
    case Kernel(kop) =>
      Enabled(m.k, kop) && (kop.PendSv? ==> HasRoom(m.b.align, m.cpu, Base(m, m.k.cur)) && m.cpu.psp <= m.bp[m.k.cur])
    case Run(cpu, mem) =>
      && Regs(cpu) && |mem| == |m.mem|
      && forall a :: 0 <= a < |mem| && !(Base(m, m.k.cur) <= a < m.bp[m.k.cur]) ==> mem[a] == m.mem[a]
  }

  /** The scheduler has moved on to `k`; a task chosen for the first time is given its first frame. */
  function Prepare(m: Machine, k: Sched): Machine
    requires k.next < |k.status| == |m.bp| == |m.sp|
    requires k.status[k.next].Created? ==> FRAME <= m.bp[k.next] <= |m.mem|
  {
    if k.pending && k.status[k.next].Created? then
      var sp := m.bp[k.next] - FRAME;
      m.(k := k, sp := m.sp[k.next := sp], mem := Write(m.mem, sp, InitialFrame(m.b, k.next)))
    else
      m.(k := k)
  }

  /** `pend_sv_handler`, with the exception entry before it and the exception return after it. */
  function Switch(m: Machine): Machine
    requires Sized(m) && HasRoom(m.b.align, m.cpu, 0) && m.cpu.psp <= |m.mem|
    requires m.k.next != m.k.cur && m.sp[m.k.next] + FRAME <= |m.mem|
  {
    var saved := SavedSp(m.b.align, m.cpu);
    var mem := Save(m.b.align, m.mem, m.cpu);
    m.(k := Step(m.k, PendSv), mem := mem, sp := m.sp[m.k.cur := saved],
       low := m.low[m.k.cur := Min(m.low[m.k.cur], saved)],
       cpu := Restore(m.b.align, mem, m.sp[m.k.next]))
  }

  ghost predicate CReady(m: Machine, op: COp) {
    CInv(m) && CEnabled(m, op)
  }

  /** A task can only be chosen in the created state if it was in it before, so it has its bp. */
  lemma ChosenCreated(m: Machine, op: Op)
    requires CInv(m) && Enabled(m.k, op) && !op.PendSv?
    ensures var k := Step(m.k, op);
            k.next < |k.status| == |m.bp| && (k.status[k.next].Created? ==> FRAME <= m.bp[k.next] <= |m.mem|)
  {
    StepKeepsInv(m.k, op);
    var k := Step(m.k, op);
    if k.status[k.next].Created? {
      assert Moves(m.k.status[k.next], k.status[k.next]);
    }
  }

  ghost function CStep(m: Machine, op: COp): Machine
    requires CReady(m, op)
  {
    if op.Run? then m.(cpu := op.cpu, mem := op.mem)
    else if op.op.PendSv? then Switch(m)
    else if IsInvocation(op.op) then ChosenCreated(m, op.op); Prepare(m, Step(m.k, op.op))
    else m.(k := Step(m.k, op.op))
  }

  /** The scheduler op that a machine op is. */
  function Projected(op: COp): Op {
    if op.Kernel? then op.op else Compute
  }

  ghost predicate SameLayout(m: Machine, m': Machine) {
    m'.b == m.b && m'.bp == m.bp && m'.size == m.size && |m'.mem| == |m.mem|
  }

  /** `m'` differs from `m` in memory only inside task `i`'s stack area. */
  ghost predicate WritesOnly(m: Machine, m': Machine, i: nat)
    requires Laid(m) && i < |m.bp|
  {
    |m'.mem| == |m.mem| && forall a :: 0 <= a < |m.mem| && !(Base(m, i) <= a < m.bp[i]) ==> m'.mem[a] == m.mem[a]
  }

  /** Task `t`'s stack area holds in `m'` what it holds in `m`. */
  ghost predicate SameStack(m: Machine, m': Machine, t: nat)
    requires Laid(m) && t < |m.bp|
  {
    |m'.mem| == |m.mem| && forall a :: Base(m, t) <= a < m.bp[t] ==> m'.mem[a] == m.mem[a]
  }

  lemma OtherStacksKept(m: Machine, m': Machine, i: nat, t: nat)
    requires Laid(m) && i < |m.bp| && t < |m.bp| && i != t && WritesOnly(m, m', i)
    ensures SameStack(m, m', t)
  {
    assert Apart(m.bp, m.size, i, t);
  }

  // ----- What each step keeps -----

  /** What a scheduler invocation may do to the statuses, as far as stacks are concerned. */
  ghost predicate Invoked(k: Sched, k': Sched) {
    && Shaped(k) && Inv(k') && |k'.status| == |k.status| && k'.cur == k.cur
    && forall i :: 0 <= i < |k.status| ==>
         && (k.status[i].Created? <==> k'.status[i].Created?)
         && (i != k.cur ==> ((k.status[i].Running? || k.status[i].Waiting?) <==> (k'.status[i].Running? || k'.status[i].Waiting?)))
  }

  lemma InvocationsAreSo(k: Sched, op: Op)
    requires Inv(k) && Enabled(k, op) && IsInvocation(op)
    ensures Invoked(k, Step(k, op))
  {
    StepKeepsInv(k, op);
  }

  /** Memory and stack pointers change for the chosen task alone, and only if it is a created one. */
  lemma PrepareTouches(m: Machine, k: Sched)
    requires Laid(m) && FramesFit(m) && Invoked(m.k, k)
    requires k.status[k.next].Created? ==> FRAME <= m.bp[k.next] <= |m.mem|
    ensures var m' := Prepare(m, k);
            && SameLayout(m, m') && Laid(m') && m'.k == k && m'.low == m.low && m'.cpu == m.cpu
            && WritesOnly(m, m', k.next) && |m'.sp| == |m.sp|
            && (forall i :: 0 <= i < |m.sp| && i != k.next ==> m'.sp[i] == m.sp[i])
            && (!k.status[k.next].Created? ==> m'.mem == m.mem && m'.sp == m.sp)
  {
    assert k.status[k.next].Created? ==> m.k.status[k.next].Created?;
  }

  lemma PrepareReadiesFrame(m: Machine, k: Sched)
    requires Laid(m) && FramesFit(m) && Invoked(m.k, k)
    requires k.status[k.next].Created? ==> FRAME <= m.bp[k.next] <= |m.mem|
    ensures Laid(Prepare(m, k)) && FrameReady(Prepare(m, k))
  {
    PrepareTouches(m, k);
    if k.pending && k.status[k.next].Created? {
      var f := InitialFrame(m.b, k.next);
      assert Words(Write(m.mem, m.bp[k.next] - FRAME, f), m.bp[k.next] - FRAME, FRAME) == f;
    }
  }

  lemma PrepareKeepsFit(m: Machine, k: Sched)
    requires Laid(m) && FramesFit(m) && Invoked(m.k, k)
    requires k.status[k.next].Created? ==> FRAME <= m.bp[k.next] <= |m.mem|
    ensures Sized(Prepare(m, k)) && FramesFit(Prepare(m, k))
  {
    PrepareTouches(m, k);
    var m' := Prepare(m, k);
    forall i | 0 <= i < |m.bp| && IsSuspended(m', i) ensures m'.low[i] <= m'.sp[i] <= m'.bp[i] - FRAME {
      assert IsSuspended(m, i);
      assert i == k.next ==> !k.status[k.next].Created?;
    }
  }

  lemma PrepareKeepsInv(m: Machine, k: Sched)
    requires CInv(m) && Invoked(m.k, k)
    requires k.status[k.next].Created? ==> FRAME <= m.bp[k.next] <= |m.mem|
    ensures CInv(Prepare(m, k))
  {
    PrepareTouches(m, k);
    PrepareKeepsFit(m, k);
    PrepareReadiesFrame(m, k);
  }

  /** What `pend_sv_handler` needs of the state it is entered in. */
  ghost predicate CanSwitch(m: Machine) {
    && Laid(m) && LowsInside(m) && HasRoom(m.b.align, m.cpu, Base(m, m.k.cur)) && m.cpu.psp <= m.bp[m.k.cur]
    && m.k.next != m.k.cur && m.sp[m.k.next] + FRAME <= m.bp[m.k.next]
  }

  lemma ReadyCanSwitch(m: Machine)
    requires CReady(m, Kernel(PendSv))
    ensures CanSwitch(m)
  {
    assert IsSuspended(m, m.k.next) || m.k.status[m.k.next].Created?;
  }

  /** A switch writes the outgoing task's stack and its stack pointer, and no other. */
  lemma SwitchTouches(m: Machine)
    requires CanSwitch(m)
    ensures var m' := Switch(m);
            && SameLayout(m, m') && Laid(m') && LowsInside(m') && m'.k == Step(m.k, PendSv)
            && WritesOnly(m, m', m.k.cur)
            && m'.sp == m.sp[m.k.cur := SavedSp(m.b.align, m.cpu)]
            && (forall i :: 0 <= i < |m.low| ==> m'.low[i] <= m.low[i])
            && (forall i :: 0 <= i < |m.low| && i != m.k.cur ==> m'.low[i] == m.low[i])
            && m'.low[m.k.cur] <= m'.sp[m.k.cur] <= m.bp[m.k.cur] - FRAME
  {
  }

  lemma SwitchKeepsFit(m: Machine)
    requires CanSwitch(m) && FramesFit(m)
    ensures Sized(Switch(m)) && FramesFit(Switch(m))
  {
    SwitchTouches(m);
    var m' := Switch(m);
    forall i | 0 <= i < |m.bp| && IsSuspended(m', i) ensures m'.low[i] <= m'.sp[i] <= m'.bp[i] - FRAME {
      assert i != m.k.cur ==> IsSuspended(m, i);
    }
  }

  lemma SwitchKeepsInv(m: Machine)
    requires CReady(m, Kernel(PendSv))
    ensures CInv(Switch(m))
  {
    ReadyCanSwitch(m);
    StepKeepsInv(m.k, PendSv);
    SwitchTouches(m);
    SwitchKeepsFit(m);
  }

  lemma ComputeKeepsFrame(m: Machine, mem: seq<Word>)
    requires Laid(m) && FramesFit(m) && FrameReady(m) && (m.k.pending ==> m.k.next != m.k.cur)
    requires WritesOnly(m, m.(mem := mem), m.k.cur)
    ensures Laid(m.(mem := mem)) && FrameReady(m.(mem := mem))
  {
    if m.k.pending && m.k.status[m.k.next].Created? {
      var bp := m.bp[m.k.next];
      OtherStacksKept(m, m.(mem := mem), m.k.cur, m.k.next);
      assert Words(mem, bp - FRAME, FRAME) == Words(m.mem, bp - FRAME, FRAME);
    }
  }

  lemma ComputeKeepsInv(m: Machine, cpu: Cpu, mem: seq<Word>)
    requires CReady(m, Run(cpu, mem))
    ensures CInv(m.(cpu := cpu, mem := mem))
  {
    var m' := m.(cpu := cpu, mem := mem);
    ComputeKeepsFrame(m, mem);
    assert FramesFit(m') by {
      forall i | 0 <= i < |m.bp| && IsSuspended(m', i) ensures m'.low[i] <= m'.sp[i] <= m'.bp[i] - FRAME {
        assert IsSuspended(m, i);
      }
    }
  }

  lemma ReturnKeepsInv(m: Machine)
    requires CReady(m, Kernel(Return))
    ensures CInv(m.(k := Step(m.k, Return)))
  {
    StepKeepsInv(m.k, Return);
    var m' := m.(k := Step(m.k, Return));
    forall i | 0 <= i < |m.bp| && IsSuspended(m', i) ensures m'.low[i] <= m'.sp[i] <= m'.bp[i] - FRAME {
      assert IsSuspended(m, i);
    }
  }

  lemma InvocationKeepsInv(m: Machine, op: Op)
    requires CReady(m, Kernel(op)) && IsInvocation(op)
    ensures CInv(CStep(m, Kernel(op))) && SameLayout(m, CStep(m, Kernel(op)))
    ensures CStep(m, Kernel(op)).k == Step(m.k, op) && CStep(m, Kernel(op)).low == m.low
  {
    InvocationsAreSo(m.k, op);
    ChosenCreated(m, op);
    PrepareTouches(m, Step(m.k, op));
    PrepareKeepsInv(m, Step(m.k, op));
  }

  /** What every step keeps of the machine, besides its invariant. */
  ghost predicate Follows(m: Machine, op: COp, m': Machine)
    requires Shaped(m.k)
  {
    && SameLayout(m, m') && m'.k == Step(m.k, Projected(op)) && |m'.low| == |m.low|
    && forall i :: 0 <= i < |m.low| ==> m'.low[i] <= m.low[i]
  }

  /** Every property of the machine's tables survives a step, and its scheduler takes that step (or
      none, for a task computing): the bounds of SchedulerRuns hold of the machine. */
  lemma CStepKeepsInv(m: Machine, op: COp)
    requires CReady(m, op)
    ensures CInv(CStep(m, op)) && Follows(m, op, CStep(m, op))
  {
    match op
    case Run(cpu, mem) => ComputeKeepsInv(m, cpu, mem);
    case Kernel(kop) =>
      if IsInvocation(kop) { InvocationKeepsInv(m, kop); }
      else if kop.PendSv? {
        SwitchKeepsInv(m);
        ReadyCanSwitch(m);
        SwitchTouches(m);
      }
      else if kop.Return? { ReturnKeepsInv(m); }
  }

  ghost predicate IsCRun(m: Machine, ops: seq<COp>)
    decreases |ops|
  {
    ops != [] ==> CReady(m, ops[0]) && IsCRun(CStep(m, ops[0]), ops[1..])
  }

  ghost function CExec(m: Machine, ops: seq<COp>): Machine
    requires IsCRun(m, ops)
    decreases |ops|
  {
    if ops == [] then m else CExec(CStep(m, ops[0]), ops[1..])
  }

  /** No state of the run has `t` current. */
  ghost predicate OffCpu(m: Machine, ops: seq<COp>, t: nat)
    requires IsCRun(m, ops)
    decreases |ops|
  {
    m.k.cur != t && (ops != [] ==> OffCpu(CStep(m, ops[0]), ops[1..], t))
  }

  /** `t` is still suspended in `m'`, with the stack pointer and the stack it has in `m`. */
  ghost predicate Spared(m: Machine, m': Machine, t: nat)
    requires Laid(m) && t < |m.bp|
  {
    && SameLayout(m, m') && Sized(m') && IsSuspended(m', t)
    && m'.sp[t] == m.sp[t] && SameStack(m, m', t)
  }

  lemma InvocationSparesSuspended(m: Machine, op: Op, t: nat)
    requires CReady(m, Kernel(op)) && IsInvocation(op) && t < |m.bp| && IsSuspended(m, t)
    ensures Spared(m, CStep(m, Kernel(op)), t)
  {
    var k := Step(m.k, op);
    InvocationsAreSo(m.k, op);
    ChosenCreated(m, op);
    PrepareTouches(m, k);
    if k.next != t { OtherStacksKept(m, Prepare(m, k), k.next, t); } else { assert !k.status[t].Created?; }
  }

  lemma SwitchSparesSuspended(m: Machine, t: nat)
    requires CanSwitch(m) && t < |m.bp| && IsSuspended(m, t) && m.k.next != t
    ensures Spared(m, Switch(m), t)
  {
    SwitchTouches(m);
    OtherStacksKept(m, Switch(m), m.k.cur, t);
  }

  /** One step by anyone else leaves a suspended task suspended and its stack as it was. */
  lemma StepSparesSuspended(m: Machine, op: COp, t: nat)
    requires CReady(m, op) && t < |m.bp| && IsSuspended(m, t) && CStep(m, op).k.cur != t
    ensures Spared(m, CStep(m, op), t)
  {
    match op
    case Run(cpu, mem) => OtherStacksKept(m, CStep(m, op), m.k.cur, t);
    case Kernel(kop) =>
      if IsInvocation(kop) {
        InvocationSparesSuspended(m, kop, t);
      } else if kop.PendSv? {
        ReadyCanSwitch(m);
        SwitchSparesSuspended(m, t);
      }
  }

  lemma SparedTwice(m: Machine, m1: Machine, m2: Machine, t: nat)
    requires Laid(m) && t < |m.bp| && Laid(m1) && Spared(m, m1, t) && Spared(m1, m2, t)
    ensures Spared(m, m2, t)
  {
    forall a | Base(m, t) <= a < m.bp[t] ensures m2.mem[a] == m.mem[a] {
      assert Base(m1, t) <= a < m1.bp[t];
    }
  }

  /** While a task is off the processor the whole of its stack is untouched, frame included. */
  lemma {:induction false} SuspendedStackIsUntouched(m: Machine, ops: seq<COp>, t: nat)
    requires CInv(m) && IsCRun(m, ops) && t < |m.bp| && IsSuspended(m, t) && OffCpu(m, ops, t)
    ensures CInv(CExec(m, ops)) && Spared(m, CExec(m, ops), t)
    decreases |ops|
  {
    if ops != [] {
      CStepKeepsInv(m, ops[0]);
      StepSparesSuspended(m, ops[0], t);
      SuspendedStackIsUntouched(CStep(m, ops[0]), ops[1..], t);
      SparedTwice(m, CStep(m, ops[0]), CExec(m, ops), t);
    }
  }

  lemma SameStackSameFrame(m: Machine, m': Machine, t: nat, sp: nat)
    requires Laid(m) && t < |m.bp| && SameStack(m, m', t)
    requires Base(m, t) <= sp <= m.bp[t] - FRAME
    ensures Restore(m.b.align, m'.mem, sp) == Restore(m.b.align, m.mem, sp)
  {
    RestoreReadsFrame(m.b.align, m'.mem, m.mem, sp);
  }

  /** Saving the outgoing task does not disturb the frame the incoming one is restored from. */
  lemma SwitchIn(m: Machine)
    requires CReady(m, Kernel(PendSv)) && IsSuspended(m, m.k.next)
    ensures Switch(m).k.cur == m.k.next
    ensures Switch(m).cpu == Restore(m.b.align, m.mem, m.sp[m.k.next])
  {
    ReadyCanSwitch(m);
    SwitchTouches(m);
    OtherStacksKept(m, Switch(m), m.k.cur, m.k.next);
    SameStackSameFrame(m, Switch(m), m.k.next, m.sp[m.k.next]);
  }

  lemma SwitchOut(m: Machine)
    requires CReady(m, Kernel(PendSv)) && (m.k.status[m.k.cur].Running? || m.k.status[m.k.cur].Waiting?)
    ensures var m' := Switch(m);
            && CInv(m') && SameLayout(m, m') && IsSuspended(m', m.k.cur)
            && SameRegisters(m.cpu, Restore(m.b.align, m'.mem, m'.sp[m.k.cur]))
  {
    SwitchKeepsInv(m);
    ReadyCanSwitch(m);
    SwitchTouches(m);
    SaveRestore(m.b.align, m.mem, m.cpu);
  }

  /** A run of `ops` from `m`, with `t` off the processor after every step, then the switch to `t`. */
  ghost predicate ReturnsAfter(m: Machine, ops: seq<COp>, t: nat)
    decreases |ops|
  {
    if ops == [] then CReady(m, Kernel(PendSv)) && m.k.next == t
    else CReady(m, ops[0]) && CStep(m, ops[0]).k.cur != t && ReturnsAfter(CStep(m, ops[0]), ops[1..], t)
  }

  /** The machine as that switch leaves it. */
  ghost function Returned(m: Machine, ops: seq<COp>, t: nat): Machine
    requires ReturnsAfter(m, ops, t)
    decreases |ops|
  {
    if ops == [] then Switch(m) else Returned(CStep(m, ops[0]), ops[1..], t)
  }

  lemma {:induction false} ReturnsToItsFrame(m: Machine, ops: seq<COp>, t: nat)
    requires CInv(m) && t < |m.bp| && IsSuspended(m, t) && ReturnsAfter(m, ops, t)
    ensures Returned(m, ops, t).k.cur == t && Returned(m, ops, t).cpu == Restore(m.b.align, m.mem, m.sp[t])
    decreases |ops|
  {
    if ops == [] {
      SwitchIn(m);
    } else {
      var m' := CStep(m, ops[0]);
      CStepKeepsInv(m, ops[0]);
      StepSparesSuspended(m, ops[0], t);
      ReturnsToItsFrame(m', ops[1..], t);
      SameStackSameFrame(m, m', t, m.sp[t]);
    }
  }

  /** Context preservation over every run: a task switched out in state `m` is given back, at its next
      switch in, exactly the registers and stack pointer it had in `m`, whatever ran between. */
  lemma {:induction false} ContextIsPreserved(m: Machine, ops: seq<COp>, t: nat)
    requires t == m.k.cur < |m.k.status| && (m.k.status[t].Running? || m.k.status[t].Waiting?)
    requires ops != [] && ops[0] == Kernel(PendSv) && ReturnsAfter(m, ops, t)
    ensures var back := Returned(m, ops, t);
            back.k.cur == t && SameRegisters(m.cpu, back.cpu)
  {
    SwitchOut(m);
    ReturnsToItsFrame(CStep(m, ops[0]), ops[1..], t);
  }

  /** In every reachable state, a task switched to in the created state starts in its shell, with its
      own id as argument and an empty stack; and it is then running. */
  lemma CreatedTaskEntersShell(m: Machine)
    requires CReady(m, Kernel(PendSv)) && m.k.status[m.k.next].Created?
    ensures var m' := CStep(m, Kernel(PendSv));
            && m'.k.cur == m.k.next && m'.k.status[m.k.next].Running?
            && EntersShell(m.b, m'.cpu, m.k.next, m.bp[m.k.next])
  {
    ReadyCanSwitch(m);
    SwitchTouches(m);
    var m' := CStep(m, Kernel(PendSv));
    var bp := m.bp[m.k.next];
    OtherStacksKept(m, m', m.k.cur, m.k.next);
    assert Words(m'.mem, bp - FRAME, FRAME) == Words(m.mem, bp - FRAME, FRAME);
    InitialFrameEntersShell(m.b, m'.mem, m.k.next, bp);
  }

  /** The mark reported by `yos_get_task_info` (bp - min_sp_by_now) never exceeds the stack's size and
      is never less than what any task off the processor is using. */
  lemma {:induction false} RunKeepsCInv(m: Machine, ops: seq<COp>)
    requires CInv(m) && IsCRun(m, ops)
    ensures var e := CExec(m, ops);
            && CInv(e) && e.bp == m.bp && e.size == m.size
            && forall i :: 0 <= i < |m.bp| ==>
                 && e.bp[i] - e.low[i] <= e.size[i]
                 && e.low[i] <= m.low[i]
                 && (IsSuspended(e, i) ==> e.bp[i] - e.sp[i] <= e.bp[i] - e.low[i])
    decreases |ops|
  {
    if ops != [] {
      CStepKeepsInv(m, ops[0]);
      RunKeepsCInv(CStep(m, ops[0]), ops[1..]);
    }
  }

  function Projection(ops: seq<COp>): seq<Op> {
    if ops == [] then [] else [Projected(ops[0])] + Projection(ops[1..])
  }

  /** Every run of the machine is, on its scheduler, a run of Scheduler: the lifecycle, bounded waiting
      and delay timing theorems of SchedulerRuns hold of it. */
  lemma {:induction false} MachineRunsAreSchedulerRuns(m: Machine, ops: seq<COp>)
    requires CInv(m) && IsCRun(m, ops)
    ensures IsRun(m.k, Projection(ops)) && Exec(m.k, Projection(ops)) == CExec(m, ops).k
    decreases |ops|
  {
    if ops != [] {
      CStepKeepsInv(m, ops[0]);
      MachineRunsAreSchedulerRuns(CStep(m, ops[0]), ops[1..]);
      RunStarts(m.k, Projected(ops[0]), Projection(ops[1..]));
    }
  }
}
