/** src/yos/yos.c in its own form: a class over the task table and the memory, updated in place. Each
    method is proved to take the step of the same name in Scheduler and Context. */
module KernelCode {
  import opened Scheduler
  import opened SchedulerRuns
  import opened Context
  import opened Arith

  /** `struct yos_task`, without function, data and name. */
  datatype Task = Task(bp: nat, sp: nat, minSp: nat, stackSize: nat, status: Status, blockTicks: nat)

  const SRAM := 20 * 1024 / 4
  const PROCESS_STACK := SRAM - 1024 / 4
  const IDLE_STACK := 128 / 4
  const NULL := -1

  function Statuses(ts: seq<Task>): seq<Status> { seq(|ts|, i requires 0 <= i < |ts| => ts[i].status) }
  function Counts(ts: seq<Task>): seq<nat> { seq(|ts|, i requires 0 <= i < |ts| => ts[i].blockTicks) }
  function Sps(ts: seq<Task>): seq<nat> { seq(|ts|, i requires 0 <= i < |ts| => ts[i].sp) }
  function Lows(ts: seq<Task>): seq<nat> { seq(|ts|, i requires 0 <= i < |ts| => ts[i].minSp) }
  function Bps(ts: seq<Task>): seq<nat> { seq(|ts|, i requires 0 <= i < |ts| => ts[i].bp) }
  function Sizes(ts: seq<Task>): seq<nat> { seq(|ts|, i requires 0 <= i < |ts| => ts[i].stackSize) }

  /** `ts'` differs from `ts` in statuses and block ticks only. */
  ghost predicate SameStacks(ts: seq<Task>, ts': seq<Task>) {
    |ts'| == |ts| && forall i :: 0 <= i < |ts| ==>
      ts'[i] == ts[i].(status := ts'[i].status, blockTicks := ts'[i].blockTicks)
  }

  lemma SameStacksSameColumns(ts: seq<Task>, ts': seq<Task>)
    requires SameStacks(ts, ts')
    ensures Sps(ts') == Sps(ts) && Lows(ts') == Lows(ts) && Bps(ts') == Bps(ts) && Sizes(ts') == Sizes(ts)
  {
    forall i | 0 <= i < |ts|
      ensures Sps(ts')[i] == Sps(ts)[i] && Lows(ts')[i] == Lows(ts)[i] && Bps(ts')[i] == Bps(ts)[i] && Sizes(ts')[i] == Sizes(ts)[i]
    {
      assert ts'[i] == ts[i].(status := ts'[i].status, blockTicks := ts'[i].blockTicks);
    }
  }

  /** `(x + 1) % YOS_MAX_TASK_COUNT` */
  function After(n: nat, x: nat): (y: nat)
    requires x < n
    ensures y == if x + 1 == n then 0 else x + 1
  {
    (x + 1) % n
  }

  /** The table once a search from `cur` has passed over everything nearer than `d`. */
  function ReapTasks(ts: seq<Task>, cur: nat, d: nat): seq<Task>
    requires cur < |ts|
  {
    seq(|ts|, i requires 0 <= i < |ts| => ts[i].(status := Reaped(ts[i].status, Ring(|ts|, cur, i), d)))
  }

  /** The table grows one reaped slot at a time. */
  lemma ReapNext(ts: seq<Task>, cur: nat, d: nat)
    requires cur < |ts| && 1 <= d < |ts|
    ensures var id := At(|ts|, cur, d);
            var now := ReapTasks(ts, cur, d);
            && now[id] == ts[id]
            && ReapTasks(ts, cur, d + 1) == if ts[id].status.Exited? then now[id := now[id].(status := Invalid)] else now
  {
  }

  lemma ReapNone(ts: seq<Task>, cur: nat)
    requires cur < |ts|
    ensures ReapTasks(ts, cur, 1) == ts
  {
  }

  lemma ReapColumns(ts: seq<Task>, cur: nat, d: nat)
    requires cur < |ts|
    ensures var ts' := ReapTasks(ts, cur, d);
            && Statuses(ts') == Reap(Statuses(ts), cur, d)
            && Counts(ts') == Counts(ts) && Sps(ts') == Sps(ts) && Lows(ts') == Lows(ts)
            && Bps(ts') == Bps(ts) && Sizes(ts') == Sizes(ts)
  {
  }

  lemma SpColumn(ts: seq<Task>, id: nat, sp: nat)
    requires id < |ts|
    ensures var ts' := ts[id := ts[id].(sp := sp)];
            && Statuses(ts') == Statuses(ts) && Counts(ts') == Counts(ts) && Lows(ts') == Lows(ts)
            && Bps(ts') == Bps(ts) && Sizes(ts') == Sizes(ts) && Sps(ts') == Sps(ts)[id := sp]
  {
  }

  lemma LowColumn(ts: seq<Task>, id: nat, low: nat)
    requires id < |ts|
    ensures var ts' := ts[id := ts[id].(minSp := low)];
            && Statuses(ts') == Statuses(ts) && Counts(ts') == Counts(ts) && Lows(ts') == Lows(ts)[id := low]
            && Bps(ts') == Bps(ts) && Sizes(ts') == Sizes(ts) && Sps(ts') == Sps(ts)
  {
  }

  lemma StatusColumn(ts: seq<Task>, id: nat, st: Status)
    requires id < |ts|
    ensures var ts' := ts[id := ts[id].(status := st)];
            && Statuses(ts') == Statuses(ts)[id := st] && Counts(ts') == Counts(ts) && Lows(ts') == Lows(ts)
            && Bps(ts') == Bps(ts) && Sizes(ts') == Sizes(ts) && Sps(ts') == Sps(ts)
  {
  }

  lemma CountColumn(ts: seq<Task>, id: nat, n: nat)
    requires id < |ts|
    ensures var ts' := ts[id := ts[id].(blockTicks := n)];
            && Statuses(ts') == Statuses(ts) && Counts(ts') == Counts(ts)[id := n] && Lows(ts') == Lows(ts)
            && Bps(ts') == Bps(ts) && Sizes(ts') == Sizes(ts) && Sps(ts') == Sps(ts)
  {
  }

  lemma WriteTwice(mem: seq<Word>, at: nat, a: seq<Word>, b: seq<Word>)
    requires at + |a| + |b| <= |mem|
    ensures Write(Write(mem, at + |a|, b), at, a) == Write(mem, at, a + b)
  {
  }

  /** A word-by-word account of memory is a write. */
  lemma WriteIs(mem: seq<Word>, mem': seq<Word>, at: nat, words: seq<Word>)
    requires at + |words| <= |mem| == |mem'|
    requires forall k :: 0 <= k < |words| ==> mem'[at + k] == words[k]
    requires forall a :: 0 <= a < |mem| && !(at <= a < at + |words|) ==> mem'[a] == mem[a]
    ensures mem' == Write(mem, at, words)
  {
    forall a | 0 <= a < |mem| ensures mem'[a] == Write(mem, at, words)[a] {
      if at <= a < at + |words| {
        assert mem'[at + (a - at)] == words[a - at] == Write(mem, at, words)[at..at + |words|][a - at];
      }
    }
  }

  /** A created task that has not run. */
  predicate IsFresh(t: Task) {
    t.status.Created? && t.blockTicks == 0 && t.sp == t.minSp == t.bp && FRAME <= t.stackSize <= t.bp
  }

  lemma PrepareIgnoresScheduler(m: Machine, k0: Sched, k: Sched)
    requires k.next < |k.status| == |m.bp| == |m.sp|
    requires k.status[k.next].Created? ==> FRAME <= m.bp[k.next] <= |m.mem|
    ensures Prepare(m.(k := k0), k) == Prepare(m, k)
  {
  }

  /** Saved, made current and restored, one after the other, is switched. */
  lemma SwitchInSteps(m: Machine, m1: Machine, m2: Machine, m3: Machine)
    requires Sized(m) && HasRoom(m.b.align, m.cpu, 0) && m.cpu.psp <= |m.mem|
    requires m.k.next != m.k.cur && m.sp[m.k.next] + FRAME <= |m.mem|
    requires var sp := SavedSp(m.b.align, m.cpu);
             m1 == m.(k := m.k.(pending := false), mem := Save(m.b.align, m.mem, m.cpu),
                      sp := m.sp[m.k.cur := sp], low := m.low[m.k.cur := Min(m.low[m.k.cur], sp)])
    requires m2 == m1.(k := m1.k.(cur := m1.k.next, status := m1.k.status[m1.k.next := Running]))
    requires m3 == m2.(cpu := Restore(m.b.align, m2.mem, m2.sp[m2.k.cur]))
    ensures m3 == Switch(m)
  {
  }

  /** Total of the stacks handed out so far. */
  function Total(sizes: seq<nat>): nat {
    if sizes == [] then 0 else Total(sizes[..|sizes| - 1]) + sizes[|sizes| - 1]
  }

  class Kernel {
    const board: Board
    const tasks: array<Task>
    const mem: array<Word>
    var stackBpForNext: nat
    var taskIdForNext: nat
    var currentTaskId: nat
    var currentTask: int
    var nextTaskId: nat
    var nextTask: int
    var tickByInterrupt: bool
    var pendSv: bool
    var cpu: Cpu

    ghost predicate Shape()
      reads this
    {
      2 <= tasks.Length && currentTaskId < tasks.Length && nextTaskId < tasks.Length && mem.Length == SRAM
    }

    /** The abstract machine this state is. */
    ghost function M(): Machine
      reads this, tasks, mem
    {
      Machine(board, Sched(Statuses(tasks[..]), Counts(tasks[..]), currentTaskId, nextTaskId, pendSv),
              Sps(tasks[..]), Lows(tasks[..]), Bps(tasks[..]), Sizes(tasks[..]), mem[..], cpu)
    }

    /** Ids and task pointers agree, and the tick flag is back at its resting value. */
    ghost predicate Valid()
      reads this
    {
      Shape() && tickByInterrupt && currentTask == currentTaskId && (pendSv ==> nextTask == nextTaskId)
    }

    // ----- Creation -----

    /** Where the next stack down from slot `i`'s starts. */
    ghost function LimitOf(i: nat): nat
      requires i < taskIdForNext <= tasks.Length
      reads this, tasks
    {
      if i + 1 < taskIdForNext then tasks[i + 1].bp else stackBpForNext
    }

    /** What holds from `yos_init` until `yos_start`: the stacks of the tasks created so far are laid
        end to end downwards from the top of the process stack area. */
    ghost predicate Unstarted()
      reads this, tasks
    {
      && Shape() && tickByInterrupt && !pendSv && Regs(cpu)
      && currentTaskId == IDLE && 1 <= taskIdForNext <= tasks.Length
      && tasks[0].bp == PROCESS_STACK
      && (forall i :: 0 <= i < taskIdForNext ==>
            IsFresh(tasks[i]) && tasks[i].bp - tasks[i].stackSize == LimitOf(i))
      && (forall i :: taskIdForNext <= i < tasks.Length ==> tasks[i] == Task(0, 0, 0, 0, Invalid, 0))
    }

    /** `yos_init`, with `n` slots */
    constructor (b: Board, n: nat)
      requires 2 <= n
      ensures Unstarted() && board == b && tasks.Length == n && taskIdForNext == 1
      ensures tasks[0].bp == (20 * 1024 - 1024) / 4 && stackBpForNext == tasks[0].bp - 128 / 4
    {
      board := b;
      tasks := new Task[n](_ => Task(0, 0, 0, 0, Invalid, 0));
      mem := new Word[SRAM](_ => 0);
      stackBpForNext := PROCESS_STACK;
      taskIdForNext := 0;
      currentTaskId, currentTask, nextTaskId, nextTask := 0, NULL, 0, NULL;
      tickByInterrupt, pendSv := true, false;
      cpu := Cpu(seq(8, _ => 0), seq(7, _ => 0), 0, 0);
      new;
      var idle := CreateSlot(IDLE_STACK);
      currentTaskId := idle;
    }

    /** The part of `yos_create_task` after its guards */
    method CreateSlot(stackSize: nat) returns (id: nat)
      requires taskIdForNext < tasks.Length && stackSize <= stackBpForNext
      modifies this`stackBpForNext, this`taskIdForNext, tasks
      ensures id == old(taskIdForNext) && taskIdForNext == id + 1
      ensures stackBpForNext == old(stackBpForNext) - stackSize
      ensures tasks[..] == old(tasks[..])[id := Task(old(stackBpForNext), old(stackBpForNext), old(stackBpForNext), stackSize, Created, 0)]
    {
      id := taskIdForNext;
      tasks[id] := tasks[id].(bp := stackBpForNext);
      tasks[id] := tasks[id].(sp := tasks[id].bp);
      tasks[id] := tasks[id].(minSp := tasks[id].sp);
      tasks[id] := tasks[id].(stackSize := stackSize);
      tasks[id] := tasks[id].(status := Created, blockTicks := 0);
      taskIdForNext := taskIdForNext + 1;
      stackBpForNext := stackBpForNext - stackSize;
    }

    /** `yos_create_task`. Stacks fit the memory left and hold at least one frame. */
    method CreateTask(hasFunc: bool, stackSize: nat) returns (ret: int)
      requires Unstarted() && stackSize < 0x1_0000 / 4
      requires hasFunc && stackSize != 0 && taskIdForNext < tasks.Length ==> FRAME <= stackSize <= stackBpForNext
      modifies this`stackBpForNext, this`taskIdForNext, tasks
      ensures Unstarted()
      ensures !hasFunc || stackSize == 0 || old(taskIdForNext) == tasks.Length ==>
                ret == -1 && tasks[..] == old(tasks[..]) && taskIdForNext == old(taskIdForNext) && stackBpForNext == old(stackBpForNext)
      ensures hasFunc && stackSize != 0 && old(taskIdForNext) < tasks.Length ==>
                && ret == old(taskIdForNext) && taskIdForNext == ret + 1
                && stackBpForNext == old(stackBpForNext) - stackSize
                && tasks[..] == old(tasks[..])[ret := Task(old(stackBpForNext), old(stackBpForNext), old(stackBpForNext), stackSize, Created, 0)]
    {
      if !hasFunc || stackSize == 0 || taskIdForNext >= tasks.Length {
        return -1;
      }
      ret := CreateSlot(stackSize);
    }

    /** The stacks tile the area: they are pairwise disjoint, and together they are exactly what
        `stack_bp_for_next_task` has come down by. */
    lemma StacksTile()
      requires Unstarted()
      ensures forall i, j :: 0 <= i < j < tasks.Length ==> tasks[j].bp <= tasks[i].bp - tasks[i].stackSize
      ensures Total(Sizes(tasks[..taskIdForNext])) == PROCESS_STACK - stackBpForNext
    {
      forall i, j | 0 <= i < j < tasks.Length ensures tasks[j].bp <= tasks[i].bp - tasks[i].stackSize {
        if j < taskIdForNext { StacksDescend(i, j); }
      }
      SizesTotal(taskIdForNext);
    }

    lemma {:induction false} StacksDescend(i: nat, j: nat)
      requires Unstarted() && i < j < taskIdForNext
      ensures tasks[j].bp <= tasks[i].bp - tasks[i].stackSize
      decreases j
    {
      if i + 1 < j {
        StacksDescend(i, j - 1);
        assert tasks[j - 1].bp - tasks[j - 1].stackSize == tasks[j].bp;
      }
    }

    lemma {:induction false} SizesTotal(n: nat)
      requires Unstarted() && n <= taskIdForNext
      ensures Total(Sizes(tasks[..n])) == PROCESS_STACK - (if n < taskIdForNext then tasks[n].bp else stackBpForNext)
    {
      if n > 0 {
        SizesTotal(n - 1);
        assert Sizes(tasks[..n])[..n - 1] == Sizes(tasks[..n - 1]);
        assert tasks[n - 1].status.Created?;
      }
    }

    /** `_yos_init_task_stack` */
    method InitTaskStack(id: nat)
      requires id < tasks.Length && FRAME <= tasks[id].bp <= mem.Length
      modifies mem, tasks
      ensures mem[..] == Write(old(mem[..]), old(tasks[id]).bp - FRAME, InitialFrame(board, id))
      ensures tasks[..] == old(tasks[..])[id := old(tasks[id]).(sp := old(tasks[id]).bp - FRAME)]
    {
      ghost var was := mem[..];
      var sp := PushEntryFrame(id, tasks[id].bp);
      sp := PushCalleeFrame(id, sp);
      var callee := InitialFrame(board, id)[..8];
      WriteTwice(was, sp, callee, InitialFrame(board, id)[8..]);
      assert InitialFrame(board, id) == callee + InitialFrame(board, id)[8..];
      tasks[id] := tasks[id].(sp := sp);
    }

    /** The pushes of `_yos_init_task_stack` that exception return will pop */
    method PushEntryFrame(id: nat, bp: nat) returns (sp: nat)
      requires 8 <= bp <= mem.Length
      modifies mem
      ensures sp == bp - 8 && mem[..] == Write(old(mem[..]), sp, InitialFrame(board, id)[8..])
    {
      sp := bp;
      sp := sp - 1; mem[sp] := DUMMY_PSR;
      sp := sp - 1; mem[sp] := board.shell;
      sp := sp - 1; mem[sp] := board.startError;
      sp := sp - 1; mem[sp] := 0x12;
      sp := sp - 1; mem[sp] := 0x03;
      sp := sp - 1; mem[sp] := 0x02;
      sp := sp - 1; mem[sp] := 0x01;
      sp := sp - 1; mem[sp] := id;
      WriteIs(old(mem[..]), mem[..], sp, InitialFrame(board, id)[8..]);
    }

    /** The pushes of `_yos_init_task_stack` that `pend_sv_handler` will pop */
    method PushCalleeFrame(id: nat, from: nat) returns (sp: nat)
      requires 8 <= from <= mem.Length
      modifies mem
      ensures sp == from - 8 && mem[..] == Write(old(mem[..]), sp, InitialFrame(board, id)[..8])
    {
      sp := from;
      sp := sp - 1; mem[sp] := 0x11;
      sp := sp - 1; mem[sp] := 0x10;
      sp := sp - 1; mem[sp] := 0x09;
      sp := sp - 1; mem[sp] := 0x08;
      sp := sp - 1; mem[sp] := 0x07;
      sp := sp - 1; mem[sp] := 0x06;
      sp := sp - 1; mem[sp] := 0x05;
      sp := sp - 1; mem[sp] := 0x04;
      WriteIs(old(mem[..]), mem[..], sp, InitialFrame(board, id)[..8]);
    }

    // ----- Choosing -----

    /** `_find_next_task_to_run` */
    method FindNextTaskToRun() returns (id: nat)
      requires Shape()
      modifies tasks
      ensures var r := FirstRunnable(Statuses(old(tasks[..])), currentTaskId, 1);
              && id == (if r == tasks.Length then currentTaskId else At(tasks.Length, currentTaskId, r))
              && tasks[..] == ReapTasks(old(tasks[..]), currentTaskId, r)
    {
      ghost var ts := tasks[..];
      ghost var was := Statuses(ts);
      ghost var d := 1;
      ReapNone(ts, currentTaskId);
      id := After(tasks.Length, currentTaskId);
      while id != currentTaskId
        invariant 1 <= d <= tasks.Length
        invariant id == if d == tasks.Length then currentTaskId else At(tasks.Length, currentTaskId, d)
        invariant FirstRunnable(was, currentTaskId, 1) == FirstRunnable(was, currentTaskId, d)
        invariant tasks[..] == ReapTasks(ts, currentTaskId, d)
        decreases tasks.Length - d
      {
        ReapNext(ts, currentTaskId, d);
        assert tasks[id] == tasks[..][id];
        if Runnable(tasks[id].status) {
          break;
        } else if tasks[id].status.Exited? {
          tasks[id] := tasks[id].(status := Invalid);
        }
        id := After(tasks.Length, id);
        d := d + 1;
      }
    }

    /** `_update_task_block_ticks_irq` */
    method UpdateTaskBlockTicksIrq()
      requires Shape()
      modifies tasks
      ensures M() == old(M()).(k := CountDown(old(M().k)))
      ensures SameStacks(old(tasks[..]), tasks[..])
      ensures old(CreatedHaveStacks()) ==> CreatedHaveStacks()
    {
      var i := 0;
      while i < tasks.Length
        invariant 0 <= i <= tasks.Length
        invariant forall j :: 0 <= j < i ==>
          var t := old(tasks[j]);
          tasks[j] == t.(status := WokenStatus(t.status, t.blockTicks), blockTicks := WokenTicks(t.status, t.blockTicks))
        invariant forall j :: i <= j < tasks.Length ==> tasks[j] == old(tasks[j])
      {
        if tasks[i].status.Waiting? {
          if tasks[i].blockTicks > 0 {
            tasks[i] := tasks[i].(blockTicks := tasks[i].blockTicks - 1);
          }
          if tasks[i].blockTicks == 0 {
            tasks[i] := tasks[i].(status := Running);
          }
        }
        i := i + 1;
      }
      SameStacksSameColumns(old(tasks[..]), tasks[..]);
    }

    ghost predicate CreatedHaveStacks()
      reads this, tasks
    {
      forall i :: 0 <= i < tasks.Length && tasks[i].status.Created? ==> FRAME <= tasks[i].bp <= mem.Length
    }

    /** `next_task_id = _find_next_task_to_run()` */
    method ChooseNext()
      requires Shape() && CreatedHaveStacks() && !pendSv
      modifies this`nextTaskId, tasks
      ensures Shape() && M() == old(M()).(k := Select(old(M().k)).(pending := false))
      ensures tasks[nextTaskId].status.Created? ==> FRAME <= tasks[nextTaskId].bp <= mem.Length
    {
      ghost var ts := tasks[..];
      nextTaskId := FindNextTaskToRun();
      ReapColumns(ts, currentTaskId, FirstRunnable(Statuses(ts), currentTaskId, 1));
    }

    /** The second half of `sys_tick_handler`: choose, prepare and pend */
    method ScheduleTasks()
      requires Shape() && CreatedHaveStacks() && !pendSv
      modifies this`nextTaskId, this`nextTask, this`pendSv, tasks, mem
      ensures Shape() && (pendSv ==> nextTask == nextTaskId)
      ensures var k := Select(old(M().k));
              && (k.status[k.next].Created? ==> FRAME <= old(M()).bp[k.next] <= mem.Length)
              && M() == Prepare(old(M()), k)
    {
      ghost var m := M();
      ghost var k := Select(m.k);
      ChooseNext();
      assert m.bp[k.next] == Bps(tasks[..])[k.next] && k.status[k.next] == Statuses(tasks[..])[k.next];
      if nextTaskId == currentTaskId {
        return;
      } else {
        nextTask := nextTaskId;
        if tasks[nextTask].status.Created? {
          SpColumn(tasks[..], nextTaskId, tasks[nextTaskId].bp - FRAME);
          InitTaskStack(nextTaskId);
        } else if tasks[nextTask].status.Running? {
        } else {
          assert false;
        }
      }
      pendSv := true;
    }

    /** `sys_tick_handler`, for a hardware tick or a voluntary call */
    method SysTickHandler()
      requires Shape() && CreatedHaveStacks() && !pendSv
      modifies this`tickByInterrupt, this`nextTaskId, this`nextTask, this`pendSv, tasks, mem
      ensures Shape() && tickByInterrupt && (pendSv ==> nextTask == nextTaskId)
      ensures var k := old(M().k);
              var k' := Select(if old(tickByInterrupt) then CountDown(k) else k);
              && (k'.status[k'.next].Created? ==> FRAME <= old(M()).bp[k'.next] <= mem.Length)
              && M() == Prepare(old(M()), k')
    {
      ghost var m := M();
      if tickByInterrupt {
        UpdateTaskBlockTicksIrq();
      } else {
        tickByInterrupt := true;
      }
      ghost var k := M().k;
      ScheduleTasks();
      PrepareIgnoresScheduler(m, k, Select(k));
    }

    /** `_schedule_irq` */
    method ScheduleIrq()
      requires Shape() && CreatedHaveStacks() && !pendSv
      modifies this`tickByInterrupt, this`nextTaskId, this`nextTask, this`pendSv, tasks, mem
      ensures Shape() && tickByInterrupt && (pendSv ==> nextTask == nextTaskId)
      ensures var k := Select(old(M().k));
              && (k.status[k.next].Created? ==> FRAME <= old(M()).bp[k.next] <= mem.Length)
              && M() == Prepare(old(M()), k)
    {
      tickByInterrupt := false;
      SysTickHandler();
    }

    // ----- The steps -----

    /** Returned to when SysTick fires. */
    method TickInterrupt()
      requires Valid() && CReady(M(), Kernel(Tick))
      modifies this`tickByInterrupt, this`nextTaskId, this`nextTask, this`pendSv, tasks, mem
      ensures Valid() && M() == CStep(old(M()), Kernel(Tick))
    {
      CreatedTasks();
      SysTickHandler();
    }

    lemma CreatedTasks()
      requires CInv(M())
      ensures CreatedHaveStacks()
    {
      forall i | 0 <= i < tasks.Length && tasks[i].status.Created? ensures FRAME <= tasks[i].bp <= mem.Length {
        assert M().k.status[i].Created? && M().bp[i] == tasks[i].bp;
      }
    }

    /** `schedule` */
    method Schedule()
      requires Valid() && CReady(M(), Kernel(Op.Schedule))
      modifies this`tickByInterrupt, this`nextTaskId, this`nextTask, this`pendSv, tasks, mem
      ensures Valid() && M() == CStep(old(M()), Kernel(Op.Schedule))
    {
      CreatedTasks();
      ScheduleIrq();
    }

    /** `yos_task_delay` */
    method TaskDelay(n: nat)
      requires Valid() && CReady(M(), Kernel(Delay(n)))
      modifies this`tickByInterrupt, this`nextTaskId, this`nextTask, this`pendSv, tasks, mem
      ensures Valid() && M() == CStep(old(M()), Kernel(Delay(n)))
    {
      CreatedTasks();
      ghost var m := M();
      Wait(n);
      ghost var k := M().k;
      ScheduleIrq();
      PrepareIgnoresScheduler(m, k, Select(k));
    }

    /** The current task's status and block ticks, as `yos_task_delay` sets them */
    method Wait(n: nat)
      requires Shape() && currentTask == currentTaskId && CreatedHaveStacks()
      modifies tasks
      ensures var k := old(M().k);
              M() == old(M()).(k := k.(status := k.status[k.cur := Waiting], ticks := k.ticks[k.cur := n]))
      ensures CreatedHaveStacks()
    {
      StatusColumn(tasks[..], currentTaskId, Waiting);
      tasks[currentTask] := tasks[currentTask].(status := Waiting);
      CountColumn(tasks[..], currentTaskId, n);
      tasks[currentTask] := tasks[currentTask].(blockTicks := n);
    }

    /** `yos_task_msleep`. The header promises at least `ms` milliseconds; the code asks for
        max(1, ms / 10) ticks, the first of which may come at once. */
    method TaskMsleep(ms: nat)
      requires ms < 0x1_0000
      requires Valid() && CReady(M(), Kernel(Delay(Max1(ms / TICK_MS))))
      modifies this`tickByInterrupt, this`nextTaskId, this`nextTask, this`pendSv, tasks, mem
      ensures Valid() && M() == CStep(old(M()), Kernel(Delay(Max1(ms / TICK_MS))))
    {
      TaskDelay(if ms < TICK_MS then 1 else ms / TICK_MS);
    }

    /** The end of `_yos_task_shell`, before it calls `schedule` */
    method TaskReturn()
      requires Valid() && CReady(M(), Kernel(Return))
      modifies tasks
      ensures Valid() && M() == CStep(old(M()), Kernel(Return))
      ensures tasks[currentTaskId].status.Exited?
      ensures forall i :: 0 <= i < tasks.Length && i != currentTaskId ==> tasks[i] == old(tasks[i])
    {
      StatusColumn(tasks[..], currentTaskId, Exited);
      tasks[currentTask] := tasks[currentTask].(status := Exited);
    }

    /** A multiple store, lowest register to lowest address. */
    method Store(at: nat, words: seq<Word>)
      requires at + |words| <= mem.Length
      modifies mem
      ensures mem[..] == Write(old(mem[..]), at, words)
    {
      for i := 0 to |words|
        invariant forall a :: 0 <= a < mem.Length ==>
          mem[a] == if at <= a < at + i then words[a - at] else old(mem[a])
      {
        mem[at + i] := words[i];
      }
    }

    /** Exception entry and the saving half of `pend_sv_handler` */
    method SaveContext()
      requires Shape() && 0 <= currentTask == currentTaskId
      requires Regs(cpu) && HasRoom(board.align, cpu, 0) && cpu.psp <= mem.Length
      modifies tasks, mem
      ensures var m := old(M());
              var sp := SavedSp(board.align, cpu);
              M() == m.(mem := Save(board.align, m.mem, cpu), sp := m.sp[currentTaskId := sp],
                        low := m.low[currentTaskId := Min(m.low[currentTaskId], sp)])
    {
      var r0 := PushContext();
      RecordSp(r0);
    }

    method PushContext() returns (r0: nat)
      requires Regs(cpu) && HasRoom(board.align, cpu, 0) && cpu.psp <= mem.Length
      modifies mem
      ensures r0 == SavedSp(board.align, cpu) && mem[..] == Save(board.align, old(mem[..]), cpu)
    {
      ghost var was := mem[..];
      // exception entry
      var entry := EntryFrame(board.align, cpu);
      var psp := cpu.psp - Pad(board.align, cpu.psp) - |entry|;
      Store(psp, entry);
      // SAVE_PSP, SAVE_REGS_TO_STACK
      r0 := psp - |cpu.callee|;
      Store(r0, cpu.callee);
      WriteTwice(was, r0, cpu.callee, entry);
    }

    method RecordSp(r0: nat)
      requires Shape() && 0 <= currentTask == currentTaskId
      modifies tasks
      ensures var m := old(M());
              M() == m.(sp := m.sp[currentTaskId := r0], low := m.low[currentTaskId := Min(m.low[currentTaskId], r0)])
    {
      SpColumn(tasks[..], currentTaskId, r0);
      tasks[currentTask] := tasks[currentTask].(sp := r0);
      if tasks[currentTask].minSp > tasks[currentTask].sp {
        LowColumn(tasks[..], currentTaskId, r0);
        tasks[currentTask] := tasks[currentTask].(minSp := tasks[currentTask].sp);
      }
    }

    /** The restoring half of `pend_sv_handler`, and exception return */
    method RestoreContext()
      requires Shape() && 0 <= currentTask == currentTaskId && M().sp[currentTaskId] + FRAME <= mem.Length
      modifies this`cpu
      ensures M() == old(M()).(cpu := Restore(board.align, old(M()).mem, old(M()).sp[currentTaskId]))
    {
      assert M().sp[currentTaskId] == tasks[currentTaskId].sp;
      // RESTORE_REGS_FROM_STACK, RESTORE_PSP
      var r0 := tasks[currentTask].sp;
      var callee := mem[r0..r0 + 8];
      var psp := r0 + 8;
      // exception return
      var psr := mem[psp + 7];
      var top := psp + 8;
      cpu := Cpu(callee, mem[psp..psp + 7], WithPad(psr, false),
                 if board.align && Padded(psr) && top % 2 == 0 then top + 1 else top);
    }

    /** Returned to when the pended switch is taken. */
    method SwitchInterrupt()
      requires Valid() && CReady(M(), Kernel(PendSv))
      modifies this`cpu, this`currentTask, this`currentTaskId, this`pendSv, tasks, mem
      ensures Valid() && M() == CStep(old(M()), Kernel(PendSv))
    {
      PendSvHandler();
    }

    /** `pend_sv_handler`, with the exception entry before it and the exception return after it */
    method PendSvHandler()
      requires Valid() && pendSv && nextTaskId != currentTaskId && Sized(M())
      requires HasRoom(board.align, cpu, 0) && cpu.psp <= mem.Length && M().sp[nextTaskId] + FRAME <= mem.Length
      modifies this`cpu, this`currentTask, this`currentTaskId, this`pendSv, tasks, mem
      ensures Valid() && M() == Switch(old(M()))
    {
      ghost var m := M();
      pendSv := false;
      SaveContext();
      ghost var m1 := M();
      MakeCurrent();
      ghost var m2 := M();
      RestoreContext();
      SwitchInSteps(m, m1, m2, M());
    }

    /** What `pend_sv_handler` does between saving and restoring */
    method MakeCurrent()
      requires Shape() && nextTask == nextTaskId
      modifies this`currentTask, this`currentTaskId, tasks
      ensures Shape() && currentTask == currentTaskId == nextTaskId
      ensures var k := old(M().k);
              M() == old(M()).(k := k.(cur := k.next, status := k.status[k.next := Running]))
    {
      currentTask := nextTask;
      currentTaskId := nextTaskId;
      StatusColumn(tasks[..], currentTaskId, Running);
      tasks[currentTask] := tasks[currentTask].(status := Running);
    }

    // ----- Starting -----

    lemma TableIsCreated()
      requires Unstarted() && 2 <= taskIdForNext
      ensures AllCreated(tasks[..])
    {
      StacksTile();
      forall i | 0 <= i < taskIdForNext ensures IsFresh(tasks[i]) && tasks[i].bp <= SRAM {
        if i > 0 { StacksDescend(0, i); }
      }
    }

    /** The first search of `yos_start`, from idle: it finds task 1 and changes nothing. */
    method FirstTask() returns (id: nat)
      requires Shape() && AllCreated(tasks[..]) && currentTaskId == IDLE
      modifies tasks
      ensures id == 1 && tasks[..] == old(tasks[..])
      ensures forall i :: 0 <= i < tasks.Length ==> tasks[i] == old(tasks[i])
    {
      ghost var ts := tasks[..];
      id := FindNextTaskToRun();
      assert At(|ts|, IDLE, 1) == 1 && Statuses(ts)[1].Created?;
      NothingReaped(ts, currentTaskId, FirstRunnable(Statuses(ts), currentTaskId, 1));
      assert forall i :: 0 <= i < tasks.Length ==> tasks[i] == tasks[..][i] == ts[i];
    }

    /** The rest of `yos_start`: `first` becomes current, on a stack of its own */
    method EnterFirst(first: nat)
      requires Shape() && tickByInterrupt && !pendSv && Regs(cpu) && AllCreated(tasks[..]) && first == 1
      modifies this`cpu, this`currentTask, this`currentTaskId, this`nextTask, this`nextTaskId, tasks, mem
      ensures Valid() && CInv(M()) && currentTaskId == first
      ensures cpu.psp + 8 == M().bp[1] && (25 <= M().size[1] ==> HasRoom(board.align, cpu, Base(M(), 1)))
      ensures M().k.status == Statuses(old(tasks[..])) && M().bp == Bps(old(tasks[..]))
    {
      ghost var ts := tasks[..];
      currentTaskId := first;
      currentTask := first;
      nextTask := currentTask;
      nextTaskId := currentTaskId;
      SpColumn(ts, first, ts[first].bp - FRAME);
      InitTaskStack(currentTaskId);
      var r0 := tasks[currentTask].sp;
      cpu := cpu.(callee := mem[r0..r0 + 8], psp := r0 + 8);
      FirstState(M(), ts);
    }

    /** `yos_start` up to its call of `schedule`, with at least one task besides idle */
    method Start(timerStarts: bool)
      requires Unstarted() && 2 <= taskIdForNext
      modifies this`cpu, this`currentTask, this`currentTaskId, this`nextTask, this`nextTaskId, tasks, mem
      ensures !timerStarts ==> Unstarted() && tasks[..] == old(tasks[..]) && mem[..] == old(mem[..]) && cpu == old(cpu)
      ensures !timerStarts ==>
                && currentTask == old(currentTask) && currentTaskId == old(currentTaskId)
                && nextTask == old(nextTask) && nextTaskId == old(nextTaskId)
      ensures timerStarts ==>
                && Valid() && CInv(M()) && !pendSv && currentTaskId == 1 && M().k.status[1].Created?
                && M().k.status == Statuses(old(tasks[..])) && M().bp == Bps(old(tasks[..]))
                && cpu.psp + 8 == M().bp[1] && (25 <= M().size[1] ==> HasRoom(board.align, cpu, Base(M(), 1)))
    {
      TableIsCreated();
      var first := FirstTask();
      if !timerStarts {
        return;
      }
      EnterFirst(first);
    }
  }

  /** Before the start nothing has exited, so the first search changes nothing. */
  lemma NothingReaped(ts: seq<Task>, cur: nat, d: nat)
    requires cur < |ts| && forall i :: 0 <= i < |ts| ==> !ts[i].status.Exited?
    ensures ReapTasks(ts, cur, d) == ts
  {
  }

  /** A table as `yos_create_task` leaves it. */
  ghost predicate AllCreated(ts: seq<Task>) {
    && 2 <= |ts| && IsFresh(ts[0]) && IsFresh(ts[1])
    && (forall i :: 0 <= i < |ts| ==> (IsFresh(ts[i]) && ts[i].bp <= SRAM) || ts[i] == Task(0, 0, 0, 0, Invalid, 0))
    && (forall i, j :: 0 <= i < j < |ts| ==> ts[j].bp <= ts[i].bp - ts[i].stackSize)
  }

  /** The table `yos_start` starts from satisfies every table invariant. */
  lemma FirstState(m: Machine, ts: seq<Task>)
    requires Shaped(m.k) && Regs(m.cpu) && m.k.cur == 1 && !m.k.pending && |m.mem| == SRAM
    requires |ts| == |m.k.status| && m.k.status == Statuses(ts) && m.bp == Bps(ts) && m.size == Sizes(ts) && m.low == Lows(ts)
    requires |m.sp| == |ts|
    requires AllCreated(ts)
    ensures CInv(m)
  {
    FirstLayout(m, ts);
  }

  lemma FirstLayout(m: Machine, ts: seq<Task>)
    requires Shaped(m.k) && Regs(m.cpu) && |m.mem| == SRAM
    requires |ts| == |m.k.status| == |m.sp| && m.bp == Bps(ts) && m.size == Sizes(ts) && m.low == Lows(ts)
    requires AllCreated(ts)
    ensures Laid(m) && forall i :: 0 <= i < |ts| ==> Base(m, i) <= m.low[i] <= m.bp[i]
  {
    assert forall i :: 0 <= i < |ts| ==> m.bp[i] == ts[i].bp && m.size[i] == ts[i].stackSize && m.low[i] == ts[i].minSp;
  }
}
