/** Safety and real-time bounds of the scheduler over whole runs. */
module SchedulerRuns {
  import opened Scheduler

  ghost predicate IsRun(s: Sched, ops: seq<Op>)
    requires Shaped(s)
    decreases |ops|
  {
    ops != [] ==> Enabled(s, ops[0]) && Shaped(Step(s, ops[0])) && IsRun(Step(s, ops[0]), ops[1..])
  }

  ghost function Exec(s: Sched, ops: seq<Op>): Sched
    requires Shaped(s) && IsRun(s, ops)
    decreases |ops|
  {
    if ops == [] then s else Exec(Step(s, ops[0]), ops[1..])
  }

  /** In some state of the run `t` has the processor and is able to use it. */
  ghost predicate GetsCpu(s: Sched, ops: seq<Op>, t: nat)
    requires Shaped(s) && IsRun(s, ops) && t < |s.status|
    decreases |ops|
  {
    || (s.cur == t && Runnable(s.status[t]))
    || (ops != [] && |Step(s, ops[0]).status| == |s.status| && GetsCpu(Step(s, ops[0]), ops[1..], t))
  }

  function Ticks(ops: seq<Op>): nat {
    if ops == [] then 0 else (if ops[0].Tick? then 1 else 0) + Ticks(ops[1..])
  }

  function Invocations(ops: seq<Op>): nat {
    if ops == [] then 0 else (if IsInvocation(ops[0]) then 1 else 0) + Invocations(ops[1..])
  }

  lemma {:induction false} RunKeepsInv(s: Sched, ops: seq<Op>)
    requires Inv(s) && IsRun(s, ops)
    ensures Inv(Exec(s, ops)) && |Exec(s, ops).status| == |s.status|
    decreases |ops|
  {
    if ops != [] {
      StepKeepsInv(s, ops[0]);
      RunKeepsInv(Step(s, ops[0]), ops[1..]);
    }
  }

  lemma RunStarts(s: Sched, op: Op, ops: seq<Op>)
    requires Inv(s) && Enabled(s, op) && Inv(Step(s, op)) && IsRun(Step(s, op), ops)
    ensures IsRun(s, [op] + ops) && Exec(s, [op] + ops) == Exec(Step(s, op), ops)
  {
    assert ([op] + ops)[1..] == ops;
  }

  lemma {:induction false} RunAppend(s: Sched, a: seq<Op>, b: seq<Op>)
    requires Shaped(s) && IsRun(s, a + b)
    ensures IsRun(s, a) && Shaped(Exec(s, a)) && IsRun(Exec(s, a), b)
    ensures Exec(s, a + b) == Exec(Exec(s, a), b)
    decreases |a|
  {
    if a == [] {
      assert a + b == b;
    } else {
      assert (a + b)[1..] == a[1..] + b;
      RunAppend(Step(s, a[0]), a[1..], b);
    }
  }

  // ----- Lifecycle -----

  /** In every reachable state idle is runnable, a pended switch targets another, runnable task, and a
      task that has delayed or returned cannot keep the processor past the next scheduler invocation. */
  lemma ReachableStates(s: Sched, ops: seq<Op>)
    requires Inv(s) && IsRun(s, ops)
    ensures var e := Exec(s, ops);
            && Shaped(e)
            && Runnable(e.status[IDLE])
            && (e.pending ==> e.next != e.cur && Runnable(e.status[e.next]))
            && (e.status[e.cur].Waiting? ==> e.pending)
            && (e.status[e.cur].Exited? && !e.pending ==>
                 forall op :: op == Tick || op == Schedule ==> Step(e, op).pending && Step(e, op).next != e.cur)
            && (forall n :: Enabled(e, Delay(n)) ==> Step(e, Delay(n)).pending && Step(e, Delay(n)).next != e.cur)
  {
    RunKeepsInv(s, ops);
    var e := Exec(s, ops);
    if e.cur != IDLE && !e.pending {
      StoppedTaskIsSwitchedAway(e);
      StoppedTaskIsSwitchedAway(CountDown(e));
      forall n | Enabled(e, Delay(n)) ensures Step(e, Delay(n)).pending && Step(e, Delay(n)).next != e.cur {
        StoppedTaskIsSwitchedAway(e.(status := e.status[e.cur := Waiting], ticks := e.ticks[e.cur := n]));
      }
    }
  }

  ghost predicate Gone(s: Sched, t: nat)
    requires Shaped(s) && t < |s.status|
  {
    s.cur != t && (s.status[t].Exited? || s.status[t].Invalid?)
  }

  /** A task that has exited (or never existed) and lost the processor never has it again. */
  lemma {:induction false} ExitedNeverRunsAgain(s: Sched, ops: seq<Op>, t: nat)
    requires Inv(s) && IsRun(s, ops) && t < |s.status| && Gone(s, t)
    ensures |Exec(s, ops).status| == |s.status| && Shaped(Exec(s, ops)) && Gone(Exec(s, ops), t)
    decreases |ops|
  {
    if ops != [] {
      StepKeepsInv(s, ops[0]);
      ExitedNeverRunsAgain(Step(s, ops[0]), ops[1..], t);
    }
  }

  /** An exited task that is still current loses the processor with the next switch, for good. */
  lemma {:induction false} ExitedLosesCpu(s: Sched, ops: seq<Op>, t: nat)
    requires Inv(s) && IsRun(s, ops) && t < |s.status| && s.cur == t && s.status[t].Exited?
    ensures var e := Exec(s, ops);
            && Shaped(e) && |e.status| == |s.status|
            && if PendSv in ops then Gone(e, t) else e.cur == t && e.status[t].Exited?
    decreases |ops|
  {
    if ops != [] {
      StepKeepsInv(s, ops[0]);
      if ops[0].PendSv? {
        ExitedNeverRunsAgain(Step(s, ops[0]), ops[1..], t);
      } else {
        ExitedLosesCpu(Step(s, ops[0]), ops[1..], t);
      }
    }
  }

  /** A task that returns is never current again once it has been switched away from: not in any later
      state of any run. */
  lemma ReturnedNeverRunsAgain(s: Sched, ops: seq<Op>)
    requires Inv(s) && Enabled(s, Return) && Shaped(Step(s, Return)) && IsRun(Step(s, Return), ops) && PendSv in ops
    ensures var e := Exec(Step(s, Return), ops);
            && |e.status| == |s.status| && e.cur != s.cur
            && (e.status[s.cur].Exited? || e.status[s.cur].Invalid?)
  {
    ReturnExits(s);
    StepKeepsInv(s, Return);
    ExitedLosesCpu(Step(s, Return), ops, s.cur);
  }

  // ----- Bounded waiting -----

  /** The task that has, or has been promised, the processor. */
  function Chosen(s: Sched): nat {
    if s.pending then s.next else s.cur
  }

  /** What one step does to the ring distance of a waiting but runnable task. */
  lemma StepNearsTask(s: Sched, op: Op, t: nat)
    requires Inv(s) && Enabled(s, op) && t < |s.status| && t != s.cur && Runnable(s.status[t])
    ensures Inv(Step(s, op)) && |Step(s, op).status| == |s.status| && Runnable(Step(s, op).status[t])
    ensures Ring(|s.status|, Chosen(Step(s, op)), t) + (if IsInvocation(op) then 1 else 0)
         <= Ring(|s.status|, Chosen(s), t)
  {
    StepKeepsInv(s, op);
    match op
    case Tick => SelectFinds(CountDown(s), t);
    case Schedule => SelectFinds(s, t);
    case Delay(n) => SelectFinds(s.(status := s.status[s.cur := Waiting], ticks := s.ticks[s.cur := n]), t);
    case _ =>
  }

  /** A runnable task gets the processor within as many scheduler invocations as it is places away
      from the task chosen now, whatever the other tasks do. */
  lemma {:induction false} BoundedWaitingFrom(s: Sched, ops: seq<Op>, t: nat)
    requires Inv(s) && IsRun(s, ops) && t < |s.status| && Runnable(s.status[t])
    requires !Exec(s, ops).pending
    requires Ring(|s.status|, Chosen(s), t) <= Invocations(ops)
    ensures GetsCpu(s, ops, t)
    decreases |ops|
  {
    if s.cur != t && ops != [] {
      StepNearsTask(s, ops[0], t);
      BoundedWaitingFrom(Step(s, ops[0]), ops[1..], t);
    }
  }

  /** N - 1 scheduler invocations are always enough. */
  lemma BoundedWaiting(s: Sched, ops: seq<Op>, t: nat)
    requires Inv(s) && IsRun(s, ops) && t < |s.status| && Runnable(s.status[t])
    requires !Exec(s, ops).pending && |s.status| - 1 <= Invocations(ops)
    ensures GetsCpu(s, ops, t)
  {
    BoundedWaitingFrom(s, ops, t);
  }

  /** The bound is tight: with every slot runnable, the task just behind the current one waits for
      N - 1 invocations, so N - 2 are not enough. */
  lemma BoundIsTight(n: nat)
    requires 2 <= n
    ensures exists s: Sched, ops: seq<Op>, t: nat ::
              && Inv(s) && |s.status| == n && IsRun(s, ops) && t < n && Runnable(s.status[t])
              && !Exec(s, ops).pending && Invocations(ops) == n - 2 && !GetsCpu(s, ops, t)
  {
    var s := Sched(seq(n, _ => Running), seq(n, _ => 0), 0, 0, false);
    TourFrom(s, n - 2);
    assert Inv(s) && |s.status| == n && n - 1 < n && Runnable(s.status[n - 1]);
  }

  /** `k` voluntary calls to `schedule`, each followed by its switch. */
  function Tour(k: nat): seq<Op> {
    if k == 0 then [] else [Schedule, PendSv] + Tour(k - 1)
  }

  ghost predicate AllRunning(s: Sched) {
    Inv(s) && !s.pending && forall i :: 0 <= i < |s.status| ==> s.status[i].Running?
  }

  lemma {:induction false} TourFrom(s: Sched, k: nat)
    requires AllRunning(s) && s.cur + k + 1 < |s.status|
    ensures IsRun(s, Tour(k)) && !Exec(s, Tour(k)).pending && Invocations(Tour(k)) == k
    ensures !GetsCpu(s, Tour(k), |s.status| - 1)
    decreases k
  {
    if k > 0 {
      var t := Tour(k);
      var s1 := Step(s, Schedule);
      assert s1.status == s.status && s1.next == s.cur + 1;
      var s2 := Step(s1, PendSv);
      assert s2.status == s.status;
      TourFrom(s2, k - 1);
      assert t[0] == Schedule && t[1..][0] == PendSv && t[1..][1..] == Tour(k - 1);
      assert IsRun(s1, t[1..]);
    }
  }

  // ----- Delays -----

  function Max1(n: nat): nat {
    if n == 0 then 1 else n
  }

  lemma StepWhileWaiting(s: Sched, op: Op, t: nat)
    requires Inv(s) && Enabled(s, op) && t < |s.status| && s.status[t].Waiting?
    ensures var s' := Step(s, op);
            && Inv(s') && |s'.status| == |s.status|
            && (op.Tick? && s.ticks[t] <= 1 ==> s'.status[t].Running? && s.cur != t && s'.cur != t)
            && (!(op.Tick? && s.ticks[t] <= 1) ==>
                 s'.status[t].Waiting? && s'.ticks[t] == s.ticks[t] - if op.Tick? then 1 else 0)
            && (op.PendSv? || s.cur != t ==> s'.cur != t)
  {
    StepKeepsInv(s, op);
  }

  /** Up to its last tick the task stays waiting, keeps an exact count of the ticks left, and never
      has the processor once the switch its delay pended has been taken. */
  lemma {:induction false} StaysWaiting(s: Sched, ops: seq<Op>, t: nat)
    requires Inv(s) && IsRun(s, ops) && t < |s.status| && s.status[t].Waiting?
    requires Ticks(ops) < Max1(s.ticks[t])
    ensures var e := Exec(s, ops);
            && Inv(e) && |e.status| == |s.status|
            && e.status[t].Waiting?
            && e.ticks[t] == s.ticks[t] - Ticks(ops)
            && (s.cur != t || PendSv in ops ==> e.cur != t)
    decreases |ops|
  {
    if ops != [] {
      StepWhileWaiting(s, ops[0], t);
      StaysWaiting(Step(s, ops[0]), ops[1..], t);
    }
  }

  /** The state a call `yos_task_delay(n)` by the current task leaves behind. */
  lemma DelayStarts(s: Sched, n: nat)
    requires Inv(s) && Enabled(s, Delay(n))
    ensures var d := Step(s, Delay(n));
            && Inv(d) && |d.status| == |s.status|
            && d.pending && d.next != s.cur && d.cur == s.cur
            && d.status[s.cur].Waiting? && d.ticks[s.cur] == n
  {
    StepKeepsInv(s, Delay(n));
  }

  /** Delay timing, exactly: whatever else happens, the caller of `yos_task_delay(n)` is waiting (and
      off the processor, the switch once taken) while fewer than max(1, n) hardware ticks have
      passed, and the max(1, n)-th tick itself makes it runnable. */
  lemma DelayIsExact(s: Sched, n: nat, ops: seq<Op>)
    requires Inv(s) && Enabled(s, Delay(n)) && Shaped(Step(s, Delay(n)))
    requires IsRun(Step(s, Delay(n)), ops)
    ensures var t := s.cur;
            var e := Exec(Step(s, Delay(n)), ops);
            && Inv(e) && |e.status| == |s.status|
            && (Ticks(ops) < Max1(n) ==> e.status[t].Waiting? && (PendSv in ops ==> e.cur != t))
            && (Ticks(ops) == Max1(n) - 1 && Enabled(e, Tick) ==> Step(e, Tick).status[t].Running?)
  {
    DelayStarts(s, n);
    RunKeepsInv(Step(s, Delay(n)), ops);
    if Ticks(ops) < Max1(n) {
      StaysWaiting(Step(s, Delay(n)), ops, s.cur);
      if Enabled(Exec(Step(s, Delay(n)), ops), Tick) {
        StepWhileWaiting(Exec(Step(s, Delay(n)), ops), Tick, s.cur);
      }
    }
  }

  lemma {:induction false} TicksAreInvocations(ops: seq<Op>)
    ensures Ticks(ops) <= Invocations(ops)
  {
    if ops != [] { TicksAreInvocations(ops[1..]); }
  }

  /** A waiting task has the processor by its waking tick plus N - 2 more. */
  lemma {:induction false} WaiterGetsCpu(s: Sched, ops: seq<Op>, t: nat)
    requires Inv(s) && IsRun(s, ops) && t < |s.status| && s.status[t].Waiting?
    requires !Exec(s, ops).pending
    requires Max1(s.ticks[t]) + |s.status| - 2 <= Ticks(ops)
    ensures GetsCpu(s, ops, t)
    decreases |ops|
  {
    var s' := Step(s, ops[0]);
    StepWhileWaiting(s, ops[0], t);
    if s'.status[t].Waiting? {
      WaiterGetsCpu(s', ops[1..], t);
    } else {
      SelectFinds(CountDown(s), t);
      TicksAreInvocations(ops[1..]);
      BoundedWaitingFrom(s', ops[1..], t);
    }
  }

  /** Delay deadline: the caller of `yos_task_delay(n)` has the processor again no later than hardware
      tick max(1, n) + N - 2. With DelayIsExact this is never before tick max(1, n). */
  lemma DelayDeadline(s: Sched, n: nat, ops: seq<Op>)
    requires Inv(s) && Enabled(s, Delay(n)) && Shaped(Step(s, Delay(n)))
    requires IsRun(Step(s, Delay(n)), ops) && !Exec(Step(s, Delay(n)), ops).pending
    requires Max1(n) + |s.status| - 2 <= Ticks(ops)
    ensures |Step(s, Delay(n)).status| == |s.status| && GetsCpu(Step(s, Delay(n)), ops, s.cur)
  {
    DelayStarts(s, n);
    WaiterGetsCpu(Step(s, Delay(n)), ops, s.cur);
  }

  // ----- Sleeping -----

  const TICK_MS := 10

  /** From a call of `yos_task_delay(n)` in state `s`, through `ops`, to its return: the caller has been
      switched away from and has the processor again. */
  ghost predicate Sleeps(s: Sched, n: nat, ops: seq<Op>) {
    && Inv(s) && Enabled(s, Delay(n)) && Shaped(Step(s, Delay(n)))
    && IsRun(Step(s, Delay(n)), ops) && PendSv in ops
    && Exec(Step(s, Delay(n)), ops).cur == s.cur
  }

  /** A delay never returns before its max(1, n)-th tick. */
  lemma SleepsWholeTicks(s: Sched, n: nat, ops: seq<Op>)
    requires Sleeps(s, n, ops)
    ensures Max1(n) <= Ticks(ops)
  {
    DelayIsExact(s, n, ops);
  }

  function TicksThenSwitch(k: nat): seq<Op> {
    if k == 0 then [PendSv] else [Tick] + TicksThenSwitch(k - 1)
  }

  /** Idle has the processor and task 1 waits. */
  function Sleeping(left: nat): Sched {
    Sched([Running, Waiting], [0, left], 0, 0, false)
  }

  lemma TickWhileSleeping(left: nat)
    ensures 2 <= left ==> Step(Sleeping(left), Tick) == Sleeping(left - 1)
    ensures left <= 1 ==> Step(Sleeping(left), Tick) == Sched([Running, Running], [0, 0], 0, 1, true)
  {
    var s := CountDown(Sleeping(left));
    assert s.status == [Running, if left <= 1 then Running else Waiting];
    assert s.ticks == [0, if left == 0 then 0 else left - 1];
    assert Reap(s.status, 0, FirstRunnable(s.status, 0, 1)) == s.status;
  }

  /** Woken by its last tick and switched to at once. */
  lemma {:induction false} SleepsItOut(left: nat, k: nat)
    requires k == Max1(left)
    ensures IsRun(Sleeping(left), TicksThenSwitch(k)) && Ticks(TicksThenSwitch(k)) == k
    ensures Exec(Sleeping(left), TicksThenSwitch(k)).cur == 1
    decreases k
  {
    var ops := TicksThenSwitch(k);
    TickWhileSleeping(left);
    assert ops[0] == Tick && ops[1..] == TicksThenSwitch(k - 1);
    if left >= 2 {
      SleepsItOut(left - 1, k - 1);
    } else {
      var awake := Step(Sleeping(left), Tick);
      assert TicksThenSwitch(0)[0] == PendSv && TicksThenSwitch(0)[1..] == [];
      assert IsRun(awake, [PendSv]);
    }
  }

  /** And it may return with exactly that tick: here the two tasks are the caller and idle. */
  lemma ShortestSleep(n: nat) returns (s: Sched, ops: seq<Op>)
    requires n < 0x1_0000
    ensures Sleeps(s, n, ops) && Ticks(ops) == Max1(n)
  {
    s := Sched([Running, Running], [0, 0], 1, 0, false);
    var d := Step(s, Delay(n));
    assert d == Sched([Running, Waiting], [0, n], 1, 0, true) by {
      var w := s.(status := [Running, Waiting], ticks := [0, n]);
      assert s.status[1 := Waiting] == w.status && s.ticks[1 := n] == w.ticks;
      assert Reap(w.status, 1, FirstRunnable(w.status, 1, 1)) == w.status;
    }
    assert Step(d, PendSv) == Sleeping(n) by { assert d.status[0 := Running] == d.status; }
    var k := Max1(n);
    SleepsItOut(n, k);
    ops := [PendSv] + TicksThenSwitch(k);
    assert ops[0] == PendSv && ops[1..] == TicksThenSwitch(k);
  }

  /** The least time a sleep over `ops` takes when called `phase` milliseconds after a hardware tick: it
      ends with or after the last tick. */
  function Slept(ops: seq<Op>, phase: real): real {
    (Ticks(ops) * TICK_MS) as real - phase
  }

  ghost predicate IsPhase(phase: real) {
    0.0 <= phase < TICK_MS as real
  }

  /** Every call of `yos_task_msleep(ms)` made at `phase`, in any state and however its run goes on, has
      slept at least `ms` milliseconds when it returns. */
  ghost predicate Guaranteed(ms: nat, phase: real) {
    forall s, ops :: Sleeps(s, Max1(ms / TICK_MS), ops) ==> Slept(ops, phase) >= ms as real
  }

  lemma GuaranteedWhen(ms: nat, phase: real)
    requires ms < 0x1_0000
    ensures Guaranteed(ms, phase) <==> (Max1(ms / TICK_MS) * TICK_MS) as real - phase >= ms as real
  {
    var n := Max1(ms / TICK_MS);
    var s, ops := ShortestSleep(n);
    forall s, ops | Sleeps(s, n, ops) ensures Slept(ops, phase) >= (n * TICK_MS) as real - phase {
      SleepsWholeTicks(s, n, ops);
    }
  }

  /** The header promises a sleep of at least `ms` milliseconds. For a time shorter than a tick the
      guarantee holds if and only if the call comes early enough in its tick; for a longer one, if and
      only if it is a whole number of ticks and the call comes right on a tick. Whenever the call comes,
      it holds only for 0. */
  lemma MsleepPromise(ms: nat, phase: real)
    requires ms < 0x1_0000 && IsPhase(phase)
    ensures Guaranteed(ms, phase) <==>
              if ms < TICK_MS then phase <= (TICK_MS - ms) as real else ms % TICK_MS == 0 && phase == 0.0
    ensures (forall p :: IsPhase(p) ==> Guaranteed(ms, p)) <==> ms == 0
  {
    GuaranteedWhen(ms, phase);
    if ms >= TICK_MS {
      assert ms == ms / TICK_MS * TICK_MS + ms % TICK_MS;
    }
    if ms > 0 {
      var late := TICK_MS as real - 0.5;
      GuaranteedWhen(ms, late);
      assert IsPhase(late) && !Guaranteed(ms, late);
    }
    forall p | ms == 0 && IsPhase(p) ensures Guaranteed(ms, p) { GuaranteedWhen(ms, p); }
  }

  /** A call of `yos_task_msleep(10)` halfway through a tick, and a run in which it returns after five
      milliseconds. */
  lemma MsleepFallsShort() returns (s: Sched, ops: seq<Op>)
    ensures IsPhase(5.0) && Sleeps(s, Max1(10 / TICK_MS), ops) && Slept(ops, 5.0) == 5.0 < 10.0
  {
    s, ops := ShortestSleep(1);
  }
}
