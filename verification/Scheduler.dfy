/** The scheduler of src/yos/yos.c as a step function on values: who is chosen, when a
    switch is pended, when it is taken. Times and bounds over whole runs are in SchedulerRuns. */
module Scheduler {
  import opened Arith

  datatype Status = Invalid | Created | Running | Waiting | Exited

  predicate Runnable(st: Status) {
    st.Created? || st.Running?
  }

  /** `cur` and `next` are task ids (`_CURRENT_TASK_ID`, `next_task_id`); `pending` is the PendSV bit. */
  datatype Sched = Sched(status: seq<Status>, ticks: seq<nat>, cur: nat, next: nat, pending: bool)

  /** One atomic step. `Compute` is anything a task does that is not a kernel call. */
  datatype Op = Tick | Schedule | Delay(n: nat) | Return | PendSv | Compute

  const IDLE := 0

  ghost predicate Shaped(s: Sched) {
    2 <= |s.status| == |s.ticks| && s.cur < |s.status| && s.next < |s.status|
  }

  /** The slot `d` places after `a` on the ring of `n` slots. */
  function At(n: nat, a: nat, d: nat): nat
    requires a < n && d <= n
  {
    if a + d < n then a + d else a + d - n
  }

  lemma AtIsModulo(n: nat, a: nat, d: nat)
    requires a < n && d <= n
    ensures At(n, a, d) == (a + d) % n
  {
    DivModUnique(a + d, n, if a + d < n then 0 else 1, At(n, a, d));
  }

  /** How many places after `a` slot `b` is. */
  function Ring(n: nat, a: nat, b: nat): nat
    requires a < n && b < n
  {
    if a <= b then b - a else b + n - a
  }

  /** The least distance from `d` on whose slot is runnable; the ring's size when there is none. */
  function FirstRunnable(status: seq<Status>, cur: nat, d: nat): (r: nat)
    requires cur < |status| && 1 <= d <= |status|
    ensures d <= r <= |status|
    ensures forall k :: d <= k < r ==> !Runnable(status[At(|status|, cur, k)])
    ensures r < |status| ==> Runnable(status[At(|status|, cur, r)])
    decreases |status| - d
  {
    if d == |status| || Runnable(status[At(|status|, cur, d)]) then d else FirstRunnable(status, cur, d + 1)
  }

  /** An exited task passed over by a search that stopped at distance `r` becomes invalid. */
  function Reaped(st: Status, distance: nat, r: nat): Status {
    if st.Exited? && 0 < distance < r then Invalid else st
  }

  function Reap(status: seq<Status>, cur: nat, r: nat): (status': seq<Status>)
    requires cur < |status|
    ensures |status'| == |status|
  {
    seq(|status|, i requires 0 <= i < |status| => Reaped(status[i], Ring(|status|, cur, i), r))
  }

  /** The choice made by `sys_tick_handler` once the delays have been counted down. */
  function Select(s: Sched): Sched
    requires Shaped(s)
  {
    var n := |s.status|;
    var r := FirstRunnable(s.status, s.cur, 1);
    var s' := s.(status := Reap(s.status, s.cur, r));
    if r == n then s'.(next := s.cur) else s'.(next := At(n, s.cur, r), pending := true)
  }

  function WokenStatus(st: Status, ticks: nat): Status {
    if st.Waiting? && ticks <= 1 then Running else st
  }

  function WokenTicks(st: Status, ticks: nat): nat {
    if st.Waiting? && ticks > 0 then ticks - 1 else ticks
  }

  /** One hardware tick counted off every waiting task. */
  function CountDown(s: Sched): Sched
    requires Shaped(s)
  {
    s.(status := seq(|s.status|, i requires 0 <= i < |s.status| => WokenStatus(s.status[i], s.ticks[i])),
       ticks := seq(|s.status|, i requires 0 <= i < |s.status| => WokenTicks(s.status[i], s.ticks[i])))
  }

  function Step(s: Sched, op: Op): Sched
    requires Shaped(s)
  {
    match op
    case Tick => Select(CountDown(s))
    case Schedule => Select(s)
    case Delay(n) => Select(s.(status := s.status[s.cur := Waiting], ticks := s.ticks[s.cur := n]))
    case Return => s.(status := s.status[s.cur := Exited])
    case PendSv => s.(cur := s.next, status := s.status[s.next := Running], pending := false)
    case Compute => s
  }

  /** What can happen next. A pended switch is taken before the next scheduler invocation; only a
      running task delays or returns, and the idle task does neither. */
  ghost predicate Enabled(s: Sched, op: Op)
    requires Shaped(s)
  {
    match op
    case Tick => !s.pending
    case Schedule => !s.pending
    case Delay(n) => !s.pending && s.cur != IDLE && s.status[s.cur].Running? && n < 0x1_0000
    case Return => s.cur != IDLE && s.status[s.cur].Running?
    case PendSv => s.pending
    case Compute => true
  }

  predicate IsInvocation(op: Op) {
    op.Tick? || op.Schedule? || op.Delay?
  }

  /** What every reachable state satisfies. */
  ghost predicate Inv(s: Sched) {
    && Shaped(s)
    && Runnable(s.status[IDLE])
    && (s.pending ==> s.next != s.cur && Runnable(s.status[s.next]))
    && (s.pending || !s.status[s.cur].Waiting?)
    && !s.status[s.cur].Invalid?
  }

  /** The moves a status may make in one step once the kernel runs. */
  predicate Moves(a: Status, b: Status) {
    || a == b
    || (a.Created? && b.Running?)
    || (a.Running? && (b.Waiting? || b.Exited?))
    || (a.Waiting? && b.Running?)
    || (a.Exited? && b.Invalid?)
  }

  /** A task that returns is exited, and nobody else's status, nor anything else, changes. */
  lemma ReturnExits(s: Sched)
    requires Inv(s) && Enabled(s, Return)
    ensures var s' := Step(s, Return);
            && |s'.status| == |s.status| && s'.status[s.cur].Exited?
            && (forall i :: 0 <= i < |s.status| && i != s.cur ==> s'.status[i] == s.status[i])
            && s'.ticks == s.ticks && s'.cur == s.cur && s'.next == s.next && s'.pending == s.pending
  {
  }

  /** When any other task is runnable the search succeeds, and lands no further than that task. */
  lemma SelectFinds(s: Sched, t: nat)
    requires Shaped(s) && t < |s.status| && t != s.cur && Runnable(s.status[t])
    ensures Select(s).pending && Select(s).next != s.cur && Runnable(Select(s).status[Select(s).next])
    ensures Ring(|s.status|, Select(s).next, t) < Ring(|s.status|, s.cur, t)
  {
    var n := |s.status|;
    var d := Ring(n, s.cur, t);
    assert At(n, s.cur, d) == t;
    var r := FirstRunnable(s.status, s.cur, 1);
    assert r <= d;
  }

  /** The search makes the exited tasks it passes over invalid, and changes no other status. */
  lemma SelectReaps(s: Sched, t: nat)
    requires Shaped(s) && t < |s.status|
    ensures var s' := Select(s);
            && |s'.status| == |s.status| && s'.next < |s.status|
            && s'.status[t] ==
                 if s.status[t].Exited? && t != s.cur
                    && (s'.next == s.cur || Ring(|s.status|, s.cur, t) < Ring(|s.status|, s.cur, s'.next))
                 then Invalid else s.status[t]
  {
  }

  /** A task that cannot run on is always switched away from, since idle never stops being runnable. */
  lemma StoppedTaskIsSwitchedAway(s: Sched)
    requires Shaped(s) && s.cur != IDLE && Runnable(s.status[IDLE])
    ensures Select(s).pending && Select(s).next != s.cur
  {
    SelectFinds(s, IDLE);
  }

  lemma StepKeepsInv(s: Sched, op: Op)
    requires Inv(s) && Enabled(s, op)
    ensures Inv(Step(s, op))
    ensures |Step(s, op).status| == |s.status|
    ensures forall i :: 0 <= i < |s.status| ==> Moves(s.status[i], Step(s, op).status[i])
  {
    if IsInvocation(op) {
      var mid := match op
        case Tick => CountDown(s)
        case Delay(n) => s.(status := s.status[s.cur := Waiting], ticks := s.ticks[s.cur := n])
        case _ => s;
      if mid.cur != IDLE {
        SelectFinds(mid, IDLE);
      }
    }
  }
}
