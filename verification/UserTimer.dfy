/** The software timers of src/yos/ytimer.c: a table of slots counted down by one interrupt, and an
    exact account of when each slot fires. */
module UserTimer {
  import opened Arith

  /** `struct user_timer`, without function and parameter; `hasCallback` is on_timeout != NULL. */
  datatype Timer = Timer(hasCallback: bool, remaining: nat, init: nat, autoRestart: bool, isPaused: bool, isUsed: bool)

  predicate Counting(t: Timer) {
    t.isUsed && !t.isPaused
  }

  predicate Expires(t: Timer) {
    Counting(t) && t.remaining == 0
  }

  /** One tick of the interrupt on one slot. */
  function Ticked(t: Timer): Timer {
    if !Counting(t) then t
    else if t.remaining > 0 then t.(remaining := t.remaining - 1)
    else if t.autoRestart then t.(remaining := t.init)
    else t.(isUsed := false)
  }

  /** The slots whose callbacks one tick calls, in order. */
  function Called(ts: seq<Timer>): seq<nat> {
    if ts == [] then [] else
      var n := |ts| - 1;
      Called(ts[..n]) + if Expires(ts[n]) && ts[n].hasCallback then [n] else []
  }

  /** A tick calls the callback of every slot that expires, once, in the order of the slots. */
  lemma {:induction false} CalledExactly(ts: seq<Timer>)
    ensures forall j :: j in Called(ts) <==>
              0 <= j < |ts| && ts[j].isUsed && !ts[j].isPaused && ts[j].remaining == 0 && ts[j].hasCallback
    ensures forall a, b :: 0 <= a < b < |Called(ts)| ==> Called(ts)[a] < Called(ts)[b]
    decreases |ts|
  {
    if ts != [] {
      var n := |ts| - 1;
      CalledExactly(ts[..n]);
      assert forall a :: 0 <= a < |Called(ts[..n])| ==> Called(ts[..n])[a] in Called(ts[..n]);
    }
  }

  /** The first slot not in use from `i` on, or the table's size. */
  function FirstFree(ts: seq<Timer>, i: nat): (j: nat)
    requires i <= |ts|
    ensures i <= j <= |ts|
    ensures forall k :: i <= k < j ==> ts[k].isUsed
    ensures j < |ts| ==> !ts[j].isUsed
    decreases |ts| - i
  {
    if i == |ts| || !ts[i].isUsed then i else FirstFree(ts, i + 1)
  }

  datatype TOp =
    | Tick
    | Create(timeout: nat, autoRestart: bool, hasCallback: bool)
    | Pause(id: nat)
    | Restore(id: nat)
    | Reset(id: nat, timeout: nat)
    | Destroy(id: nat)

  function Update(ts: seq<Timer>, id: nat, t: Timer): (ts': seq<Timer>)
    requires id < |ts|
    ensures |ts'| == |ts|
  {
    if ts[id].isUsed then ts[id := t] else ts
  }

  predicate IdOk(ts: seq<Timer>, op: TOp) {
    op.Tick? || op.Create? || op.id < |ts|
  }

  function TStep(ts: seq<Timer>, op: TOp): (ts': seq<Timer>)
    requires IdOk(ts, op)
    ensures |ts'| == |ts|
  {
    match op
    case Tick => seq(|ts|, i requires 0 <= i < |ts| => Ticked(ts[i]))
    case Create(timeout, auto, cb) =>
      var i := FirstFree(ts, 0);
      if i < |ts| then ts[i := Timer(cb, timeout, timeout, auto, false, true)] else ts
    case Pause(id) => Update(ts, id, ts[id].(isPaused := true))
    case Restore(id) => Update(ts, id, ts[id].(isPaused := false))
    case Reset(id, timeout) => Update(ts, id, ts[id].(remaining := timeout, init := timeout))
    case Destroy(id) => Update(ts, id, ts[id].(isUsed := false))
  }

  class Timers {
    const timers: array<Timer>

    /** `_user_timer_list_init`, for `n` slots */
    constructor (n: nat)
      ensures timers.Length == n && forall i :: 0 <= i < n ==> !timers[i].isUsed
    {
      timers := new Timer[n](_ => Timer(false, 0, 0, false, false, false));
    }

    /** `_user_timer_list_check_in_irq`; `called` lists the callbacks it calls. */
    method CheckInIrq() returns (called: seq<nat>)
      modifies timers
      ensures timers[..] == TStep(old(timers[..]), Tick) && called == Called(old(timers[..]))
    {
      called := [];
      var i := 0;
      ghost var ts := timers[..];
      while i < timers.Length
        invariant 0 <= i <= timers.Length
        invariant forall j :: 0 <= j < timers.Length ==> timers[j] == if j < i then Ticked(ts[j]) else ts[j]
        invariant called == Called(ts[..i])
      {
        assert ts[..i + 1][..i] == ts[..i];
        if timers[i].isUsed {
          if !timers[i].isPaused {
            if timers[i].remaining == 0 {
              if timers[i].hasCallback {
                called := called + [i];
              }
              if timers[i].autoRestart {
                timers[i] := timers[i].(remaining := timers[i].init);
              } else {
                timers[i] := timers[i].(isUsed := false);
              }
            } else {
              timers[i] := timers[i].(remaining := timers[i].remaining - 1);
            }
          }
        }
        i := i + 1;
      }
      assert ts[..i] == ts;
    }

    /** `user_timer_create`: the first free slot, never one in use; -1 when there is none. */
    method Create(timeout: nat, autoRestart: bool, hasCallback: bool) returns (id: int)
      modifies timers
      ensures timers[..] == TStep(old(timers[..]), TOp.Create(timeout, autoRestart, hasCallback))
      ensures id == -1 <==> forall i :: 0 <= i < timers.Length ==> old(timers[i].isUsed)
      ensures id != -1 ==>
                && 0 <= id < timers.Length && !old(timers[id].isUsed)
                && timers[id] == Timer(hasCallback, timeout, timeout, autoRestart, false, true)
    {
      id := -1;
      var i := 0;
      while i < timers.Length
        invariant 0 <= i <= timers.Length
        invariant timers[..] == old(timers[..]) && FirstFree(timers[..], 0) == FirstFree(timers[..], i)
        invariant forall j :: 0 <= j < i ==> timers[j].isUsed
      {
        if !timers[i].isUsed {
          timers[i] := Timer(hasCallback, timeout, timeout, autoRestart, false, true);
          return i;
        }
        i := i + 1;
      }
    }

    /** `_user_timer_pause_set`. The guard lets one id past the table through; it is excluded here. */
    method SetPaused(id: int, pause: bool) returns (ret: int)
      requires id != timers.Length
      modifies timers
      ensures id < 0 || id > timers.Length ==> ret == -1 && timers[..] == old(timers[..])
      ensures 0 <= id < timers.Length ==>
                ret == 0 && timers[..] == TStep(old(timers[..]), if pause then Pause(id) else Restore(id))
    {
      if id < 0 || id > timers.Length {
        return -1;
      }
      if timers[id].isUsed {
        timers[id] := timers[id].(isPaused := pause);
      }
      ret := 0;
    }

    /** `user_timer_reset` */
    method Reset(id: int, timeout: nat) returns (ret: int)
      requires id != timers.Length
      modifies timers
      ensures id < 0 || id > timers.Length ==> ret == -1 && timers[..] == old(timers[..])
      ensures 0 <= id < timers.Length ==> ret == 0 && timers[..] == TStep(old(timers[..]), TOp.Reset(id, timeout))
    {
      if id < 0 || id > timers.Length {
        return -1;
      }
      if timers[id].isUsed {
        timers[id] := timers[id].(remaining := timeout);
        timers[id] := timers[id].(init := timeout);
      }
      ret := 0;
    }

    /** `user_timer_destroy` */
    method Destroy(id: int) returns (ret: int)
      requires id != timers.Length
      modifies timers
      ensures id < 0 || id > timers.Length ==> ret == -1 && timers[..] == old(timers[..])
      ensures 0 <= id < timers.Length ==> ret == 0 && timers[..] == TStep(old(timers[..]), TOp.Destroy(id))
    {
      if id < 0 || id > timers.Length {
        return -1;
      }
      if timers[id].isUsed {
        timers[id] := timers[id].(isUsed := false);
      }
      ret := 0;
    }
  }

  // ----- Runs -----

  predicate IsTRun(ts: seq<Timer>, ops: seq<TOp>) {
    forall i :: 0 <= i < |ops| ==> IdOk(ts, ops[i])
  }

  function TExec(ts: seq<Timer>, ops: seq<TOp>): (ts': seq<Timer>)
    requires IsTRun(ts, ops)
    ensures |ts'| == |ts|
    decreases |ops|
  {
    if ops == [] then ts else TExec(TStep(ts, ops[0]), ops[1..])
  }

  /** The ticks that find slot `j` in use and not paused. */
  function CountedTicks(ts: seq<Timer>, ops: seq<TOp>, j: nat): nat
    requires IsTRun(ts, ops) && j < |ts|
    decreases |ops|
  {
    if ops == [] then 0 else
      (if ops[0].Tick? && ts[j].isUsed && !ts[j].isPaused then 1 else 0) + CountedTicks(TStep(ts, ops[0]), ops[1..], j)
  }

  /** The ticks on which slot `j` fires. */
  function Firings(ts: seq<Timer>, ops: seq<TOp>, j: nat): nat
    requires IsTRun(ts, ops) && j < |ts|
    decreases |ops|
  {
    if ops == [] then 0 else
      (if ops[0].Tick? && ts[j].isUsed && !ts[j].isPaused && ts[j].remaining == 0 then 1 else 0) + Firings(TStep(ts, ops[0]), ops[1..], j)
  }

  /** Nothing in the run resets or destroys slot `j`; it may be paused and restored, and other slots may
      be treated in any way. */
  ghost predicate Spared(ops: seq<TOp>, j: nat) {
    forall i :: 0 <= i < |ops| ==> ops[i] != Destroy(j) && !(ops[i].Reset? && ops[i].id == j)
  }

  lemma StepOfSpared(ts: seq<Timer>, op: TOp, j: nat)
    requires IdOk(ts, op) && j < |ts| && ts[j].isUsed && op != Destroy(j) && !(op.Reset? && op.id == j)
    ensures op.Tick? ==> TStep(ts, op)[j] == Ticked(ts[j])
    ensures !op.Tick? ==> TStep(ts, op)[j] == ts[j].(isPaused := TStep(ts, op)[j].isPaused)
  {
  }

  /** Counting on from a phase `p`: the number of firings and the phase reached. */
  lemma {:induction false} AutoRestartFrom(ts: seq<Timer>, ops: seq<TOp>, j: nat, p: nat) returns (p': nat)
    requires IsTRun(ts, ops) && j < |ts| && Spared(ops, j)
    requires ts[j].isUsed && ts[j].autoRestart && p <= ts[j].init && ts[j].remaining == ts[j].init - p
    ensures var t := TExec(ts, ops)[j];
            && t.isUsed && t.autoRestart && t.init == ts[j].init
            && p' <= t.init && t.remaining == t.init - p'
    ensures p + CountedTicks(ts, ops, j) == Firings(ts, ops, j) * (ts[j].init + 1) + p'
    decreases |ops|
  {
    p' := p;
    if ops != [] {
      StepOfSpared(ts, ops[0], j);
      var q := if ops[0].Tick? && Counting(ts[j]) then (if p == ts[j].init then 0 else p + 1) else p;
      p' := AutoRestartFrom(TStep(ts, ops[0]), ops[1..], j, q);
      OneMore(Firings(TStep(ts, ops[0]), ops[1..], j), ts[j].init + 1);
    }
  }

  /** An auto-restart timer just created or reset with timeout T has, after any run that counts k ticks
      of it, fired exactly k / (T + 1) times and has T - k % (T + 1) left. */
  lemma {:induction false} AutoRestartClosedForm(ts: seq<Timer>, ops: seq<TOp>, j: nat)
    requires IsTRun(ts, ops) && j < |ts| && Spared(ops, j)
    requires ts[j].isUsed && ts[j].autoRestart && ts[j].remaining == ts[j].init
    ensures var k := CountedTicks(ts, ops, j);
            var period := ts[j].init + 1;
            && Firings(ts, ops, j) == k / period
            && TExec(ts, ops)[j].isUsed
            && TExec(ts, ops)[j].remaining == ts[j].init - k % period
  {
    var p := AutoRestartFrom(ts, ops, j, 0);
    DivModUnique(CountedTicks(ts, ops, j), ts[j].init + 1, Firings(ts, ops, j), p);
  }

  /** A one-shot timer counts down without firing for as many counted ticks as it has left. */
  lemma {:induction false} OneShotCountsDown(ts: seq<Timer>, ops: seq<TOp>, j: nat)
    requires IsTRun(ts, ops) && j < |ts| && Spared(ops, j)
    requires ts[j].isUsed && !ts[j].autoRestart && CountedTicks(ts, ops, j) <= ts[j].remaining
    ensures var t := TExec(ts, ops)[j];
            t.isUsed && !t.autoRestart && t.remaining == ts[j].remaining - CountedTicks(ts, ops, j)
    ensures Firings(ts, ops, j) == 0
    decreases |ops|
  {
    if ops != [] {
      StepOfSpared(ts, ops[0], j);
      OneShotCountsDown(TStep(ts, ops[0]), ops[1..], j);
    }
  }

  /** In the run, slot `j` is not handed out again once it is free. */
  ghost predicate StaysFree(ts: seq<Timer>, ops: seq<TOp>, j: nat)
    requires IsTRun(ts, ops) && j < |ts|
    decreases |ops|
  {
    ops == [] ||
    ((!ts[j].isUsed ==> !TStep(ts, ops[0])[j].isUsed) && StaysFree(TStep(ts, ops[0]), ops[1..], j))
  }

  lemma {:induction false} FreeSlotIsQuiet(ts: seq<Timer>, ops: seq<TOp>, j: nat)
    requires IsTRun(ts, ops) && j < |ts| && StaysFree(ts, ops, j) && !ts[j].isUsed
    ensures CountedTicks(ts, ops, j) == 0 && Firings(ts, ops, j) == 0 && !TExec(ts, ops)[j].isUsed
    decreases |ops|
  {
    if ops != [] {
      FreeSlotIsQuiet(TStep(ts, ops[0]), ops[1..], j);
    }
  }

  /** A one-shot timer with T left counts at most T + 1 ticks; it fires on the last of them, exactly then
      and never again, and that frees its slot. */
  lemma {:induction false} OneShotFiresOnce(ts: seq<Timer>, ops: seq<TOp>, j: nat)
    requires IsTRun(ts, ops) && j < |ts| && Spared(ops, j) && StaysFree(ts, ops, j)
    requires ts[j].isUsed && !ts[j].autoRestart
    ensures CountedTicks(ts, ops, j) <= ts[j].remaining + 1
    ensures Firings(ts, ops, j) == if CountedTicks(ts, ops, j) == ts[j].remaining + 1 then 1 else 0
    ensures TExec(ts, ops)[j].isUsed <==> Firings(ts, ops, j) == 0
    decreases |ops|
  {
    if ops != [] {
      StepOfSpared(ts, ops[0], j);
      if ops[0].Tick? && Expires(ts[j]) {
        FreeSlotIsQuiet(TStep(ts, ops[0]), ops[1..], j);
      } else {
        OneShotFiresOnce(TStep(ts, ops[0]), ops[1..], j);
      }
    }
  }

  /** An operation on one slot leaves the others alone, and does nothing to one that is free. */
  lemma OthersUntouched(ts: seq<Timer>, op: TOp, i: nat)
    requires IdOk(ts, op) && (op.Pause? || op.Restore? || op.Reset? || op.Destroy?) && i < |ts|
    ensures i != op.id || !ts[i].isUsed ==> TStep(ts, op)[i] == ts[i]
  {
  }

  ghost predicate NeverRestored(ops: seq<TOp>, j: nat) {
    forall i :: 0 <= i < |ops| ==> ops[i] != Restore(j)
  }

  lemma {:induction false} PausedStandsStill(ts: seq<Timer>, ops: seq<TOp>, j: nat)
    requires IsTRun(ts, ops) && j < |ts| && Spared(ops, j) && NeverRestored(ops, j)
    requires ts[j].isUsed && ts[j].isPaused
    ensures CountedTicks(ts, ops, j) == 0 && Firings(ts, ops, j) == 0 && TExec(ts, ops)[j] == ts[j]
    decreases |ops|
  {
    if ops != [] {
      assert TStep(ts, ops[0])[j] == ts[j];
      PausedStandsStill(TStep(ts, ops[0]), ops[1..], j);
    }
  }

  /** A paused timer counts no tick and does not fire until it is restored, and then goes on from where it
      was. */
  lemma PauseThenRestore(ts: seq<Timer>, ops: seq<TOp>, j: nat)
    requires j < |ts| && IsTRun(TStep(ts, Pause(j)), ops) && Spared(ops, j) && NeverRestored(ops, j)
    requires ts[j].isUsed && !ts[j].isPaused
    ensures var p := TStep(ts, Pause(j));
            && CountedTicks(p, ops, j) == 0 && Firings(p, ops, j) == 0
            && TStep(TExec(p, ops), Restore(j))[j] == ts[j]
  {
    PausedStandsStill(TStep(ts, Pause(j)), ops, j);
  }

  /** A reset timer starts over with the new timeout: k counted ticks later it has fired k / (T + 1) times
      if it restarts, and otherwise once if k is T + 1. */
  lemma ResetStartsOver(ts: seq<Timer>, timeout: nat, ops: seq<TOp>, j: nat)
    requires j < |ts| && IsTRun(TStep(ts, Reset(j, timeout)), ops) && Spared(ops, j)
    requires ts[j].isUsed && StaysFree(TStep(ts, Reset(j, timeout)), ops, j)
    ensures var r := TStep(ts, Reset(j, timeout));
            var k := CountedTicks(r, ops, j);
            && r[j].isPaused == ts[j].isPaused
            && Firings(r, ops, j) == if ts[j].autoRestart then k / (timeout + 1) else if k == timeout + 1 then 1 else 0
  {
    var r := TStep(ts, Reset(j, timeout));
    if ts[j].autoRestart { AutoRestartClosedForm(r, ops, j); } else { OneShotFiresOnce(r, ops, j); }
  }

  /** So does a timer just created, in the slot that was the first free one. */
  lemma CreateStarts(ts: seq<Timer>, timeout: nat, auto: bool, cb: bool, ops: seq<TOp>, j: nat)
    requires j < |ts| && !ts[j].isUsed && (forall i :: 0 <= i < j ==> ts[i].isUsed)
    requires IsTRun(TStep(ts, Create(timeout, auto, cb)), ops) && Spared(ops, j)
    requires StaysFree(TStep(ts, Create(timeout, auto, cb)), ops, j)
    ensures var c := TStep(ts, Create(timeout, auto, cb));
            var k := CountedTicks(c, ops, j);
            && c[j].isUsed && !c[j].isPaused
            && Firings(c, ops, j) == if auto then k / (timeout + 1) else if k == timeout + 1 then 1 else 0
  {
    var c := TStep(ts, Create(timeout, auto, cb));
    assert FirstFree(ts, 0) == j;
    if auto { AutoRestartClosedForm(c, ops, j); } else { OneShotFiresOnce(c, ops, j); }
  }

  /** A destroyed timer never fires again while its slot stays free. */
  lemma DestroyedIsQuiet(ts: seq<Timer>, ops: seq<TOp>, j: nat)
    requires j < |ts| && IsTRun(TStep(ts, Destroy(j)), ops) && StaysFree(TStep(ts, Destroy(j)), ops, j)
    ensures Firings(TStep(ts, Destroy(j)), ops, j) == 0 && !TExec(TStep(ts, Destroy(j)), ops)[j].isUsed
  {
    FreeSlotIsQuiet(TStep(ts, Destroy(j)), ops, j);
  }

  /** Creating never disturbs a slot in use, and fails only when all are. */
  lemma CreateSparesLiveSlots(ts: seq<Timer>, timeout: nat, auto: bool, cb: bool)
    ensures var ts' := TStep(ts, Create(timeout, auto, cb));
            && (forall i :: 0 <= i < |ts| && ts[i].isUsed ==> ts'[i] == ts[i])
            && (ts' == ts || exists i :: 0 <= i < |ts| && !ts[i].isUsed && ts'[i] == Timer(cb, timeout, timeout, auto, false, true))
            && ((exists i :: 0 <= i < |ts| && !ts[i].isUsed) ==> exists i :: 0 <= i < |ts| && !ts[i].isUsed && ts'[i].isUsed)
  {
    var i := FirstFree(ts, 0);
    if i < |ts| {
      assert TStep(ts, Create(timeout, auto, cb))[i] == Timer(cb, timeout, timeout, auto, false, true);
    }
  }
}
