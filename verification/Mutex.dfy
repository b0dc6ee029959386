/** The mutex of src/yos/yos.c: a word holding its owner's task id, changed with interrupts off. */
module Mutex {
  import opened Scheduler

  const NONE := -1

  /** `struct ymutex`. */
  class YMutex {
    var owner: int

    /** `ymutex_init` */
    constructor ()
      ensures owner == NONE
    {
      owner := NONE;
    }

    /** `ymutex_try_lock`, called by task `self` */
    method TryLock(self: nat) returns (ret: int)
      modifies this
      ensures (owner, ret) == LockWord(old(owner), self)
      ensures if old(owner) < 0 then owner == self && ret == 0 else owner == old(owner) && ret == -1
    {
      ret := -1;
      if owner < 0 {
        owner := self;
        ret := 0;
      }
    }

    /** `ymutex_lock`, called by task `self`. `others[i]` is the owner that the other tasks leave behind in
        the loop's call number `i` of `schedule`. The loop ends at the first attempt that finds the mutex
        free; when `others` runs out before, `got` is false and the real call would still be trying. */
    method Lock(self: nat, others: seq<int>) returns (got: bool, calls: nat)
      modifies this
      ensures calls <= |others|
      ensures forall i :: 0 <= i < calls ==> OwnerAt(old(owner), others, i) >= 0
      ensures got ==> OwnerAt(old(owner), others, calls) < 0 && owner == self
      ensures !got ==> calls == |others| && OwnerAt(old(owner), others, calls) >= 0
                       && owner == OwnerAt(old(owner), others, calls)
    {
      calls := 0;
      while true
        invariant calls <= |others| && owner == OwnerAt(old(owner), others, calls)
        invariant forall i :: 0 <= i < calls ==> OwnerAt(old(owner), others, i) >= 0
        decreases |others| - calls
      {
        var ret := TryLock(self);
        if ret == 0 {
          return true, calls;
        }
        if calls == |others| {
          return false, calls;
        }
        owner := others[calls];
        calls := calls + 1;
      }
    }

    /** `ymutex_unlock`, called by task `self` */
    method Unlock(self: nat) returns (ret: int)
      modifies this
      ensures (owner, ret) == UnlockWord(old(owner), self)
      ensures if old(owner) == self then owner == -1 && ret == 0 else owner == old(owner) && ret == -1
    {
      ret := -1;
      if owner == self {
        owner := NONE;
        ret := 0;
      }
    }
  }

  /** The owner that attempt number `i` to lock finds. */
  function OwnerAt(owner: int, others: seq<int>, i: nat): int
    requires i <= |others|
  {
    if i == 0 then owner else others[i - 1]
  }

  /** New owner and return code of a try-lock. */
  function LockWord(owner: int, self: nat): (int, int) {
    if owner < 0 then (self, 0) else (owner, -1)
  }

  /** New owner and return code of an unlock. */
  function UnlockWord(owner: int, self: nat): (int, int) {
    if owner == self then (NONE, 0) else (owner, -1)
  }

  /** The scheduler with one mutex. `holders` is history, not state of the program: the tasks that have
      locked successfully and not called unlock since. */
  datatype Sys = Sys(k: Sched, owner: int, holders: set<nat>)

  datatype MOp = Kernel(op: Op) | TryLock | Unlock

  ghost predicate MEnabled(s: Sys, op: MOp)
    requires Shaped(s.k)
  {
    match op
    case Kernel(kop) => Enabled(s.k, kop)
    case _ => s.k.status[s.k.cur].Running?
  }

  function MStep(s: Sys, op: MOp): Sys
    requires Shaped(s.k)
  {
    match op
    case Kernel(kop) => s.(k := Step(s.k, kop))
    case TryLock =>
      var (owner, ret) := LockWord(s.owner, s.k.cur);
      s.(owner := owner, holders := if ret == 0 then s.holders + {s.k.cur} else s.holders)
    case Unlock =>
      s.(owner := UnlockWord(s.owner, s.k.cur).0, holders := s.holders - {s.k.cur})
  }

  ghost predicate IsMRun(s: Sys, ops: seq<MOp>)
    requires Shaped(s.k)
    decreases |ops|
  {
    ops != [] ==> MEnabled(s, ops[0]) && Shaped(MStep(s, ops[0]).k) && IsMRun(MStep(s, ops[0]), ops[1..])
  }

  ghost function MExec(s: Sys, ops: seq<MOp>): Sys
    requires Shaped(s.k) && IsMRun(s, ops)
    decreases |ops|
  {
    if ops == [] then s else MExec(MStep(s, ops[0]), ops[1..])
  }

  ghost predicate OwnerNamesHolder(s: Sys) {
    s.holders == if s.owner < 0 then {} else {s.owner}
  }

  /** Mutual exclusion over every run: at most one task is between a successful lock and its own
      unlock, and `owner` names exactly that task. */
  lemma {:induction false} MutualExclusion(s: Sys, ops: seq<MOp>)
    requires Inv(s.k) && IsMRun(s, ops) && OwnerNamesHolder(s)
    ensures OwnerNamesHolder(MExec(s, ops))
    ensures forall a, b :: a in MExec(s, ops).holders && b in MExec(s, ops).holders ==> a == b
    decreases |ops|
  {
    if ops != [] {
      if ops[0].Kernel? { StepKeepsInv(s.k, ops[0].op); }
      MutualExclusion(MStep(s, ops[0]), ops[1..]);
    }
  }

  /** The only step that takes the mutex from its owner is that owner's own unlock; in particular a
      lock or an unlock by anyone else changes nothing and reports failure. */
  lemma OnlyOwnerReleases(s: Sys, op: MOp)
    requires Shaped(s.k) && MEnabled(s, op) && s.owner >= 0
    ensures MStep(s, op).owner == s.owner || (op.Unlock? && s.k.cur == s.owner && MStep(s, op).owner == NONE)
    ensures op.Unlock? && s.k.cur != s.owner ==>
              MStep(s, op).owner == s.owner && UnlockWord(s.owner, s.k.cur).1 == -1
    ensures op.TryLock? ==> MStep(s, op) == s && LockWord(s.owner, s.k.cur).1 == -1
    ensures op.Unlock? && s.k.cur == s.owner ==> MStep(s, op).owner == NONE && UnlockWord(s.owner, s.k.cur).1 == 0
  {
  }

  /** A task that returns while it owns the mutex, once switched away from, owns it for ever: no later
      try-lock by anyone succeeds. */
  lemma {:induction false} AbandonedForEver(s: Sys, ops: seq<MOp>)
    requires Inv(s.k) && IsMRun(s, ops)
    requires 0 <= s.owner < |s.k.status| && s.k.cur != s.owner
    requires s.k.status[s.owner].Exited? || s.k.status[s.owner].Invalid?
    ensures MExec(s, ops).owner == s.owner && LockWord(MExec(s, ops).owner, MExec(s, ops).k.cur).1 == -1
    decreases |ops|
  {
    if ops != [] {
      if ops[0].Kernel? { StepKeepsInv(s.k, ops[0].op); }
      AbandonedForEver(MStep(s, ops[0]), ops[1..]);
    }
  }
}
