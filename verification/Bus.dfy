/** I2C transactions of any number of tasks over the kernel mutex: src/ydevice/yiic.c with its client
    stubs lib/ssd1306xled/ssd1306xled/yiic_stub.c and lib/AVR_aht20/src/iic_stub.c. */
module Bus {
  import opened Scheduler
  import opened SchedulerRuns
  import opened Mutex
  import opened Arith

  datatype Direction = Transmit | Receive

  /** One use of the bus by a client. For a receive, `data` is what the slave will answer. */
  datatype Transaction = Transaction(dir: Direction, addr: nat, data: seq<Byte>)

  /** What a client does once it has the mutex, one shared access at a time. */
  datatype Action =
    | SetDirection(dir: Direction)  // current_tran_type = tran_type
    | SendStart                     // i2c_send_start
    | EnableAck                     // i2c_enable_ack, if current_tran_type says receive
    | Address(addr: nat)            // i2c_send_7bit_address, direction read from current_tran_type
    | Send(b: Byte)                 // i2c_send_data
    | DisableAck                    // i2c_disable_ack
    | Get(b: Byte)                  // i2c_get_data
    | SendStop                      // i2c_send_stop
    | Release                       // ymutex_unlock

  /** What can be seen on the bus, and who caused it. */
  datatype Event =
    | Start(who: nat)
    | AckOn(who: nat)
    | Addressed(who: nat, addr: nat, dir: Direction)
    | Sent(who: nat, b: Byte)
    | AckOff(who: nat)
    | Got(who: nat, b: Byte)
    | Stop(who: nat)

  /** `yiic_master_transmit_data` */
  function SendAll(data: seq<Byte>): seq<Action> {
    seq(|data|, i requires 0 <= i < |data| => Send(data[i]))
  }

  /** `yiic_master_receive_data`: acknowledging stops before the last byte. */
  function GetAll(data: seq<Byte>): seq<Action> {
    if data == [] then [] else
      var last := |data| - 1;
      seq(|data| + 1, i requires 0 <= i <= |data| =>
        if i < last then Get(data[i]) else if i == last then DisableAck else Get(data[last]))
  }

  /** `yiic_master_trans_start` once it has the mutex, and `yiic_master_select_slave` */
  function Head(t: Transaction): seq<Action> {
    [SetDirection(t.dir), SendStart, EnableAck, Address(t.addr)]
  }

  function Body(t: Transaction): seq<Action> {
    if t.dir.Transmit? then SendAll(t.data) else GetAll(t.data)
  }

  /** The whole critical section, ending with `yiic_master_trans_stop` */
  function Program(t: Transaction): seq<Action> {
    Head(t) + Body(t) + [SendStop, Release]
  }

  /** What action `a` of task `by` shows on the bus while `current_tran_type` is `dir`. */
  function Shown(who: nat, a: Action, dir: Direction): seq<Event> {
    match a
    case SendStart => [Start(who)]
    case EnableAck => if dir.Receive? then [AckOn(who)] else []
    case Address(addr) => [Addressed(who, addr, dir)]
    case Send(b) => [Sent(who, b)]
    case DisableAck => [AckOff(who)]
    case Get(b) => [Got(who, b)]
    case SendStop => [Stop(who)]
    case _ => []
  }

  /** What the first `n` of `actions` show. */
  function ShownFirst(who: nat, actions: seq<Action>, n: nat, dir: Direction): seq<Event>
    requires n <= |actions|
    decreases n
  {
    if n == 0 then [] else ShownFirst(who, actions, n - 1, dir) + Shown(who, actions[n - 1], dir)
  }

  /** Where a task is: outside, spinning in `ymutex_lock`, or about to do action `pc`. */
  datatype Client = Outside | Spinning(t: Transaction) | Inside(t: Transaction, pc: nat)

  /** `dir` is `current_tran_type`; `trace` is what the bus has carried. `done` is history: the
      transactions completed, oldest first, with the task of each. */
  datatype BusState = BusState(
    k: Sched, owner: int, dir: Direction, client: seq<Client>, trace: seq<Event>, done: seq<(nat, Transaction)>)

  datatype BOp = Kernel(op: Op) | Begin(t: Transaction) | TryLock | Act

  ghost predicate BShaped(s: BusState) {
    && Shaped(s.k) && |s.client| == |s.k.status|
    && forall i :: 0 <= i < |s.client| && s.client[i].Inside? ==> s.client[i].pc < |Program(s.client[i].t)|
  }

  /** Clients do not delay or return inside a transaction or while they wait for one. */
  ghost predicate BEnabled(s: BusState, op: BOp)
    requires BShaped(s)
  {
    match op
    case Kernel(kop) => Enabled(s.k, kop) && (kop.Delay? || kop.Return? ==> s.client[s.k.cur].Outside?)
    case Begin(t) => s.k.status[s.k.cur].Running? && s.client[s.k.cur].Outside?
    case TryLock => s.k.status[s.k.cur].Running? && s.client[s.k.cur].Spinning?
    case Act => s.k.status[s.k.cur].Running? && s.client[s.k.cur].Inside?
  }

  ghost function BStep(s: BusState, op: BOp): BusState
    requires BShaped(s) && BEnabled(s, op)
  {
    var me := s.k.cur;
    match op
    case Kernel(kop) => s.(k := Step(s.k, kop))
    case Begin(t) => s.(client := s.client[me := Spinning(t)])
    case TryLock =>
      var (owner, ret) := LockWord(s.owner, me);
      s.(owner := owner, client := if ret == 0 then s.client[me := Inside(s.client[me].t, 0)] else s.client)
    case Act =>
      var Inside(t, pc) := s.client[me];
      var a := Program(t)[pc];
      var last := pc + 1 == |Program(t)|;
      s.(trace := s.trace + Shown(me, a, s.dir),
         dir := if a.SetDirection? then a.dir else s.dir,
         owner := if a.Release? then UnlockWord(s.owner, me).0 else s.owner,
         client := s.client[me := if last then Outside else Inside(t, pc + 1)],
         done := if last then s.done + [(me, t)] else s.done)
  }

  // ----- What a transaction looks like -----

  /** What task `who` has shown of `t` before its action `pc`. */
  function Begun(who: nat, t: Transaction, pc: nat): seq<Event>
    requires pc <= |Program(t)|
  {
    ShownFirst(who, Program(t), pc, t.dir)
  }

  /** A whole transaction on the bus, as its client asked for it. */
  function Whole(who: nat, t: Transaction): seq<Event> {
    Begun(who, t, |Program(t)|)
  }

  /** The first `n` transactions of `done`, one after the other. */
  function WholeFirst(done: seq<(nat, Transaction)>, n: nat): seq<Event>
    requires n <= |done|
    decreases n
  {
    if n == 0 then [] else WholeFirst(done, n - 1) + Whole(done[n - 1].0, done[n - 1].1)
  }

  function WholeAll(done: seq<(nat, Transaction)>): seq<Event> {
    WholeFirst(done, |done|)
  }

  function SentFirst(who: nat, data: seq<Byte>, n: nat): (events: seq<Event>)
    requires n <= |data|
    ensures |events| == n
  {
    seq(n, i requires 0 <= i < n => Sent(who, data[i]))
  }

  function GotFirst(who: nat, data: seq<Byte>, n: nat): (events: seq<Event>)
    requires n <= |data|
    ensures |events| == n
  {
    seq(n, i requires 0 <= i < n => Got(who, data[i]))
  }

  /** What is seen of a receive once `n` bytes are in. */
  function Received(who: nat, data: seq<Byte>, n: nat): seq<Event>
    requires n <= |data|
  {
    if n < |data| || n == 0 then GotFirst(who, data, n)
    else GotFirst(who, data, n - 1) + [AckOff(who)] + [Got(who, data[n - 1])]
  }

  /** One start, and the transaction's own address in its own direction. */
  function Opening(who: nat, t: Transaction): seq<Event> {
    if t.dir.Receive? then [Start(who), AckOn(who), Addressed(who, t.addr, Receive)]
    else [Start(who), Addressed(who, t.addr, Transmit)]
  }

  lemma ProgramAt(t: Transaction)
    ensures |Program(t)| == 6 + |Body(t)|
    ensures Program(t)[0] == SetDirection(t.dir) && Program(t)[1] == SendStart
    ensures Program(t)[2] == EnableAck && Program(t)[3] == Address(t.addr)
    ensures forall i :: 0 <= i < |Body(t)| ==> Program(t)[4 + i] == Body(t)[i]
    ensures Program(t)[4 + |Body(t)|] == SendStop && Program(t)[5 + |Body(t)|] == Release
  {
  }

  lemma BeginOne(who: nat, t: Transaction, pc: nat)
    requires pc < |Program(t)|
    ensures Begun(who, t, pc + 1) == Begun(who, t, pc) + Shown(who, Program(t)[pc], t.dir)
  {
  }

  lemma BegunOpening(who: nat, t: Transaction)
    ensures 4 <= |Program(t)| && Begun(who, t, 4) == Opening(who, t)
  {
    ProgramAt(t);
    BeginOne(who, t, 0);
    BeginOne(who, t, 1);
    BeginOne(who, t, 2);
    BeginOne(who, t, 3);
  }

  lemma BeginSend(who: nat, t: Transaction, i: nat)
    requires t.dir.Transmit? && i < |t.data|
    ensures 5 + i <= |Program(t)| && Begun(who, t, 5 + i) == Begun(who, t, 4 + i) + [Sent(who, t.data[i])]
  {
    ProgramAt(t);
    assert Program(t)[4 + i] == Body(t)[i] == Send(t.data[i]);
    BeginOne(who, t, 4 + i);
  }

  lemma OneMoreSent(before: seq<Event>, who: nat, data: seq<Byte>, n: nat)
    requires 0 < n <= |data|
    ensures before + SentFirst(who, data, n) == before + SentFirst(who, data, n - 1) + [Sent(who, data[n - 1])]
  {
  }

  lemma BeginGet(who: nat, t: Transaction, i: nat)
    requires t.dir.Receive? && i + 1 < |t.data|
    ensures 5 + i <= |Program(t)| && Begun(who, t, 5 + i) == Begun(who, t, 4 + i) + [Got(who, t.data[i])]
  {
    ProgramAt(t);
    assert Program(t)[4 + i] == Body(t)[i] == Get(t.data[i]);
    BeginOne(who, t, 4 + i);
  }

  lemma OneMoreGot(before: seq<Event>, who: nat, data: seq<Byte>, n: nat)
    requires 0 < n <= |data|
    ensures before + GotFirst(who, data, n) == before + GotFirst(who, data, n - 1) + [Got(who, data[n - 1])]
  {
  }

  /** The end of a receive: acknowledging off, then the last byte. */
  lemma BeginLastGet(who: nat, t: Transaction, n: nat)
    requires t.dir.Receive? && n == |t.data| > 0
    ensures 5 + n <= |Program(t)|
    ensures Begun(who, t, 5 + n) == Begun(who, t, 3 + n) + [AckOff(who)] + [Got(who, t.data[n - 1])]
  {
    ProgramAt(t);
    assert Program(t)[4 + (n - 1)] == Body(t)[n - 1] == DisableAck;
    assert Program(t)[4 + n] == Body(t)[n] == Get(t.data[n - 1]);
    BeginOne(who, t, 3 + n);
    BeginOne(who, t, 4 + n);
  }

  lemma {:induction false} BegunSends(who: nat, t: Transaction, n: nat)
    requires t.dir.Transmit? && n <= |t.data|
    ensures 4 + n <= |Program(t)| && Begun(who, t, 4 + n) == Opening(who, t) + SentFirst(who, t.data, n)
    decreases n
  {
    ProgramAt(t);
    if n == 0 {
      BegunOpening(who, t);
    } else {
      BegunSends(who, t, n - 1);
      BeginSend(who, t, n - 1);
      OneMoreSent(Opening(who, t), who, t.data, n);
    }
  }

  lemma {:induction false} BegunGets(who: nat, t: Transaction, n: nat)
    requires t.dir.Receive? && n < |t.data|
    ensures 4 + n <= |Program(t)| && Begun(who, t, 4 + n) == Opening(who, t) + GotFirst(who, t.data, n)
    decreases n
  {
    ProgramAt(t);
    if n == 0 {
      BegunOpening(who, t);
    } else {
      BegunGets(who, t, n - 1);
      BeginGet(who, t, n - 1);
      OneMoreGot(Opening(who, t), who, t.data, n);
    }
  }

  lemma BegunReceive(who: nat, t: Transaction)
    requires t.dir.Receive? && t.data != []
    ensures Begun(who, t, 4 + |Body(t)|) == Opening(who, t) + Received(who, t.data, |t.data|)
  {
    var n := |t.data|;
    var gots, off, last := GotFirst(who, t.data, n - 1), [AckOff(who)], [Got(who, t.data[n - 1])];
    BegunGets(who, t, n - 1);
    BeginLastGet(who, t, n);
    Associate(Opening(who, t), gots, off);
    Associate(Opening(who, t), gots + off, last);
  }

  lemma Associate(a: seq<Event>, b: seq<Event>, c: seq<Event>)
    ensures a + b + c == a + (b + c)
  {
  }

  lemma EndsWithStop(who: nat, t: Transaction)
    ensures 4 + |Body(t)| <= |Program(t)| && Whole(who, t) == Begun(who, t, 4 + |Body(t)|) + [Stop(who)]
  {
    ProgramAt(t);
    BeginOne(who, t, 4 + |Body(t)|);
    BeginOne(who, t, 5 + |Body(t)|);
  }

  /** What the body of a transaction shows. */
  function BodyEvents(who: nat, t: Transaction): seq<Event> {
    if t.dir.Transmit? then SentFirst(who, t.data, |t.data|) else Received(who, t.data, |t.data|)
  }

  lemma BegunBody(who: nat, t: Transaction)
    ensures 4 + |Body(t)| <= |Program(t)|
    ensures Begun(who, t, 4 + |Body(t)|) == Opening(who, t) + BodyEvents(who, t)
  {
    if t.dir.Transmit? {
      BegunSends(who, t, |t.data|);
    } else if t.data != [] {
      BegunReceive(who, t);
    } else {
      BegunOpening(who, t);
    }
  }

  /** The shape of a transaction: one start, its own address in its own direction, every byte in order,
      one stop. A receive acknowledges from its start up to its last byte. */
  lemma WholeTransaction(who: nat, t: Transaction)
    ensures t.dir.Transmit? ==>
              Whole(who, t) == [Start(who), Addressed(who, t.addr, Transmit)] + SentFirst(who, t.data, |t.data|) + [Stop(who)]
    ensures t.dir.Receive? ==>
              Whole(who, t) == [Start(who), AckOn(who), Addressed(who, t.addr, Receive)]
                + Received(who, t.data, |t.data|) + [Stop(who)]
  {
    BegunBody(who, t);
    EndsWithStop(who, t);
  }

  /** The same, event by event. */
  lemma WholeEventByEvent(who: nat, t: Transaction)
    ensures var w, n := Whole(who, t), |t.data|;
            if t.dir.Transmit? then
              && |w| == n + 3 && w[0] == Start(who) && w[1] == Addressed(who, t.addr, Transmit)
              && (forall i :: 0 <= i < n ==> w[2 + i] == Sent(who, t.data[i])) && w[n + 2] == Stop(who)
            else
              && |w| == n + (if n == 0 then 4 else 5) && w[0] == Start(who) && w[1] == AckOn(who)
              && w[2] == Addressed(who, t.addr, Receive)
              && (forall i :: 0 <= i < n - 1 ==> w[3 + i] == Got(who, t.data[i]))
              && (n > 0 ==> w[n + 2] == AckOff(who) && w[n + 3] == Got(who, t.data[n - 1]))
              && w[|w| - 1] == Stop(who)
  {
    WholeTransaction(who, t);
  }

  // ----- Atomicity -----

  /** The part of the trace that belongs to a transaction not yet completed. */
  ghost function Open(s: BusState): seq<Event>
    requires BShaped(s)
  {
    if 0 <= s.owner < |s.client| && s.client[s.owner].Inside? then
      Begun(s.owner, s.client[s.owner].t, s.client[s.owner].pc)
    else []
  }

  /** The owner, and only the owner, is inside a transaction. */
  ghost predicate OnlyOwnerInside(s: BusState) {
    && BShaped(s) && s.owner < |s.client|
    && (forall i :: 0 <= i < |s.client| ==> (s.client[i].Inside? <==> i == s.owner))
  }

  /** Whoever wants or has the mutex is running. */
  ghost predicate ClientsRun(s: BusState)
    requires BShaped(s)
  {
    forall i :: 0 <= i < |s.client| && !s.client[i].Outside? ==> s.k.status[i].Running?
  }

  /** Once the owner has set it, the direction is its own. */
  ghost predicate OwnDirection(s: BusState)
    requires OnlyOwnerInside(s)
  {
    s.owner >= 0 && s.client[s.owner].pc > 0 ==> s.dir == s.client[s.owner].t.dir
  }

  /** The trace is the completed transactions, whole and in order, then what the owner has done so far. */
  ghost predicate TraceAccounted(s: BusState)
    requires BShaped(s)
  {
    s.trace == WholeAll(s.done) + Open(s)
  }

  ghost predicate BInv(s: BusState) {
    Inv(s.k) && OnlyOwnerInside(s) && ClientsRun(s) && OwnDirection(s) && TraceAccounted(s)
  }

  /** Release is the last action and the only one to unlock; the direction is set first. */
  lemma ProgramShape(t: Transaction, pc: nat)
    requires pc < |Program(t)|
    ensures Program(t)[pc].Release? <==> pc + 1 == |Program(t)|
    ensures Program(t)[pc].SetDirection? <==> pc == 0
    ensures Program(t)[0] == SetDirection(t.dir)
    ensures Shown(0, Program(t)[0], Transmit) == [] == Shown(0, Program(t)[0], Receive)
  {
    ProgramAt(t);
    if 4 <= pc < 4 + |Body(t)| {
      assert Program(t)[4 + (pc - 4)] == Body(t)[pc - 4];
    }
  }

  lemma {:induction false} WholeFirstAgree(a: seq<(nat, Transaction)>, b: seq<(nat, Transaction)>, n: nat)
    requires n <= |a| && n <= |b| && forall i :: 0 <= i < n ==> a[i] == b[i]
    ensures WholeFirst(a, n) == WholeFirst(b, n)
    decreases n
  {
    if n > 0 { WholeFirstAgree(a, b, n - 1); }
  }

  lemma WholeAllAppend(done: seq<(nat, Transaction)>, who: nat, t: Transaction)
    ensures WholeAll(done + [(who, t)]) == WholeAll(done) + Whole(who, t)
  {
    WholeFirstAgree(done + [(who, t)], done, |done|);
  }

  /** An act keeps the mutex with its owner, unless it is the last. */
  lemma ActKeepsInside(s: BusState)
    requires OnlyOwnerInside(s) && BEnabled(s, Act)
    ensures OnlyOwnerInside(BStep(s, Act))
    ensures var c := s.client[s.owner];
            var s' := BStep(s, Act);
            if c.pc + 1 == |Program(c.t)| then s'.owner == NONE && s'.client == s.client[s.owner := Outside]
            else s'.owner == s.owner && s'.client == s.client[s.owner := Inside(c.t, c.pc + 1)]
  {
    ProgramShape(s.client[s.k.cur].t, s.client[s.k.cur].pc);
  }

  lemma ActKeepsDirection(s: BusState)
    requires OnlyOwnerInside(s) && OwnDirection(s) && BEnabled(s, Act)
    ensures OnlyOwnerInside(BStep(s, Act)) && OwnDirection(BStep(s, Act))
    ensures Shown(s.owner, Program(s.client[s.owner].t)[s.client[s.owner].pc], s.dir)
         == Shown(s.owner, Program(s.client[s.owner].t)[s.client[s.owner].pc], s.client[s.owner].t.dir)
  {
    ActKeepsInside(s);
    ProgramShape(s.client[s.owner].t, s.client[s.owner].pc);
  }

  /** What an act adds to the trace, and what it leaves of the owner's transaction. */
  lemma ActAdds(s: BusState)
    requires OnlyOwnerInside(s) && OwnDirection(s) && BEnabled(s, Act)
    ensures var t, pc := s.client[s.owner].t, s.client[s.owner].pc;
            var s' := BStep(s, Act);
            && BShaped(s') && s'.trace == s.trace + Shown(s.owner, Program(t)[pc], t.dir)
            && s'.done == (if pc + 1 == |Program(t)| then s.done + [(s.owner, t)] else s.done)
            && Open(s') == if pc + 1 == |Program(t)| then [] else Begun(s.owner, t, pc + 1)
  {
    ActKeepsInside(s);
    ActKeepsDirection(s);
  }

  lemma ActKeepsTrace(s: BusState)
    requires OnlyOwnerInside(s) && OwnDirection(s) && TraceAccounted(s) && BEnabled(s, Act)
    ensures BShaped(BStep(s, Act)) && TraceAccounted(BStep(s, Act))
  {
    ActAdds(s);
    ActShows(s.done, s.owner, s.client[s.owner].t, s.client[s.owner].pc);
  }

  lemma ActShows(done: seq<(nat, Transaction)>, who: nat, t: Transaction, pc: nat)
    requires pc < |Program(t)|
    ensures var after := WholeAll(done) + Begun(who, t, pc) + Shown(who, Program(t)[pc], t.dir);
            && after == WholeAll(done) + Begun(who, t, pc + 1)
            && (pc + 1 == |Program(t)| ==> after == WholeAll(done + [(who, t)]))
  {
    BeginOne(who, t, pc);
    Associate(WholeAll(done), Begun(who, t, pc), Shown(who, Program(t)[pc], t.dir));
    WholeAllAppend(done, who, t);
  }

  lemma ActKeepsBInv(s: BusState)
    requires BInv(s) && BEnabled(s, Act)
    ensures BInv(BStep(s, Act))
  {
    ActKeepsInside(s);
    ActKeepsDirection(s);
    ActKeepsTrace(s);
  }

  lemma KernelKeepsBInv(s: BusState, op: Op)
    requires BInv(s) && BEnabled(s, BOp.Kernel(op))
    ensures BInv(s.(k := Step(s.k, op)))
  {
    StepKeepsInv(s.k, op);
    KernelKeepsClients(s, op);
  }

  lemma KernelKeepsClients(s: BusState, op: Op)
    requires BShaped(s) && ClientsRun(s) && BEnabled(s, BOp.Kernel(op))
    requires Shaped(Step(s.k, op)) && |Step(s.k, op).status| == |s.k.status|
    requires forall i :: 0 <= i < |s.k.status| ==> Moves(s.k.status[i], Step(s.k, op).status[i])
    ensures BShaped(s.(k := Step(s.k, op))) && ClientsRun(s.(k := Step(s.k, op)))
  {
    var k' := Step(s.k, op);
    forall i | 0 <= i < |s.client| && !s.client[i].Outside? ensures k'.status[i].Running? {
      assert Moves(s.k.status[i], k'.status[i]);
    }
  }

  lemma LockKeepsBInv(s: BusState)
    requires BInv(s) && BEnabled(s, BOp.TryLock)
    ensures BInv(BStep(s, BOp.TryLock))
  {
    if s.owner < 0 { ProgramAt(s.client[s.k.cur].t); }
  }

  /** The scheduler op that a step on the bus is. */
  function KernelOp(op: BOp): Op {
    if op.Kernel? then op.op else Compute
  }

  lemma BStepKeepsBInv(s: BusState, op: BOp)
    requires BInv(s) && BEnabled(s, op)
    ensures BInv(BStep(s, op))
  {
    match op
    case Kernel(kop) => KernelKeepsBInv(s, kop);
    case Act => ActKeepsBInv(s);
    case TryLock => LockKeepsBInv(s);
    case Begin(t) =>
  }

  lemma BStepIsSchedulerStep(s: BusState, op: BOp)
    requires BShaped(s) && Inv(s.k) && BEnabled(s, op)
    ensures BStep(s, op).k == Step(s.k, KernelOp(op)) && Enabled(s.k, KernelOp(op))
    ensures |BStep(s, op).client| == |s.client|
  {
  }

  ghost predicate BReady(s: BusState, op: BOp) {
    BShaped(s) && BEnabled(s, op)
  }

  ghost predicate IsBRun(s: BusState, ops: seq<BOp>)
    decreases |ops|
  {
    ops != [] ==> BReady(s, ops[0]) && IsBRun(BStep(s, ops[0]), ops[1..])
  }

  ghost function BExec(s: BusState, ops: seq<BOp>): BusState
    requires IsBRun(s, ops)
    decreases |ops|
  {
    if ops == [] then s else BExec(BStep(s, ops[0]), ops[1..])
  }

  /** Nobody on the bus yet. */
  ghost predicate Fresh(s: BusState) {
    && Inv(s.k) && |s.client| == |s.k.status| && s.owner == NONE && s.trace == [] && s.done == []
    && forall i :: 0 <= i < |s.client| ==> s.client[i].Outside?
  }

  lemma {:induction false} RunKeepsBInv(s: BusState, ops: seq<BOp>)
    requires BInv(s) && IsBRun(s, ops)
    ensures BInv(BExec(s, ops))
    decreases |ops|
  {
    if ops != [] {
      BStepKeepsBInv(s, ops[0]);
      RunKeepsBInv(BStep(s, ops[0]), ops[1..]);
    }
  }

  /** Bus atomicity: under every interleaving the trace is the completed transactions, each whole and
      by one task, followed by a prefix of at most one more, by the mutex owner. */
  lemma BusAtomicity(s: BusState, ops: seq<BOp>)
    requires Fresh(s) && IsBRun(s, ops)
    ensures var e := BExec(s, ops);
            && BShaped(e) && e.trace == WholeAll(e.done) + Open(e)
            && (e.owner == NONE || (0 <= e.owner < |e.client| && e.client[e.owner].Inside?
                 && Open(e) <= Whole(e.owner, e.client[e.owner].t)))
            && (e.owner == NONE ==> e.trace == WholeAll(e.done))
  {
    assert s.trace == WholeAll(s.done) + Open(s);
    RunKeepsBInv(s, ops);
    var e := BExec(s, ops);
    OwnerIsNoneOrTask(s, ops);
    if e.owner != NONE {
      var t := e.client[e.owner].t;
      BegunIsPrefix(e.owner, t, e.client[e.owner].pc, |Program(t)|);
    }
  }

  lemma {:induction false} BegunIsPrefix(who: nat, t: Transaction, pc: nat, n: nat)
    requires pc <= n <= |Program(t)|
    ensures Begun(who, t, pc) <= Begun(who, t, n)
    decreases n
  {
    if pc < n {
      BegunIsPrefix(who, t, pc, n - 1);
      BeginOne(who, t, n - 1);
    }
  }

  lemma {:induction false} OwnerIsNoneOrTask(s: BusState, ops: seq<BOp>)
    requires BInv(s) && IsBRun(s, ops) && s.owner >= NONE
    ensures BExec(s, ops).owner >= NONE
    decreases |ops|
  {
    if ops != [] {
      BStepKeepsBInv(s, ops[0]);
      OwnerIsNoneOrTask(BStep(s, ops[0]), ops[1..]);
    }
  }

  /** When a task addresses its slave, `current_tran_type` is the direction that task asked for. */
  lemma DirectionIsOwn(s: BusState, ops: seq<BOp>)
    requires Fresh(s) && IsBRun(s, ops)
    ensures var e := BExec(s, ops);
            BShaped(e) && forall i :: 0 <= i < |e.client| && e.client[i].Inside? && e.client[i].pc > 0 ==>
              e.dir == e.client[i].t.dir
  {
    assert s.trace == WholeAll(s.done) + Open(s);
    RunKeepsBInv(s, ops);
  }

  // ----- Progress -----

  function KernelOps(ops: seq<BOp>): seq<Op> {
    if ops == [] then [] else [KernelOp(ops[0])] + KernelOps(ops[1..])
  }

  lemma {:induction false} BusRunsAreSchedulerRuns(s: BusState, ops: seq<BOp>)
    requires BInv(s) && IsBRun(s, ops)
    ensures IsRun(s.k, KernelOps(ops)) && Exec(s.k, KernelOps(ops)) == BExec(s, ops).k
    decreases |ops|
  {
    if ops != [] {
      BStepKeepsBInv(s, ops[0]);
      BStepIsSchedulerStep(s, ops[0]);
      BusRunsAreSchedulerRuns(BStep(s, ops[0]), ops[1..]);
      RunStarts(s.k, KernelOp(ops[0]), KernelOps(ops[1..]));
    }
  }

  /** Bus progress: a task whose try-lock fails is waiting for a different task, which is running and
      inside its transaction; and however the run goes on, that task gets the processor within N - 1
      scheduler invocations. */
  lemma {:induction false} SpinnerWaitsForRunningOwner(s: BusState, ops: seq<BOp>)
    requires BInv(s) && BEnabled(s, BOp.TryLock) && LockWord(s.owner, s.k.cur).1 != 0
    requires IsBRun(s, ops) && !BExec(s, ops).k.pending && |s.client| - 1 <= Invocations(KernelOps(ops))
    ensures s.owner != s.k.cur && 0 <= s.owner < |s.client|
    ensures s.client[s.owner].Inside? && s.k.status[s.owner].Running?
    ensures IsRun(s.k, KernelOps(ops)) && GetsCpu(s.k, KernelOps(ops), s.owner)
  {
    BusRunsAreSchedulerRuns(s, ops);
    BoundedWaiting(s.k, KernelOps(ops), s.owner);
  }

  /** The actions the owner has yet to do, the release among them. */
  function Remaining(s: BusState): nat
    requires BShaped(s) && 0 <= s.owner < |s.client| && s.client[s.owner].Inside?
  {
    |Program(s.client[s.owner].t)| - s.client[s.owner].pc
  }

  /** The owner is never blocked: given the processor it can always act, and each act brings the end of
      its transaction one step nearer; the last one frees the mutex. Nobody else's step undoes that. */
  lemma OwnerAdvances(s: BusState, op: BOp)
    requires BInv(s) && BEnabled(s, op) && s.owner >= 0
    ensures s.k.cur == s.owner ==> BEnabled(s, Act)
    ensures var s' := BStep(s, op);
            if op.Act? && Remaining(s) == 1 then s'.owner == NONE
            else BInv(s') && s'.owner == s.owner && Remaining(s') == Remaining(s) - if op.Act? then 1 else 0
  {
    BStepKeepsBInv(s, op);
    if op.Act? { ActKeepsInside(s); }
  }

  function Acts(ops: seq<BOp>): nat {
    if ops == [] then 0 else (if ops[0].Act? then 1 else 0) + Acts(ops[1..])
  }

  /** In some state of the run the mutex is free. */
  ghost predicate GetsFreed(s: BusState, ops: seq<BOp>)
    requires IsBRun(s, ops)
    decreases |ops|
  {
    s.owner < 0 || (ops != [] && GetsFreed(BStep(s, ops[0]), ops[1..]))
  }

  /** Over any run the owner frees the mutex if and only if the run holds as many acts as its transaction
      has left: until then nobody else can act, and none of its acts is lost. */
  lemma {:induction false} OwnerFreesInTime(s: BusState, ops: seq<BOp>)
    requires BInv(s) && IsBRun(s, ops) && s.owner >= 0
    ensures GetsFreed(s, ops) <==> Acts(ops) >= Remaining(s)
    ensures Acts(ops) < Remaining(s) ==>
              BInv(BExec(s, ops)) && BExec(s, ops).owner == s.owner && Remaining(BExec(s, ops)) == Remaining(s) - Acts(ops)
    decreases |ops|
  {
    if ops != [] {
      OwnerAdvances(s, ops[0]);
      if !(ops[0].Act? && Remaining(s) == 1) { OwnerFreesInTime(BStep(s, ops[0]), ops[1..]); }
    }
  }
}
