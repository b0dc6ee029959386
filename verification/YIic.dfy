/** src/ydevice/yiic.c and its sensor client in their own form. What other tasks may do in between is
    Bus's subject; here each function is shown to carry out its part of a Bus transaction. */
module YIicCode {
  import opened Arith
  import opened Mutex
  import opened Bus

  const AHT20_ADDRESS := 0x38

  /** What the other tasks do on the bus during one call of `schedule` by a task waiting for the mutex,
      and the owner they leave behind. */
  datatype Turn = Turn(owner: int, events: seq<Event>)

  function Owners(others: seq<Turn>): seq<int> {
    seq(|others|, i requires 0 <= i < |others| => others[i].owner)
  }

  /** What the bus carries in the first `n` turns. */
  function Carried(others: seq<Turn>, n: nat): seq<Event>
    requires n <= |others|
    decreases n
  {
    if n == 0 then [] else Carried(others, n - 1) + others[n - 1].events
  }

  /** Attempt number `n` is the first to find the mutex free, or none does and `n` is the last. */
  predicate WaitsFor(owner: int, others: seq<Turn>, got: bool, n: nat) {
    && n <= |others|
    && (forall i :: 0 <= i < n ==> OwnerAt(owner, Owners(others), i) >= 0)
    && (if got then OwnerAt(owner, Owners(others), n) < 0 else n == |others| && OwnerAt(owner, Owners(others), n) >= 0)
  }

  /** What the opening, the body and the stop of a transaction put on the bus, one after the other. */
  lemma WholeInParts(before: seq<Event>, who: nat, t: Transaction)
    ensures before + Opening(who, t) + BodyEvents(who, t) + [Stop(who)]
         == before + Whole(who, t)
  {
    WholeTransaction(who, t);
    var body := BodyEvents(who, t);
    Associate(before, Opening(who, t), body);
    Associate(before, Opening(who, t) + body, [Stop(who)]);
  }

  lemma OpeningInParts(before: seq<Event>, who: nat, t: Transaction)
    ensures before + [Start(who)] + (if t.dir.Receive? then [AckOn(who)] else []) + [Addressed(who, t.addr, t.dir)]
         == before + Opening(who, t)
  {
  }

  lemma SentThree(before: seq<Event>, who: nat, data: seq<Byte>)
    requires |data| == 3
    ensures before + [Sent(who, data[0])] + [Sent(who, data[1])] + [Sent(who, data[2])] == before + SentFirst(who, data, 3)
  {
  }

  lemma SentOne(who: nat, data: seq<Byte>)
    requires data != []
    ensures SentFirst(who, data, 1) == [Sent(who, data[0])]
  {
  }

  lemma ReceivedNext(before: seq<Event>, who: nat, slave: seq<Byte>, n: nat)
    requires n < |slave|
    ensures before + Received(who, slave, n + 1)
         == before + Received(who, slave, n) + (if n == |slave| - 1 then [AckOff(who)] else []) + [Got(who, slave[n])]
  {
  }

  class YIic {
    const mutex: YMutex
    var currentTranType: Direction
    /** What the bus has carried. */
    ghost var trace: seq<Event>

    /** `yiic_master_init` */
    constructor ()
      ensures mutex.owner == NONE && fresh(mutex) && trace == []
    {
      mutex := new YMutex();
      currentTranType := Transmit;
      trace := [];
    }

    /** `yiic_master_trans_start`, for task `self`, while the others do `others` for as long as it waits.
        It starts once the mutex is free and taken, and not before. */
    method TransStart(self: nat, tranType: Direction, others: seq<Turn>) returns (started: bool, ghost calls: nat)
      modifies this, mutex
      ensures WaitsFor(old(mutex.owner), others, started, calls)
      ensures started ==> mutex.owner == self && currentTranType == tranType
      ensures trace == old(trace) + Carried(others, calls)
              + if started then [Start(self)] + (if tranType.Receive? then [AckOn(self)] else []) else []
    {
      var n;
      started, n := mutex.Lock(self, Owners(others));
      calls := n;
      trace := trace + Carried(others, n);
      if !started {
        return;
      }
      currentTranType := tranType;
      trace := trace + [Start(self)];
      if currentTranType == Receive {
        trace := trace + [AckOn(self)];
      }
    }

    /** `yiic_master_select_slave` */
    method SelectSlave(self: nat, addr: nat)
      modifies this`trace
      ensures trace == old(trace) + [Addressed(self, addr, currentTranType)]
    {
      trace := trace + [Addressed(self, addr, if currentTranType == Transmit then Transmit else Receive)];
    }

    /** `yiic_master_transmit_data` */
    method TransmitData(self: nat, data: array?<Byte>, len: nat) returns (n: nat)
      requires data != null ==> len <= data.Length
      modifies this`trace
      ensures data == null ==> n == 0 && trace == old(trace)
      ensures data != null ==> n == len && trace == old(trace) + SentFirst(self, data[..], len)
    {
      n := 0;
      if data == null {
        return;
      }
      ghost var bytes, before := data[..], trace;
      while n < len
        invariant n <= len && trace == before + SentFirst(self, bytes, n)
      {
        OneMoreSent(before, self, bytes, n + 1);
        trace := trace + [Sent(self, data[n])];
        n := n + 1;
      }
    }

    /** `yiic_master_receive_data`, from a slave that answers `slave` */
    method ReceiveData(self: nat, buff: array?<Byte>, len: nat, slave: seq<Byte>) returns (n: nat)
      requires buff != null ==> len <= buff.Length
      requires len == |slave|
      modifies this`trace, buff
      ensures buff == null ==> n == 0 && trace == old(trace)
      ensures buff != null ==> n == len && trace == old(trace) + Received(self, slave, len)
      ensures buff != null ==> forall j :: 0 <= j < buff.Length ==> buff[j] == if j < len then slave[j] else old(buff[j])
    {
      n := 0;
      if buff == null {
        return;
      }
      ghost var before := trace;
      while n < len
        invariant n <= len
        invariant forall j :: 0 <= j < buff.Length ==> buff[j] == if j < n then slave[j] else old(buff[j])
        invariant trace == before + Received(self, slave, n)
      {
        ReceivedNext(before, self, slave, n);
        var isLastByte := n == len - 1;
        if isLastByte {
          trace := trace + [AckOff(self)];
        }
        buff[n] := slave[n];
        trace := trace + [Got(self, buff[n])];
        n := n + 1;
      }
    }

    /** `yiic_master_trans_stop` */
    method TransStop(self: nat)
      modifies this`trace, mutex
      ensures trace == old(trace) + [Stop(self)]
      ensures mutex.owner == UnlockWord(old(mutex.owner), self).0
    {
      trace := trace + [Stop(self)];
      var _ := mutex.Unlock(self);
    }

    /** `iic_stub_start`: the opening of a transaction of the sensor's */
    method StubStart(self: nat, dir: Direction, others: seq<Turn>) returns (started: bool, ghost calls: nat)
      modifies this, mutex
      ensures WaitsFor(old(mutex.owner), others, started, calls)
      ensures started ==> mutex.owner == self && currentTranType == dir
      ensures trace == old(trace) + Carried(others, calls)
              + if started then Opening(self, Transaction(dir, AHT20_ADDRESS, [])) else []
    {
      ghost var before := trace;
      started, calls := TransStart(self, dir, others);
      if started {
        SelectSlave(self, AHT20_ADDRESS);
        OpeningInParts(before + Carried(others, calls), self, Transaction(dir, AHT20_ADDRESS, []));
      }
    }

    /** `iic_stub_write` */
    method StubWrite(self: nat, b: Byte)
      modifies this`trace
      ensures trace == old(trace) + [Sent(self, b)]
    {
      var one := new Byte[1];
      one[0] := b;
      var _ := TransmitData(self, one, 1);
      SentOne(self, one[..]);
    }

    /** `aht20_send_full_command`: the whole of one transmit transaction, once the mutex is free */
    method SendFullCommand(self: nat, cmd: Byte, param1: Byte, param2: Byte, others: seq<Turn>)
      returns (sent: bool, ghost calls: nat)
      modifies this, mutex
      ensures WaitsFor(old(mutex.owner), others, sent, calls)
      ensures sent ==> mutex.owner == NONE
      ensures trace == old(trace) + Carried(others, calls)
              + if sent then Whole(self, Transaction(Transmit, 0x38, [cmd, param1, param2])) else []
    {
      ghost var before := trace;
      sent, calls := StubStart(self, Transmit, others);
      if sent {
        ghost var t := Transaction(Transmit, AHT20_ADDRESS, [cmd, param1, param2]);
        ghost var begun := trace;
        StubWrite(self, cmd);
        StubWrite(self, param1);
        StubWrite(self, param2);
        SentThree(begun, self, t.data);
        TransStop(self);
        WholeInParts(before + Carried(others, calls), self, t);
      }
    }

    /** The bus part of `aht20_read`: the whole of one receive transaction, once the mutex is free, and the
        slave's answer in the buffer */
    method ReadFrame(self: nat, frame: array<Byte>, slave: seq<Byte>, others: seq<Turn>)
      returns (got: bool, ghost calls: nat)
      requires |slave| == frame.Length
      modifies this, mutex, frame
      ensures WaitsFor(old(mutex.owner), others, got, calls)
      ensures got ==> mutex.owner == NONE
      ensures frame[..] == if got then slave else old(frame[..])
      ensures trace == old(trace) + Carried(others, calls)
              + if got then Whole(self, Transaction(Receive, 0x38, slave)) else []
    {
      ghost var before := trace;
      got, calls := StubStart(self, Receive, others);
      if got {
        var _ := ReceiveData(self, frame, frame.Length, slave);
        TransStop(self);
        WholeInParts(before + Carried(others, calls), self, Transaction(Receive, AHT20_ADDRESS, slave));
      }
    }
  }
}
