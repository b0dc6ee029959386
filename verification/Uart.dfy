/** The receive side of src/ydevice/yusart.c: an interrupt puts bytes into a ring that drops its oldest
    when full, readers take them out. Whole runs of the two. */
module Uart {
  import opened RingBuffer

  const CAPACITY := 256

  class Usart {
    const rx: YRingBuffer

    /** `yusart_init`, its ring only */
    constructor ()
      ensures fresh(rx) && rx.Valid() && rx.data != null && fresh(rx.data) && rx.size == 256 && rx.Contents() == []
    {
      rx := new YRingBuffer();
      new;
      var buffer := new char[CAPACITY];
      rx.Init(buffer, CAPACITY);
    }

    ghost predicate Ready()
      reads this, rx
    {
      rx.Valid() && rx.data != null && rx.size == CAPACITY
    }

    /** `usart1_isr`, with its receive flag and data register */
    method Isr(rxne: bool, dr: char)
      requires Ready()
      modifies rx`start, rx`end, rx`currentLen, rx.data
      ensures Ready()
      ensures rx.Contents() == if rxne then LastN(old(rx.Contents()) + [dr], CAPACITY) else old(rx.Contents())
    {
      if rxne {
        var d := new char[1];
        d[0] := dr;
        var _ := rx.PutData(d, 1, true);
        assert d[..1] == [dr];
      }
    }

    /** `yusart_io_read_byte_no_block` */
    method ReadByteNoBlock() returns (ret: int, b: char)
      requires Ready()
      modifies rx`start, rx`currentLen
      ensures Ready()
      ensures ret == if old(rx.Contents()) == [] then -1 else 0
      ensures if ret == 0 then old(rx.Contents()) == [b] + rx.Contents() else rx.Contents() == []
    {
      ret, b := -1, '\0';
      var data := new char[1];
      var n := rx.GetData(data, 1);
      if n == 1 {
        b := data[0];
        ret := 0;
        assert data[..] == old(rx.Contents())[..1] + [];
      }
    }
  }

  // ----- Whole runs -----

  datatype UOp = Arrive(b: char) | Read

  /** `queue` is the ring's contents; the rest is history: all bytes received, all bytes read, and how
      many were dropped. */
  datatype Line = Line(queue: seq<char>, received: seq<char>, delivered: seq<char>, lost: nat)

  function UStep(s: Line, op: UOp): Line {
    match op
    case Arrive(b) =>
      s.(queue := LastN(s.queue + [b], CAPACITY), received := s.received + [b],
         lost := s.lost + |s.queue| + 1 - |LastN(s.queue + [b], CAPACITY)|)
    case Read =>
      if s.queue == [] then s else s.(queue := s.queue[1..], delivered := s.delivered + [s.queue[0]])
  }

  function UExec(s: Line, ops: seq<UOp>): Line
    decreases |ops|
  {
    if ops == [] then s else UExec(UStep(s, ops[0]), ops[1..])
  }

  /** No byte arrives while 256 are unread. */
  predicate NeverFull(s: Line, ops: seq<UOp>)
    decreases |ops|
  {
    ops == [] || ((ops[0].Arrive? ==> |s.queue| < CAPACITY) && NeverFull(UStep(s, ops[0]), ops[1..]))
  }

  /** `d` is `r` with some bytes left out. */
  predicate Subsequence(d: seq<char>, r: seq<char>)
    decreases |r|
  {
    if d == [] then true else if r == [] then false else
      (d[|d| - 1] == r[|r| - 1] && Subsequence(d[..|d| - 1], r[..|r| - 1])) || Subsequence(d, r[..|r| - 1])
  }

  lemma SubsequenceTakes(d: seq<char>, r: seq<char>, b: char)
    requires Subsequence(d, r)
    ensures Subsequence(d + [b], r + [b]) && Subsequence(d, r + [b])
  {
    assert (d + [b])[..|d|] == d && (r + [b])[..|r|] == r;
  }

  /** What has left the queue, by reading or by dropping. */
  function Past(s: Line): seq<char>
    requires |s.queue| <= |s.received|
  {
    s.received[..|s.received| - |s.queue|]
  }

  ghost predicate UInv(s: Line) {
    && |s.queue| <= CAPACITY && |s.queue| <= |s.received|
    && s.received == Past(s) + s.queue
    && |s.received| == |s.delivered| + s.lost + |s.queue|
    && Subsequence(s.delivered, Past(s))
    && (s.lost == 0 ==> s.delivered == Past(s))
  }

  /** The oldest unread byte leaves the queue, read or dropped. */
  lemma OldestLeaves(s: Line)
    requires UInv(s) && s.queue != []
    ensures s.received == (Past(s) + [s.queue[0]]) + s.queue[1..]
    ensures Subsequence(s.delivered + [s.queue[0]], Past(s) + [s.queue[0]])
    ensures Subsequence(s.delivered, Past(s) + [s.queue[0]])
  {
    SubsequenceTakes(s.delivered, Past(s), s.queue[0]);
  }

  lemma ArriveKeepsUInv(s: Line, b: char)
    requires UInv(s)
    ensures UInv(UStep(s, Arrive(b)))
    ensures UStep(s, Arrive(b)).lost == s.lost + if |s.queue| == CAPACITY then 1 else 0
  {
    var s' := UStep(s, Arrive(b));
    if |s.queue| == CAPACITY {
      OldestLeaves(s);
      assert s'.queue == s.queue[1..] + [b];
      assert Past(s') == Past(s) + [s.queue[0]];
    } else {
      assert s'.queue == s.queue + [b];
      assert Past(s') == Past(s);
    }
  }

  lemma ReadKeepsUInv(s: Line)
    requires UInv(s)
    ensures UInv(UStep(s, Read))
  {
    if s.queue != [] {
      OldestLeaves(s);
      assert Past(UStep(s, Read)) == Past(s) + [s.queue[0]];
    }
  }

  lemma UStepKeepsUInv(s: Line, op: UOp)
    requires UInv(s)
    ensures UInv(UStep(s, op))
    ensures UStep(s, op).lost == s.lost + if op.Arrive? && |s.queue| == CAPACITY then 1 else 0
  {
    if op.Arrive? { ArriveKeepsUInv(s, op.b); } else { ReadKeepsUInv(s); }
  }

  /** The stream over whole runs: what is unread is the end of what was received, at most 256 bytes of
      it; what was delivered is what was received before that, in order, with the lost bytes left out;
      and nothing is lost if and only if no byte ever arrives while 256 are unread. */
  lemma {:induction false} StreamOverRuns(s: Line, ops: seq<UOp>)
    requires UInv(s)
    ensures var e := UExec(s, ops);
            && |e.queue| <= 256 && |e.queue| <= |e.received|
            && e.queue == e.received[|e.received| - |e.queue|..]
            && Subsequence(e.delivered, Past(e))
            && |e.received| == |e.delivered| + e.lost + |e.queue|
            && (e.lost == 0 ==> e.received == e.delivered + e.queue)
            && e.lost >= s.lost && (e.lost == s.lost <==> NeverFull(s, ops))
    decreases |ops|
  {
    if ops != [] {
      UStepKeepsUInv(s, ops[0]);
      StreamOverRuns(UStep(s, ops[0]), ops[1..]);
    }
  }
}
