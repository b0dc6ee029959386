/** From the wire to the arguments: `basic_io_readline` of lib/cmdline/basic_io.c over the ring of Uart,
    then the tokenizer, as the loop of `do_cmdline` in lib/cmdline/cmdline.c runs them. */
module InputPath {
  import opened Arith
  import opened RingBuffer
  import opened Uart
  import opened CmdLine

  const LF := '\n'
  const LINE_MAX := 256

  /** What the interrupt puts into the ring before each poll of a reader: `a[k]` before poll `k`. */
  type Arrivals = seq<seq<char>>

  /** What arrives before the polls from `k` up to, but not including, `j`. */
  function FlatTo(a: Arrivals, k: nat, j: nat): seq<char>
    requires j <= |a|
    decreases if k < j then j - k else 0
  {
    if k >= j then [] else a[k] + FlatTo(a, k + 1, j)
  }

  /** A line is complete once it ends in LF or fills the buffer. */
  predicate Complete(got: seq<char>, len: nat) {
    |got| >= len || (got != [] && got[|got| - 1] == LF)
  }

  /** The bytes read, those left in the ring, and the next poll, when readline is done or runs out of
      polls. */
  function Collect(q: seq<char>, a: Arrivals, k: nat, got: seq<char>, len: nat): (r: (seq<char>, seq<char>, nat))
    requires k <= |a|
    ensures k <= r.2 <= |a|
    ensures !Complete(r.0, len) ==> r.2 == |a|
    decreases |a| - k
  {
    if Complete(got, len) || k == |a| then (got, q, k)
    else
      var q' := LastN(q + a[k], CAPACITY);
      if q' == [] then Collect(q', a, k + 1, got, len) else Collect(q'[1..], a, k + 1, got + [q'[0]], len)
  }

  lemma CollectOnce(q: seq<char>, a: Arrivals, k: nat, got: seq<char>, len: nat)
    requires k < |a| && !Complete(got, len)
    ensures var q' := LastN(q + a[k], CAPACITY);
            Collect(q, a, k, got, len)
            == if q' == [] then Collect(q', a, k + 1, got, len) else Collect(q'[1..], a, k + 1, got + [q'[0]], len)
  {
  }

  /** No poll finds that more than 256 bytes had piled up. */
  predicate NoOverflow(q: seq<char>, a: Arrivals, k: nat, got: seq<char>, len: nat)
    requires k <= |a|
    decreases |a| - k
  {
    Complete(got, len) || k == |a| ||
    (|q + a[k]| <= CAPACITY &&
     var q' := q + a[k];
     if q' == [] then NoOverflow(q', a, k + 1, got, len) else NoOverflow(q'[1..], a, k + 1, got + [q'[0]], len))
  }

  /** What readline leaves in its buffer: its last byte, once complete, is a NUL. */
  function Terminated(got: seq<char>, len: nat): (line: seq<char>)
    ensures |line| == |got|
  {
    if got != [] && Complete(got, len) then got[|got| - 1 := NUL] else got
  }

  /** `buf` begins with `line` and is otherwise as it was. */
  ghost predicate Filled(buf: seq<char>, line: seq<char>, was: seq<char>) {
    && |line| <= |buf| == |was|
    && forall i :: 0 <= i < |buf| ==> buf[i] == if i < |line| then line[i] else was[i]
  }

  /** The bytes read stand at the start of `buf`, with a NUL for the last of them. */
  ghost predicate ReadInto(buf: seq<char>, got: seq<char>) {
    && 0 < |got| <= |buf| && buf[|got| - 1] == '\0'
    && forall i :: 0 <= i < |got| - 1 ==> buf[i] == got[i]
  }

  /** `buf[total] = byte` */
  method PutAt(buf: array<char>, n: nat, b: char, ghost got: seq<char>, ghost was: seq<char>)
    requires Filled(buf[..], got, was) && n == |got| < buf.Length
    modifies buf
    ensures Filled(buf[..], got + [b], was)
  {
    buf[n] := b;
  }

  /** `buf[total - 1] = '\0'` */
  method Terminate(buf: array<char>, n: nat, ghost got: seq<char>, ghost was: seq<char>, ghost len: nat)
    requires Filled(buf[..], got, was) && 0 < n == |got| && Complete(got, len)
    modifies buf
    ensures Filled(buf[..], Terminated(got, len), was) && ReadInto(buf[..], got)
  {
    buf[n - 1] := NUL;
  }

  class Reader {
    const usart: Usart

    constructor (u: Usart)
      ensures usart == u
    {
      usart := u;
    }

    ghost predicate Ready()
      reads this, usart, usart.rx
    {
      usart.Ready()
    }

    ghost function Unread(): seq<char>
      requires Ready()
      reads this, usart, usart.rx, usart.rx.data
    {
      usart.rx.Contents()
    }

    /** The interrupts of one gap between polls */
    method Interrupts(bytes: seq<char>)
      requires Ready()
      modifies usart.rx`start, usart.rx`end, usart.rx`currentLen, usart.rx.data
      ensures Ready() && usart.rx.data == old(usart.rx.data)
      ensures Unread() == LastN(old(Unread()) + bytes, CAPACITY)
    {
      ghost var q := Unread();
      assert q + bytes[..0] == q;
      for i := 0 to |bytes|
        invariant Ready() && Unread() == LastN(q + bytes[..i], CAPACITY)
        invariant usart.rx.data == old(usart.rx.data)
      {
        assert q + bytes[..i + 1] == (q + bytes[..i]) + [bytes[i]];
        LastNAppend(q + bytes[..i], [bytes[i]], CAPACITY);
        usart.Isr(true, bytes[i]);
      }
      assert bytes[..|bytes|] == bytes;
    }

    /** One poll, and the interrupts before it */
    method Poll(bytes: seq<char>) returns (result: int, b: char)
      requires Ready()
      modifies usart.rx`start, usart.rx`end, usart.rx`currentLen, usart.rx.data
      ensures Ready() && usart.rx.data == old(usart.rx.data)
      ensures var q := LastN(old(Unread()) + bytes, CAPACITY);
              if q == [] then result != 0 && Unread() == [] else result == 0 && b == q[0] && Unread() == q[1..]
    {
      Interrupts(bytes);
      result, b := usart.ReadByteNoBlock();
    }

    /** `basic_io_readline`. It polls until the line is complete; `done` is false if the polls run out
        first, and the real call would still be polling. Polls are counted from `first`. */
    method ReadLine(buf: array?<char>, len: nat, a: Arrivals, first: nat) returns (done: bool, ret: int, next: nat)
      requires Ready() && 1 <= len < 0x1_0000 && first <= |a|
      requires buf != null ==> len <= buf.Length && buf != usart.rx.data
      modifies usart.rx`start, usart.rx`end, usart.rx`currentLen, usart.rx.data, buf
      ensures Ready() && usart.rx.data == old(usart.rx.data)
      ensures buf == null ==> done && ret == -1 && next == first && Unread() == old(Unread())
      ensures buf != null ==>
                var (got, q, k) := Collect(old(Unread()), a, first, [], len);
                && done == Complete(got, len) && ret == |got| <= len && Unread() == q && next == k
                && Filled(buf[..], Terminated(got, len), old(buf[..]))
                && (done ==> ReadInto(buf[..], got))
    {
      next := first;
      if buf == null {
        return true, -1, first;
      }
      var n := 0;
      ghost var was, got := buf[..], [];
      ghost var q0 := Unread();
      while n < len && next < |a|
        invariant Ready() && buf != usart.rx.data && usart.rx.data == old(usart.rx.data)
        invariant next <= |a| && n == |got| <= len && (n < len ==> !Complete(got, len))
        invariant Collect(q0, a, first, [], len) == Collect(Unread(), a, next, got, len)
        invariant Filled(buf[..], got, was)
        decreases |a| - next
      {
        ghost var q := Unread();
        var result, b := Poll(a[next]);
        CollectOnce(q, a, next, got, len);
        next := next + 1;
        if result == 0 {
          PutAt(buf, n, b, got, was);
          n := n + 1;
          got := got + [b];
          if b == LF {
            Terminate(buf, n, got, was, len);
            return true, n, next;
          }
        }
      }
      if n == len {
        Terminate(buf, n, got, was, len);
      }
      return n == len, n, next;
    }
  }

  // ----- Readline as a run of Uart -----

  function Arriving(bytes: seq<char>): seq<UOp> {
    seq(|bytes|, i requires 0 <= i < |bytes| => Arrive(bytes[i]))
  }

  /** The receiver's run that the polls from `k` up to `j` are. */
  function Script(a: Arrivals, k: nat, j: nat): seq<UOp>
    requires j <= |a|
    decreases if k < j then j - k else 0
  {
    if k >= j then [] else Arriving(a[k]) + [Read] + Script(a, k + 1, j)
  }

  lemma {:induction false} ExecAppend(s: Line, x: seq<UOp>, y: seq<UOp>)
    ensures UExec(s, x + y) == UExec(UExec(s, x), y)
    decreases |x|
  {
    if x == [] {
      assert x + y == y;
    } else {
      assert (x + y)[1..] == x[1..] + y;
      ExecAppend(UStep(s, x[0]), x[1..], y);
    }
  }

  lemma {:induction false} ArrivingFills(s: Line, bytes: seq<char>)
    requires |s.queue| <= CAPACITY
    ensures var e := UExec(s, Arriving(bytes));
            e.queue == LastN(s.queue + bytes, CAPACITY) && e.delivered == s.delivered && e.received == s.received + bytes
    decreases |bytes|
  {
    if bytes == [] {
      assert s.queue + bytes == s.queue;
    } else {
      var s' := UStep(s, Arrive(bytes[0]));
      assert Arriving(bytes)[1..] == Arriving(bytes[1..]);
      ArrivingFills(s', bytes[1..]);
      assert s.queue + bytes == (s.queue + [bytes[0]]) + bytes[1..];
      LastNAppend(s.queue + [bytes[0]], bytes[1..], CAPACITY);
    }
  }

  /** The receiver once `bytes` have come in and one poll has been made. */
  function Polled(s: Line, bytes: seq<char>): Line {
    UStep(UExec(s, Arriving(bytes)), Read)
  }

  lemma PollIs(s: Line, bytes: seq<char>)
    requires |s.queue| <= CAPACITY
    ensures var q := LastN(s.queue + bytes, CAPACITY);
            var s1 := Polled(s, bytes);
            if q == [] then s1.queue == [] && s1.delivered == s.delivered
            else s1.queue == q[1..] && s1.delivered == s.delivered + [q[0]]
  {
    ArrivingFills(s, bytes);
  }

  lemma ScriptStep(s: Line, a: Arrivals, k: nat, j: nat)
    requires k < j <= |a|
    ensures UExec(s, Script(a, k, j)) == UExec(Polled(s, a[k]), Script(a, k + 1, j))
  {
    ExecAppend(s, Arriving(a[k]) + [Read], Script(a, k + 1, j));
    ExecAppend(s, Arriving(a[k]), [Read]);
  }

  /** Readline takes its bytes in a run of the receiver, so StreamOverRuns says what they are, overflow
      or not: what `e` has delivered more than `s` is what `got'` has more than `got`. */
  lemma {:induction false} CollectIsARun(s: Line, a: Arrivals, k: nat, got: seq<char>, len: nat)
    requires |s.queue| <= CAPACITY && k <= |a|
    ensures var (got', q', k') := Collect(s.queue, a, k, got, len);
            var e := UExec(s, Script(a, k, k'));
            e.queue == q' && exists more :: got' == got + more && e.delivered == s.delivered + more
    decreases |a| - k
  {
    var (got', q', k') := Collect(s.queue, a, k, got, len);
    if Complete(got, len) || k == |a| {
      assert got' == got + [] && s.delivered == s.delivered + [];
    } else {
      var s1, q := Polled(s, a[k]), LastN(s.queue + a[k], CAPACITY);
      var head := if q == [] then [] else [q[0]];
      PollIs(s, a[k]);
      CollectIsARun(s1, a, k + 1, got + head, len);
      assert q == [] ==> got + head == got;
      ScriptStep(s, a, k, k');
      var more :| got' == (got + head) + more && UExec(s, Script(a, k, k')).delivered == s1.delivered + more;
      Regroup(got, head, more);
      Regroup(s.delivered, head, more);
    }
  }

  // ----- Lines that arrive whole -----

  /** A poll moves a byte from the wire to what has been read, without losing or reordering any. */
  lemma PollConserves(got: seq<char>, q: seq<char>, bytes: seq<char>, later: seq<char>)
    ensures got + q + (bytes + later) == got + (q + bytes) + later
    ensures q + bytes != [] ==>
              got + q + (bytes + later) == (got + [(q + bytes)[0]]) + (q + bytes)[1..] + later
  {
  }

  /** Unless the ring overflows, reading neither loses nor reorders a byte. */
  lemma {:induction false} CollectConserves(q: seq<char>, a: Arrivals, k: nat, got: seq<char>, len: nat, j: nat)
    requires k <= |a| && NoOverflow(q, a, k, got, len) && Collect(q, a, k, got, len).2 <= j <= |a|
    ensures var (got', q', k') := Collect(q, a, k, got, len);
            got' + q' + FlatTo(a, k', j) == got + q + FlatTo(a, k, j)
    decreases |a| - k
  {
    if !Complete(got, len) && k < |a| {
      var q1 := q + a[k];
      PollConserves(got, q, a[k], FlatTo(a, k + 1, j));
      if q1 == [] {
        CollectConserves(q1, a, k + 1, got, len, j);
      } else {
        CollectConserves(q1[1..], a, k + 1, got + [q1[0]], len, j);
      }
    }
  }

  /** Room for `got`, and no LF in it but perhaps at its very end. */
  ghost predicate OneLine(got: seq<char>, len: nat) {
    |got| <= len && forall i :: 0 <= i < |got| - 1 ==> got[i] != LF
  }

  lemma {:induction false} CollectIsOneLine(q: seq<char>, a: Arrivals, k: nat, got: seq<char>, len: nat)
    requires k <= |a| && OneLine(got, len)
    ensures OneLine(Collect(q, a, k, got, len).0, len)
    decreases |a| - k
  {
    if !Complete(got, len) && k < |a| {
      var q1 := LastN(q + a[k], CAPACITY);
      if q1 == [] {
        CollectIsOneLine(q1, a, k + 1, got, len);
      } else {
        CollectIsOneLine(q1[1..], a, k + 1, got + [q1[0]], len);
      }
    }
  }

  /** The line and its LF come first on the wire. */
  ghost predicate LineArrives(line: seq<char>, wire: seq<char>) {
    && |line| < |wire| && wire[|line|] == '\n'
    && forall i :: 0 <= i < |line| ==> wire[i] == line[i] != '\n'
  }

  lemma PrefixIsLine(line: seq<char>, wire: seq<char>, got: seq<char>, len: nat)
    requires LineArrives(line, wire) && got <= wire && |line| < len && OneLine(got, len)
    ensures |got| <= |line| + 1
    ensures Complete(got, len) <==> |got| == |line| + 1
    ensures Complete(got, len) ==> got == line + [LF]
  {
    assert forall i :: 0 <= i < |got| ==> got[i] == wire[i];
    assert |got| > |line| ==> got[|line|] == LF;
  }

  /** A line of fewer than `len` bytes that comes first, in the ring already or still on the wire, is
      what a completed readline has read, whatever the timing; and the rest is left for the next. */
  lemma LineIsRead(line: seq<char>, q: seq<char>, a: Arrivals, k: nat, len: nat)
    requires k <= |a| && |line| < len && NoOverflow(q, a, k, [], len)
    requires LineArrives(line, q + FlatTo(a, k, |a|))
    ensures var (got, q', k') := Collect(q, a, k, [], len);
            if Complete(got, len) then got == line + ['\n'] && got + q' + FlatTo(a, k', |a|) == q + FlatTo(a, k, |a|)
            else |got| <= |line|
  {
    var (got, q', k') := Collect(q, a, k, [], len);
    CollectConserves(q, a, k, [], len, |a|);
    CollectIsOneLine(q, a, k, [], len);
    var wire := q + FlatTo(a, k, |a|);
    assert [] + q + FlatTo(a, k, |a|) == wire;
    Regroup(got, q', FlatTo(a, k', |a|));
    PrefixIsLine(line, wire, got, len);
  }

  /** More arrivals only lengthen the wire. */
  lemma LineStillArrives(line: seq<char>, wire: seq<char>, more: seq<char>)
    requires LineArrives(line, wire)
    ensures LineArrives(line, wire + more)
  {
  }

  /** Once the whole line has arrived, by poll `j`, as many polls as it has bytes are enough for readline
      to return. */
  lemma {:induction false} EnoughPolls(line: seq<char>, q: seq<char>, a: Arrivals, k: nat, got: seq<char>, len: nat, j: nat)
    requires k <= |a| && j <= |a| && NoOverflow(q, a, k, got, len)
    requires |line| < len && OneLine(got, len) && LineArrives(line, got + q + FlatTo(a, k, j))
    requires |got| <= |line| + 1 && Max(j, k) + (|line| + 1 - |got|) <= |a|
    ensures Complete(Collect(q, a, k, got, len).0, len)
    ensures Collect(q, a, k, got, len).2 <= Max(j, k) + (|line| + 1 - |got|)
    decreases |a| - k
  {
    var wire := got + q + FlatTo(a, k, j);
    assert got <= wire;
    PrefixIsLine(line, wire, got, len);
    if !Complete(got, len) {
      var q1 := q + a[k];
      if k < j {
        PollConserves(got, q, a[k], FlatTo(a, k + 1, j));
      } else {
        PollConserves(got, q, a[k], []);
        LineStillArrives(line, wire, a[k]);
        assert got + q + (a[k] + []) == wire + a[k];
      }
      if q1 == [] {
        EnoughPolls(line, q1, a, k + 1, got, len, j);
      } else {
        EnoughPolls(line, q1[1..], a, k + 1, got + [q1[0]], len, j);
      }
    }
  }

  // ----- Sessions -----

  /** The lines from number `i` on, each followed by LF. */
  function Wire(lines: seq<seq<char>>, i: nat): seq<char>
    decreases if i < |lines| then |lines| - i else 0
  {
    if i >= |lines| then [] else (lines[i] + ['\n']) + Wire(lines, i + 1)
  }

  ghost predicate AreLines(lines: seq<seq<char>>, len: nat) {
    forall i :: 0 <= i < |lines| ==> |lines[i]| < len && '\n' !in lines[i]
  }

  /** No overflow during `n` reads, one after the other. */
  predicate NoOverflowIn(q: seq<char>, a: Arrivals, k: nat, len: nat, n: nat)
    requires k <= |a|
    decreases n
  {
    n == 0 ||
    (NoOverflow(q, a, k, [], len) &&
     var (got, q', k') := Collect(q, a, k, [], len);
     Complete(got, len) ==> NoOverflowIn(q', a, k', len, n - 1))
  }

  lemma WireStartsWithLine(lines: seq<seq<char>>, i: nat, wire: seq<char>)
    requires i < |lines| && '\n' !in lines[i] && Wire(lines, i) <= wire
    ensures LineArrives(lines[i], wire)
  {
    var first := lines[i] + [LF];
    assert Wire(lines, i) == first + Wire(lines, i + 1);
    forall x | 0 <= x < |first| ensures wire[x] == first[x] {
      assert wire[x] == Wire(lines, i)[x];
    }
  }

  lemma CancelFirst(a: seq<char>, b: seq<char>, c: seq<char>)
    requires a + b <= a + c
    ensures b <= c
  {
    forall x | 0 <= x < |b| ensures b[x] == c[x] {
      assert (a + b)[|a| + x] == (a + c)[|a| + x];
    }
  }

  /** One read of a session: the next line is read if the read completes, and the others are left. */
  lemma NextLineIsRead(lines: seq<seq<char>>, i: nat, q: seq<char>, a: Arrivals, k: nat, len: nat)
    requires i < |lines| && AreLines(lines, len) && k <= |a| && NoOverflow(q, a, k, [], len)
    requires Wire(lines, i) <= q + FlatTo(a, k, |a|)
    ensures var (got, q', k') := Collect(q, a, k, [], len);
            Complete(got, len) ==> got == lines[i] + [LF] && Wire(lines, i + 1) <= q' + FlatTo(a, k', |a|)
  {
    var (got, q', k') := Collect(q, a, k, [], len);
    WireStartsWithLine(lines, i, q + FlatTo(a, k, |a|));
    LineIsRead(lines[i], q, a, k, len);
    if Complete(got, len) {
      Regroup(got, q', FlatTo(a, k', |a|));
      CancelFirst(got, Wire(lines, i + 1), q' + FlatTo(a, k', |a|));
    }
  }

  /** Everything from line `i` on has arrived by poll `j`, with a poll left for each of its bytes. */
  ghost predicate InTime(lines: seq<seq<char>>, i: nat, q: seq<char>, a: Arrivals, k: nat, j: nat) {
    k <= |a| && j <= |a| && Wire(lines, i) <= q + FlatTo(a, k, j) && Max(j, k) + |Wire(lines, i)| <= |a|
  }

  /** The bytes before poll `j` come first among those before a later one. */
  lemma {:induction false} FlatGrows(a: Arrivals, k: nat, j: nat, m: nat)
    requires j <= m <= |a|
    ensures FlatTo(a, k, j) <= FlatTo(a, k, m)
    decreases if k < j then j - k else 0
  {
    if k < j { FlatGrows(a, k + 1, j, m); }
  }

  lemma PrefixOfSum(w: seq<char>, q: seq<char>, a: seq<char>, b: seq<char>)
    requires w <= q + a && a <= b
    ensures w <= q + b
  {
    assert (q + b)[..|q + a|] == q + a;
  }

  /** What arrives in time is read, and leaves what comes after it in time. */
  lemma NextLineInTime(lines: seq<seq<char>>, i: nat, q: seq<char>, a: Arrivals, k: nat, len: nat, j: nat)
    requires i < |lines| && AreLines(lines, len) && k <= |a| && NoOverflow(q, a, k, [], len)
    requires InTime(lines, i, q, a, k, j)
    ensures var (got, q', k') := Collect(q, a, k, [], len);
            Complete(got, len) && InTime(lines, i + 1, q', a, k', Max(j, k'))
  {
    var (got, q', k') := Collect(q, a, k, [], len);
    var line, m := lines[i], Max(j, k');
    WireStartsWithLine(lines, i, q + FlatTo(a, k, j));
    assert [] + q + FlatTo(a, k, j) == q + FlatTo(a, k, j);
    EnoughPolls(line, q, a, k, [], len, j);
    FlatGrows(a, k, j, m);
    FlatGrows(a, k, m, |a|);
    PrefixOfSum(Wire(lines, i), q, FlatTo(a, k, j), FlatTo(a, k, m));
    PrefixOfSum(Wire(lines, i), q, FlatTo(a, k, m), FlatTo(a, k, |a|));
    NextLineIsRead(lines, i, q, a, k, len);
    CollectConserves(q, a, k, [], len, m);
    assert [] + q + FlatTo(a, k, m) == q + FlatTo(a, k, m);
    Regroup(got, q', FlatTo(a, k', m));
    CancelFirst(got, Wire(lines, i + 1), q' + FlatTo(a, k', m));
  }

  /** What the argument vector reads as. */
  function ArgsIn(line: seq<char>, argv: seq<int>, argc: nat): seq<seq<char>>
    requires argc <= |argv| && forall i :: 0 <= i < argc ==> 0 <= argv[i] <= |line|
  {
    seq(argc, i requires 0 <= i < argc => CString(line, argv[i]))
  }

  lemma ReadLineStands(buf: seq<char>, line: seq<char>, was: seq<char>, len: nat)
    requires Filled(buf, Terminated(line + [LF], len), was) && NUL !in line && |line| < len
    ensures Stands(buf, 0, line)
  {
    assert Terminated(line + [LF], len) == line + [NUL];
    forall i | 0 <= i < |line| ensures buf[0 + i] == line[i] != NUL {
      assert (line + [NUL])[i] == line[i];
    }
    assert (line + [NUL])[|line|] == NUL;
  }

  lemma ArgsAreTokens(text: seq<char>, was: seq<char>, line: seq<char>, argv: seq<int>, argc: nat)
    requires ArgsOf(text, was, line, argv, argc)
    ensures ArgsIn(line, argv, argc) == Take(Tokens(text), 10)
  {
  }

  /** The read-then-tokenize step of `do_cmdline`. A line of at most 255 bytes, without NUL or LF, that
      comes next, in the ring already or still on the wire, comes out as exactly its tokens, in any
      interleaving that never leaves more than 256 bytes unread. */
  method DoCmdlineStep(r: Reader, cmdline: array<char>, argv: array<int>, a: Arrivals, first: nat, ghost line: seq<char>)
    returns (done: bool, ret: int, args: seq<seq<char>>, next: nat)
    requires r.Ready() && cmdline.Length == LINE_MAX && cmdline != r.usart.rx.data && MAX_ARGS <= argv.Length
    requires first <= |a| && |line| <= 255 && NUL !in line && NoOverflow(r.Unread(), a, first, [], LINE_MAX)
    requires LineArrives(line, r.Unread() + FlatTo(a, first, |a|))
    modifies r.usart.rx`start, r.usart.rx`end, r.usart.rx`currentLen, r.usart.rx.data, cmdline, argv
    ensures r.Ready() && r.usart.rx.data == old(r.usart.rx.data)
    ensures var (got, q, k) := Collect(old(r.Unread()), a, first, [], LINE_MAX);
            done == Complete(got, LINE_MAX) && r.Unread() == q && next == k
    ensures done ==> ret == |line| + 1 && args == Take(Tokens(line), 10)
  {
    ghost var q, was := r.Unread(), cmdline[..];
    args := [];
    done, ret, next := r.ReadLine(cmdline, LINE_MAX, a, first);
    LineIsRead(line, q, a, first, LINE_MAX);
    if done && ret >= 0 {
      ghost var text := cmdline[..];
      ReadLineStands(text, line, was, LINE_MAX);
      StandsIsCString(text, 0, line);
      var argc := MakeArgs(cmdline, 0, argv);
      ArgsAreTokens(line, text, cmdline[..], argv[..], argc);
      args := ArgsIn(cmdline[..], argv[..], argc);
    }
  }

  /** The session up to line `i`: the lines from there on come next, and nothing will overflow. */
  ghost predicate Ahead(lines: seq<seq<char>>, i: nat, q: seq<char>, a: Arrivals, k: nat, len: nat) {
    && AreLines(lines, len) && i <= |lines| && k <= |a|
    && Wire(lines, i) <= q + FlatTo(a, k, |a|) && NoOverflowIn(q, a, k, len, |lines| - i)
  }

  lemma SessionStep(lines: seq<seq<char>>, i: nat, q: seq<char>, a: Arrivals, k: nat, len: nat, j: nat)
    requires Ahead(lines, i, q, a, k, len) && i < |lines|
    ensures LineArrives(lines[i], q + FlatTo(a, k, |a|)) && NoOverflow(q, a, k, [], len)
    ensures var (got, q', k') := Collect(q, a, k, [], len);
            && (Complete(got, len) ==> Ahead(lines, i + 1, q', a, k', len))
            && (InTime(lines, i, q, a, k, Max(j, k)) ==>
                  Complete(got, len) && InTime(lines, i + 1, q', a, k', Max(j, k')))
  {
    WireStartsWithLine(lines, i, q + FlatTo(a, k, |a|));
    NextLineIsRead(lines, i, q, a, k, len);
    if InTime(lines, i, q, a, k, Max(j, k)) { NextLineInTime(lines, i, q, a, k, len, Max(j, k)); }
  }

  /** The state of a session at line `i`; if `timely`, what remains arrives in time. */
  ghost predicate Session(lines: seq<seq<char>>, i: nat, q: seq<char>, a: Arrivals, k: nat, j: nat, timely: bool) {
    && Ahead(lines, i, q, a, k, LINE_MAX) && (forall x :: 0 <= x < |lines| ==> NUL !in lines[x])
    && (timely ==> InTime(lines, i, q, a, k, Max(j, k)))
  }

  /** One turn of the loop of `do_cmdline` in a session */
  method ReadCommand(r: Reader, cmdline: array<char>, argv: array<int>, a: Arrivals, k: nat,
                     ghost lines: seq<seq<char>>, ghost i: nat, ghost j: nat, ghost timely: bool)
    returns (done: bool, args: seq<seq<char>>, next: nat)
    requires r.Ready() && cmdline.Length == LINE_MAX && cmdline != r.usart.rx.data && MAX_ARGS <= argv.Length
    requires Session(lines, i, r.Unread(), a, k, j, timely) && i < |lines|
    modifies r.usart.rx`start, r.usart.rx`end, r.usart.rx`currentLen, r.usart.rx.data, cmdline, argv
    ensures r.Ready() && r.usart.rx.data == old(r.usart.rx.data)
    ensures timely ==> done
    ensures done ==> args == Take(Tokens(lines[i]), 10) && Session(lines, i + 1, r.Unread(), a, next, j, timely)
  {
    SessionStep(lines, i, r.Unread(), a, k, LINE_MAX, j);
    var ret;
    done, ret, args, next := DoCmdlineStep(r, cmdline, argv, a, k, lines[i]);
  }

  /** The commands read so far are the tokens of the first lines, one command a line and in order. */
  ghost predicate AreCommands(commands: seq<seq<seq<char>>>, lines: seq<seq<char>>) {
    |commands| <= |lines| && forall i :: 0 <= i < |commands| ==> commands[i] == Take(Tokens(lines[i]), 10)
  }

  lemma OneMoreCommand(commands: seq<seq<seq<char>>>, lines: seq<seq<char>>, args: seq<seq<char>>)
    requires AreCommands(commands, lines) && |commands| < |lines|
    requires args == Take(Tokens(lines[|commands|]), 10)
    ensures AreCommands(commands + [args], lines)
  {
  }

  /** The loop of `do_cmdline`, without its commands, over a session: the commands read are the tokens of
      the lines sent, one command a line and in order, none lost and none made up; and if the lines have
      arrived by some poll `j` with a poll left for each byte, all of them are read. */
  method DoCmdline(r: Reader, cmdline: array<char>, argv: array<int>, a: Arrivals, n: nat,
                   ghost lines: seq<seq<char>>, ghost j: nat)
    returns (commands: seq<seq<seq<char>>>)
    requires r.Ready() && cmdline.Length == LINE_MAX && cmdline != r.usart.rx.data && MAX_ARGS <= argv.Length
    requires n == |lines| && (forall i :: 0 <= i < n ==> NUL !in lines[i])
    requires Ahead(lines, 0, r.Unread(), a, 0, LINE_MAX)
    modifies r.usart.rx`start, r.usart.rx`end, r.usart.rx`currentLen, r.usart.rx.data, cmdline, argv
    ensures AreCommands(commands, lines)
    ensures InTime(lines, 0, old(r.Unread()), a, 0, j) ==> |commands| == n
  {
    commands := [];
    ghost var timely := InTime(lines, 0, r.Unread(), a, 0, j);
    var i, k: nat, done := 0, 0, true;
    while i < n && done
      invariant r.Ready() && r.usart.rx.data == old(r.usart.rx.data)
      invariant i == |commands| <= n && (timely ==> done) && AreCommands(commands, lines)
      invariant done ==> Session(lines, i, r.Unread(), a, k, j, timely)
      decreases n - i, done
    {
      var args;
      done, args, k := ReadCommand(r, cmdline, argv, a, k, lines, i, j, timely);
      if done {
        OneMoreCommand(commands, lines, args);
        commands := commands + [args];
        i := i + 1;
      }
    }
  }
}
