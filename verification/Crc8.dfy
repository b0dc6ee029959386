/** The CRC-8 of lib/AVR_aht20/src/aht20.c: polynomial 0x31, initial value 0xFF, most significant bit
    first, in its bitwise and its table-driven form; and what it detects. */
module Crc8 {

  const INIT: bv8 := 0xFF
  const FRAME_DATA := 6

  datatype Status = NotReady | CrcFail | Success

  /** One bit step: shift left, and subtract the polynomial when a one is shifted out. */
  function Step(c: bv8): bv8 {
    if c & 0x80 != 0 then (c << 1) ^ 0x31 else c << 1
  }

  function Step8(c: bv8): bv8 {
    Step(Step(Step(Step(Step(Step(Step(Step(c))))))))
  }

  function Crc(c: bv8, data: seq<bv8>): bv8
    decreases |data|
  {
    if data == [] then c else Crc(Step8(c ^ data[0]), data[1..])
  }

  function Steps(c: bv8, n: nat): bv8
    decreases n
  {
    if n == 0 then c else Steps(Step(c), n - 1)
  }

  lemma StepsIsStep8(c: bv8, n: nat)
    requires n == 8
    ensures Steps(c, n) == Step8(c)
  {
    var c2 := Step(Step(c));
    var c4 := Step(Step(c2));
    var c6 := Step(Step(c4));
    assert Steps(c, n) == Steps(c2, n - 2);
    assert Steps(c2, n - 2) == Steps(c4, n - 4);
    assert Steps(c4, n - 4) == Steps(c6, n - 6);
  }

  lemma {:induction false} CrcAppend(c: bv8, data: seq<bv8>, b: bv8)
    ensures Crc(c, data + [b]) == Step8(Crc(c, data) ^ b)
    decreases |data|
  {
    if data == [] {
      assert data + [b] == [b];
    } else {
      assert (data + [b])[1..] == data[1..] + [b];
      CrcAppend(Step8(c ^ data[0]), data[1..], b);
    }
  }

  lemma CrcNext(data: seq<bv8>, i: nat)
    requires i < |data|
    ensures Crc(0xFF, data[..i + 1]) == Step8(Crc(0xFF, data[..i]) ^ data[i])
  {
    CrcAppend(0xFF, data[..i], data[i]);
    assert data[..i + 1] == data[..i] + [data[i]];
  }

  /** `crc`, the form that saves space */
  method CrcBitwise(data: array<bv8>, len: nat) returns (crc: bv8)
    requires len <= data.Length && len < 256
    ensures crc == Crc(0xFF, data[..][..len])
  {
    crc := INIT;
    ghost var bytes := data[..];
    var i := 0;
    while i < len
      invariant i <= len && crc == Crc(0xFF, bytes[..i])
    {
      crc := crc ^ data[i];
      ghost var start, n := crc, 8;
      var j := 0;
      while j < 8
        invariant 0 <= j <= n == 8 && Steps(crc, n - j) == Steps(start, n)
      {
        if crc & 0x80 != 0 {
          crc := (crc << 1) ^ 0x31;
        } else {
          crc := crc << 1;
        }
        j := j + 1;
      }
      StepsIsStep8(start, n);
      CrcNext(bytes, i);
      i := i + 1;
    }
  }

  // ----- The CRC as a serial register -----

  function Top(bit: bool): bv8 {
    if bit then 0x80 else 0
  }

  function Feed(c: bv8, bit: bool): bv8 {
    Step(c ^ Top(bit))
  }

  /** Feeding one bit at a time. */
  function Serial(c: bv8, bits: seq<bool>): bv8
    decreases |bits|
  {
    if bits == [] then c else Serial(Feed(c, bits[0]), bits[1..])
  }

  function Bits(b: bv8): (bits: seq<bool>)
    ensures |bits| == 8
  {
    [b & 0x80 != 0, b & 0x40 != 0, b & 0x20 != 0, b & 0x10 != 0,
     b & 0x08 != 0, b & 0x04 != 0, b & 0x02 != 0, b & 0x01 != 0]
  }

  /** The bits of a message in the order they are sent. */
  function Stream(data: seq<bv8>): (bits: seq<bool>)
    ensures |bits| == 8 * |data|
  {
    if data == [] then [] else Bits(data[0]) + Stream(data[1..])
  }

  lemma {:induction false} SerialAppend(c: bv8, a: seq<bool>, b: seq<bool>)
    ensures Serial(c, a + b) == Serial(Serial(c, a), b)
    decreases |a|
  {
    if a == [] {
      assert a + b == b;
    } else {
      assert (a + b)[1..] == a[1..] + b;
      SerialAppend(Feed(c, a[0]), a[1..], b);
    }
  }

  /** The first `n` bits of `b`, shifted out one at a time. */
  function ShiftedOut(b: bv8, n: nat): seq<bool>
    decreases n
  {
    if n == 0 then [] else [b & 0x80 != 0] + ShiftedOut(b << 1, n - 1)
  }

  function Shifted(b: bv8, n: nat): bv8
    decreases n
  {
    if n == 0 then b else Shifted(b << 1, n - 1)
  }

  ghost predicate IsXor(a: bv8, b: bv8, sum: bv8) {
    a ^ b == sum
  }

  lemma FeedOne(c: bv8, b: bv8, sum: bv8)
    requires IsXor(c, b, sum)
    ensures IsXor(Feed(c, b & 0x80 != 0), b << 1, Step(sum))
  {
  }

  /** Adding a byte to the register and stepping is feeding its bits one at a time. */
  lemma {:induction false} FeedMany(c: bv8, b: bv8, sum: bv8, n: nat)
    requires IsXor(c, b, sum)
    ensures IsXor(Serial(c, ShiftedOut(b, n)), Shifted(b, n), Steps(sum, n))
    decreases n
  {
    if n > 0 {
      FeedOne(c, b, sum);
      FeedMany(Feed(c, b & 0x80 != 0), b << 1, Step(sum), n - 1);
      assert ShiftedOut(b, n)[1..] == ShiftedOut(b << 1, n - 1);
    }
  }

  lemma {:induction false} ShiftedOutAt(b: bv8, n: nat, i: nat)
    requires i < n
    ensures |ShiftedOut(b, n)| == n && ShiftedOut(b, n)[i] == (Shifted(b, i) & 0x80 != 0)
    decreases n
  {
    if i > 0 {
      ShiftedOutAt(b << 1, n - 1, i - 1);
    } else if n > 1 {
      ShiftedOutAt(b << 1, n - 1, 0);
    }
  }

  lemma ShiftedMasks(b: bv8)
    ensures (Shifted(b, 0) & 0x80 != 0 <==> b & 0x80 != 0) && (Shifted(b, 1) & 0x80 != 0 <==> b & 0x40 != 0)
    ensures (Shifted(b, 2) & 0x80 != 0 <==> b & 0x20 != 0) && (Shifted(b, 3) & 0x80 != 0 <==> b & 0x10 != 0)
    ensures (Shifted(b, 4) & 0x80 != 0 <==> b & 0x08 != 0) && (Shifted(b, 5) & 0x80 != 0 <==> b & 0x04 != 0)
    ensures (Shifted(b, 6) & 0x80 != 0 <==> b & 0x02 != 0) && (Shifted(b, 7) & 0x80 != 0 <==> b & 0x01 != 0)
    ensures Shifted(b, 8) == 0
  {
  }

  lemma AllShiftedOut(b: bv8, n: nat)
    requires n == 8
    ensures ShiftedOut(b, n) == Bits(b) && Shifted(b, n) == 0
  {
    ShiftedMasks(b);
    ShiftedOutAt(b, n, 0);
    forall i | 0 <= i < n ensures ShiftedOut(b, n)[i] == (Shifted(b, i) & 0x80 != 0) {
      ShiftedOutAt(b, n, i);
    }
  }

  lemma SerialByte(c: bv8, b: bv8)
    ensures Serial(c, Bits(b)) == Step8(c ^ b)
  {
    var n := 8;
    SerialByteIn(c, b, n, c ^ b);
    StepsIsStep8(c ^ b, n);
  }

  lemma SerialByteIn(c: bv8, b: bv8, n: nat, sum: bv8)
    requires n == 8 && IsXor(c, b, sum)
    ensures Serial(c, Bits(b)) == Steps(sum, n)
  {
    FeedMany(c, b, sum, n);
    AllShiftedOut(b, n);
  }

  lemma {:induction false} CrcIsSerial(c: bv8, data: seq<bv8>)
    ensures Crc(c, data) == Serial(c, Stream(data))
    decreases |data|
  {
    if data != [] {
      SerialByte(c, data[0]);
      SerialAppend(c, Bits(data[0]), Stream(data[1..]));
      CrcIsSerial(Step8(c ^ data[0]), data[1..]);
    }
  }

  // ----- What it detects -----

  lemma OnlyZeroStepsToZero(c: bv8)
    ensures Step(c) == 0 <==> c == 0
  {
  }

  function Differ(x: seq<bool>, y: seq<bool>): seq<bool>
    requires |x| == |y|
  {
    seq(|x|, i requires 0 <= i < |x| => x[i] != y[i])
  }

  /** Feeding is linear: the difference of two registers is fed the difference of the bits. */
  lemma FeedDifference(a: bv8, b: bv8, c: bv8, x: bool, y: bool)
    requires IsXor(a, b, c)
    ensures IsXor(Feed(a, x), Feed(b, y), Feed(c, x != y))
  {
    TopDifference(a, b, c, x, y);
    StepDifference(a ^ Top(x), b ^ Top(y), c ^ Top(x != y));
  }

  lemma TopDifference(a: bv8, b: bv8, c: bv8, x: bool, y: bool)
    requires IsXor(a, b, c)
    ensures IsXor(a ^ Top(x), b ^ Top(y), c ^ Top(x != y))
  {
  }

  lemma StepDifference(a: bv8, b: bv8, c: bv8)
    requires IsXor(a, b, c)
    ensures IsXor(Step(a), Step(b), Step(c))
  {
    var x, y := Shifts(a), Shifts(b);
    ShiftDifference(a, b, c);
    StepIsShift(a);
    StepIsShift(b);
    StepIsShift(c);
    SumDifference(a << 1, b << 1, c << 1, Fed(x), Fed(y), Fed(x != y), Step(a), Step(b), Step(c));
  }

  /** Does a step shift a one out? */
  predicate Shifts(c: bv8) { c & 0x80 != 0 }

  function Fed(bit: bool): bv8 { if bit then 0x31 else 0 }

  lemma StepIsShift(c: bv8)
    ensures IsXor(c << 1, Fed(Shifts(c)), Step(c))
  {
  }

  lemma ShiftDifference(a: bv8, b: bv8, c: bv8)
    requires IsXor(a, b, c)
    ensures IsXor(a << 1, b << 1, c << 1) && (Shifts(c) <==> Shifts(a) != Shifts(b))
    ensures IsXor(Fed(Shifts(a)), Fed(Shifts(b)), Fed(Shifts(c)))
  {
  }

  lemma SumDifference(a: bv8, b: bv8, c: bv8, x: bv8, y: bv8, z: bv8, u: bv8, v: bv8, w: bv8)
    requires IsXor(a, b, c) && IsXor(x, y, z)
    requires IsXor(a, x, u) && IsXor(b, y, v) && IsXor(c, z, w)
    ensures IsXor(u, v, w)
  {
  }

  /** Two registers differ as a register fed with the differing bits alone. */
  lemma {:induction false} SerialDifference(a: bv8, b: bv8, c: bv8, x: seq<bool>, y: seq<bool>, d: seq<bool>)
    requires IsXor(a, b, c) && |x| == |y| == |d|
    requires forall i :: 0 <= i < |x| ==> d[i] == (x[i] != y[i])
    ensures IsXor(Serial(a, x), Serial(b, y), Serial(c, d))
    decreases |x|
  {
    if x != [] {
      FeedDifference(a, b, c, x[0], y[0]);
      SerialDifference(Feed(a, x[0]), Feed(b, y[0]), Feed(c, d[0]), x[1..], y[1..], d[1..]);
    }
  }

  ghost predicate Quiet(bits: seq<bool>, lo: nat, hi: nat)
    requires lo <= hi <= |bits|
  {
    forall i :: lo <= i < hi ==> !bits[i]
  }

  /** With nothing coming in, a register stays zero or stays non-zero. */
  lemma {:induction false} QuietKeepsZeroness(c: bv8, bits: seq<bool>)
    requires Quiet(bits, 0, |bits|)
    ensures Serial(c, bits) == 0 <==> c == 0
    decreases |bits|
  {
    if bits != [] {
      OnlyZeroStepsToZero(c);
      assert c ^ Top(false) == c;
      QuietKeepsZeroness(Feed(c, false), bits[1..]);
    }
  }

  function Byte(bits: seq<bool>): (b: bv8)
    requires |bits| == 8
  {
    (if bits[0] then 0x80 else 0) | (if bits[1] then 0x40 else 0) | (if bits[2] then 0x20 else 0) | (if bits[3] then 0x10 else 0)
    | (if bits[4] then 0x08 else 0) | (if bits[5] then 0x04 else 0) | (if bits[6] then 0x02 else 0) | (if bits[7] then 0x01 else 0)
  }

  lemma BitsOfByte(bits: seq<bool>)
    requires |bits| == 8
    ensures Bits(Byte(bits)) == bits
    ensures Byte(bits) == 0 ==> Quiet(bits, 0, 8)
  {
  }

  lemma Step8OfZero(b: bv8)
    ensures Step8(b) == 0 <==> b == 0
  {
  }

  /** Eight bits, not all zero, leave a zero register non-zero. */
  lemma BurstSetsRegister(bits: seq<bool>)
    requires |bits| == 8 && !Quiet(bits, 0, 8)
    ensures Serial(0, bits) != 0
  {
    var b := Byte(bits);
    BitsOfByte(bits);
    SerialByte(0, b);
    assert 0 ^ b == b;
    Step8OfZero(b);
  }

  lemma {:induction false} StreamIsInjective(x: seq<bv8>, y: seq<bv8>)
    requires |x| == |y| && Stream(x) == Stream(y)
    ensures x == y
    decreases |x|
  {
    if x != [] {
      assert Bits(x[0]) == Stream(x)[..8] == Stream(y)[..8] == Bits(y[0]);
      BitsInjective(x[0], y[0]);
      assert Stream(x[1..]) == Stream(x)[8..] == Stream(y)[8..] == Stream(y[1..]);
      StreamIsInjective(x[1..], y[1..]);
    }
  }

  lemma BitsInjective(a: bv8, b: bv8)
    requires Bits(a) == Bits(b)
    ensures a == b
  {
    forall i | 0 <= i < 8 ensures Bits(a)[i] == Bits(b)[i] {}
    SameBits(a, b);
  }

  lemma SameBits(a: bv8, b: bv8)
    requires (a & 0x80 != 0) == (b & 0x80 != 0) && (a & 0x40 != 0) == (b & 0x40 != 0)
    requires (a & 0x20 != 0) == (b & 0x20 != 0) && (a & 0x10 != 0) == (b & 0x10 != 0)
    requires (a & 0x08 != 0) == (b & 0x08 != 0) && (a & 0x04 != 0) == (b & 0x04 != 0)
    requires (a & 0x02 != 0) == (b & 0x02 != 0) && (a & 0x01 != 0) == (b & 0x01 != 0)
    ensures a == b
  {
  }

  lemma BurstStays(c: bv8, before: seq<bool>, burst: seq<bool>, after: seq<bool>)
    requires c == 0 && |burst| == 8 && !Quiet(burst, 0, 8)
    requires Quiet(before, 0, |before|) && Quiet(after, 0, |after|)
    ensures Serial(c, before + (burst + after)) != 0
  {
    SerialAppend(c, before, burst + after);
    QuietKeepsZeroness(c, before);
    SerialAppend(c, burst, after);
    BurstSetsRegister(burst);
    QuietKeepsZeroness(Serial(c, burst), after);
  }

  lemma BurstHasAOne(x: seq<bool>, y: seq<bool>, w: nat)
    requires |x| == |y| && x != y && w + 8 <= |x|
    requires forall i :: 0 <= i < |x| && !(w <= i < w + 8) ==> x[i] == y[i]
    ensures !Quiet(Differ(x, y)[w..w + 8], 0, 8)
  {
    var i :| 0 <= i < |x| && x[i] != y[i];
    assert Differ(x, y)[w..w + 8][i - w];
  }

  /** Burst detection, at the level of bits. */
  lemma SerialBurst(c: bv8, x: seq<bool>, y: seq<bool>, w: nat)
    requires |x| == |y| && x != y && w + 8 <= |x|
    requires forall i :: 0 <= i < |x| && !(w <= i < w + 8) ==> x[i] == y[i]
    ensures Serial(c, x) != Serial(c, y)
  {
    var d := Differ(x, y);
    SerialDifference(c, c, 0, x, y, d);
    var before, burst, after := d[..w], d[w..w + 8], d[w + 8..];
    assert d == before + (burst + after);
    BurstHasAOne(x, y, w);
    BurstStays(0, before, burst, after);
    XorZero(Serial(c, x), Serial(c, y));
  }

  lemma XorZero(a: bv8, b: bv8)
    ensures a ^ b == 0 <==> a == b
  {
  }

  /** Burst detection: two messages of the same length, any length, that differ and differ only within
      eight consecutive bits (across a byte boundary or not) have different CRCs. */
  lemma BurstDetected(x: seq<bv8>, y: seq<bv8>, w: nat)
    requires |x| == |y| && x != y
    requires forall i :: 0 <= i < 8 * |x| && !(w <= i < w + 8) ==> Stream(x)[i] == Stream(y)[i]
    ensures Crc(0xFF, x) != Crc(0xFF, y)
  {
    if Stream(x) == Stream(y) { StreamIsInjective(x, y); }
    var w' := if w + 8 <= 8 * |x| then w else 8 * |x| - 8;
    CrcIsSerial(0xFF, x);
    CrcIsSerial(0xFF, y);
    SerialBurst(0xFF, Stream(x), Stream(y), w');
  }

  /** The number of ones, modulo two. */
  function Odd(bits: seq<bool>): bool
    decreases |bits|
  {
    if bits == [] then false else bits[0] != Odd(bits[1..])
  }

  function OddBits(c: bv8): bool {
    var a := c ^ (c >> 4);
    var b := a ^ (a >> 2);
    (b ^ (b >> 1)) & 1 != 0
  }

  lemma StepKeepsParity(c: bv8, bit: bool)
    ensures OddBits(Feed(c, bit)) == (OddBits(c) != bit)
  {
  }

  lemma {:induction false} SerialParity(c: bv8, bits: seq<bool>)
    ensures OddBits(Serial(c, bits)) == (OddBits(c) != Odd(bits))
    decreases |bits|
  {
    if bits != [] {
      StepKeepsParity(c, bits[0]);
      SerialParity(Feed(c, bits[0]), bits[1..]);
    }
  }

  /** The polynomial has a factor x + 1: any odd number of wrong bits, anywhere, changes the CRC. */
  lemma {:induction false} OddErrorsDetected(x: seq<bv8>, y: seq<bv8>)
    requires |x| == |y| && Odd(Differ(Stream(x), Stream(y)))
    ensures Crc(0xFF, x) != Crc(0xFF, y)
  {
    CrcIsSerial(0xFF, x);
    CrcIsSerial(0xFF, y);
    var d := Differ(Stream(x), Stream(y));
    SerialDifference(0xFF, 0xFF, 0, Stream(x), Stream(y), d);
    SerialParity(0, d);
    XorZero(Crc(0xFF, x), Crc(0xFF, y));
    assert !OddBits(0);
  }

  // ----- The sensor's frame -----

  /** The test of `aht20_read`: the last byte is the CRC of those before it. */
  predicate Accepted(frame: seq<bv8>) {
    frame != [] && Crc(0xFF, frame[..|frame| - 1]) == frame[|frame| - 1]
  }

  lemma AcceptedIffCrcIsZero(frame: seq<bv8>)
    requires frame != []
    ensures Accepted(frame) <==> Crc(0xFF, frame) == 0
  {
    var n := |frame| - 1;
    assert frame == frame[..n] + [frame[n]];
    CrcAppend(0xFF, frame[..n], frame[n]);
    Step8OfXor(Crc(0xFF, frame[..n]), frame[n]);
  }

  lemma Step8OfXor(a: bv8, b: bv8)
    ensures Step8(a ^ b) == 0 <==> a == b
  {
    Step8OfZero(a ^ b);
    XorZero(a, b);
  }

  /** Starting from 0xFF is starting from 0 with the first byte complemented. */
  lemma StartComplements(b: bv8, rest: seq<bv8>)
    ensures Crc(0xFF, [b] + rest) == Crc(0, [!b] + rest)
  {
    assert ([b] + rest)[1..] == rest == ([!b] + rest)[1..];
    assert 0xFF ^ b == !b == 0 ^ !b;
  }

  lemma {:induction false} ZerosKeepNonzero(c: bv8, data: seq<bv8>)
    requires c != 0 && forall i :: 0 <= i < |data| ==> data[i] == 0
    ensures Crc(c, data) != 0
    decreases |data|
  {
    if data != [] {
      assert c ^ data[0] == c;
      Step8OfZero(c);
      ZerosKeepNonzero(Step8(c), data[1..]);
    }
  }

  /** A bus stuck low, whatever the frame's length, is never taken for a measurement. */
  lemma ZeroFrameRejected(frame: seq<bv8>)
    requires frame != [] && forall i :: 0 <= i < |frame| ==> frame[i] == 0
    ensures !Accepted(frame)
  {
    AcceptedIffCrcIsZero(frame);
    ZerosKeepNonzero(0xFF, frame);
  }

  /** One value in full: polynomial, initial value and bit order together. */
  lemma KnownValue()
    ensures Crc(0xFF, [0xBE, 0xEF]) == 0x92
  {
    var data: seq<bv8> := [0xBE, 0xEF];
    assert data[1..] == [0xEF];
    assert Step8(0xFF ^ 0xBE) == 0x0C;
    assert Crc(0x0C, [0xEF]) == Step8(0x0C ^ 0xEF) by { CrcAppend(0x0C, [], 0xEF); assert [] + [0xEF as bv8] == [0xEF]; }
  }

  /** No frame the sensor could have sent is turned into another acceptable one by an error confined to
      eight consecutive bits, the CRC byte's own bits included, nor by an odd number of wrong bits. */
  lemma {:induction false} CorruptFrameRejected(sent: seq<bv8>, got: seq<bv8>, w: nat)
    requires Accepted(sent) && |got| == |sent| && got != sent
    requires (forall i :: 0 <= i < 8 * |sent| && !(w <= i < w + 8) ==> Stream(sent)[i] == Stream(got)[i])
          || Odd(Differ(Stream(sent), Stream(got)))
    ensures !Accepted(got)
  {
    AcceptedIffCrcIsZero(sent);
    AcceptedIffCrcIsZero(got);
    if Odd(Differ(Stream(sent), Stream(got))) { OddErrorsDetected(sent, got); } else { BurstDetected(sent, got, w); }
  }

  /** The check at the end of `aht20_read`, on the frame just received */
  method CheckFrame(frame: array<bv8>) returns (status: Status)
    requires frame.Length == 7
    ensures status == if Accepted(frame[..]) then Success else CrcFail
  {
    var c := CrcBitwise(frame, FRAME_DATA);
    if c != frame[FRAME_DATA] {
      return CrcFail;
    }
    return Success;
  }
}
