/** lib/ringbuf/yringbuffer.c: a byte queue in a circular array, dropping its oldest bytes or refusing
    new ones when full. */
module RingBuffer {
  import opened Arith

  /** The last `n` elements. */
  function LastN<T>(s: seq<T>, n: nat): (t: seq<T>)
    ensures |t| == Min(|s|, n)
  {
    if |s| <= n then s else s[|s| - n..]
  }

  lemma LastNAt<T>(s: seq<T>, n: nat, i: nat)
    requires i < |LastN(s, n)|
    ensures LastN(s, n)[i] == s[|s| - |LastN(s, n)| + i]
  {
  }

  /** Keeping the last `n` can be done a piece at a time. */
  lemma LastNAppend<T>(s: seq<T>, t: seq<T>, n: nat)
    ensures LastN(LastN(s, n) + t, n) == LastN(s + t, n)
  {
  }

  /** `x + 1`, back to 0 at the end of the ring. */
  function Next(x: nat, size: nat): nat
    requires x < size
  {
    if x + 1 >= size then 0 else x + 1
  }

  /** The slot `len` places after `start`. */
  function Slot(start: nat, len: nat, size: nat): nat
    requires start < size && len <= size
  {
    if start + len < size then start + len else start + len - size
  }

  lemma SlotIsModulo(start: nat, len: nat, size: nat)
    requires start < size && len <= size
    ensures Slot(start, len, size) == (start + len) % size
  {
    var r := Slot(start, len, size);
    DivModUnique(start + len, size, if start + len < size then 0 else 1, r);
  }

  /** `len` bytes of `a` from `start` on, around a ring of `size`. */
  function Window(a: seq<char>, start: nat, len: nat, size: nat): (w: seq<char>)
    requires start < size <= |a| && len <= size
    ensures |w| == len
  {
    seq(len, k requires 0 <= k < len => a[Slot(start, k, size)])
  }

  /** A byte stored in the slot after the last one held is the next one held. */
  lemma PutInSpace(a: seq<char>, start: nat, len: nat, size: nat, b: char)
    requires start < size <= |a| && len < size
    ensures Window(a[Slot(start, len, size) := b], start, len + 1, size) == LastN(Window(a, start, len, size) + [b], size)
    ensures Slot(start, len + 1, size) == Next(Slot(start, len, size), size)
  {
  }

  /** In a full ring it takes the place of the oldest. */
  lemma PutOverOldest(a: seq<char>, start: nat, size: nat, b: char)
    requires start < size <= |a|
    ensures Slot(start, size, size) == start && Slot(Next(start, size), size, size) == Next(start, size)
    ensures Window(a[start := b], Next(start, size), size, size) == LastN(Window(a, start, size, size) + [b], size)
  {
  }

  /** One turn of the put loop on a ring's indices and bytes. */
  lemma PutStep(a: seq<char>, start: nat, len: nat, size: nat, b: char)
    requires start < size <= |a| && len <= size
    ensures var end := Slot(start, len, size);
            var (start', len') := if len == size then (Next(start, size), len) else (start, len + 1);
            && Slot(start', len', size) == Next(end, size)
            && Window(a[end := b], start', len', size) == LastN(Window(a, start, len, size) + [b], size)
  {
    if len == size { PutOverOldest(a, start, size, b); } else { PutInSpace(a, start, len, size, b); }
  }

  /** The oldest byte is in the first slot, and the rest start in the next. */
  lemma GetOldest(a: seq<char>, start: nat, len: nat, size: nat)
    requires start < size <= |a| && 0 < len <= size
    ensures Window(a, start, len, size) == [a[start]] + Window(a, Next(start, size), len - 1, size)
    ensures Slot(Next(start, size), len - 1, size) == Slot(start, len, size)
  {
  }

  /** Copying `q` over `was`, one byte on. */
  lemma CopyNext(q: seq<char>, was: seq<char>, n: nat)
    requires n < |q| && n < |was|
    ensures (q[..n] + was[n..])[n := q[n]] == q[..n + 1] + was[n + 1..]
    ensures q[n..][0] == q[n] && q[n..][1..] == q[n + 1..]
  {
  }

  /** `struct YRingBuffer`; `data` is NULL while there is no storage. */
  class YRingBuffer {
    var data: array?<char>
    var size: nat
    var start: nat
    var end: nat
    var currentLen: nat

    /** `end` is always `start + current_len` modulo `size` (see SlotIsModulo); full and empty, where the
        two indices meet, are told apart by the length alone. */
    ghost predicate Valid()
      reads this
    {
      if data == null then size == start == end == currentLen == 0 else
        0 < size <= data.Length && start < size && currentLen <= size && end == Slot(start, currentLen, size)
    }

    /** The bytes held, oldest first. */
    ghost function Contents(): (q: seq<char>)
      requires Valid()
      reads this, data
      ensures |q| == currentLen
    {
      if data == null then [] else Window(data[..], start, currentLen, size)
    }

    /** A buffer with no storage yet */
    constructor ()
      ensures Valid() && data == null
    {
      data := null;
      size, start, end, currentLen := 0, 0, 0, 0;
    }

    /** `YRingBufferInit` */
    method Init(d: array?<char>, n: nat)
      requires Valid() && (d != null ==> n <= d.Length)
      modifies this
      ensures Valid()
      ensures d == null || n == 0 ==> unchanged(this)
      ensures d != null && n > 0 ==> data == d && size == n && Contents() == []
    {
      if d == null || n <= 0 {
        return;
      }
      data := d;
      size := n;
      start, end := 0, 0;
      currentLen := 0;
    }

    /** `YRingBufferDestory` */
    method Destroy()
      modifies this
      ensures Valid() && data == null && Contents() == []
    {
      data := null;
      size := 0;
      start, end := 0, 0;
      currentLen := 0;
    }

    /** `YRingBufferClear` */
    method Clear()
      requires Valid()
      modifies this`start, this`end, this`currentLen
      ensures Valid() && Contents() == []
    {
      start := 0;
      end := 0;
      currentLen := 0;
    }

    /** `YRingBufferGetCurrentLen` */
    method GetCurrentLen() returns (n: nat)
      requires Valid()
      ensures n == |Contents()|
    {
      n := currentLen;
    }

    /** One turn of the loop of `YRingBufferPutData` */
    method PutByte(b: char, dropIfFull: bool) returns (stored: bool)
      requires Valid() && data != null
      modifies this`start, this`end, this`currentLen, data
      ensures Valid()
      ensures stored == (dropIfFull || |old(Contents())| < size)
      ensures Contents() == if stored then LastN(old(Contents()) + [b], size) else old(Contents())
    {
      ghost var was, e := data[..], end;
      PutStep(was, start, currentLen, size, b);
      if end == start {
        if currentLen == size {
          if !dropIfFull {
            return false;
          }
          data[end] := b;
          end := end + 1;
          start := start + 1;
        } else {
          data[end] := b;
          end := end + 1;
          currentLen := currentLen + 1;
        }
      } else {
        data[end] := b;
        end := end + 1;
        currentLen := currentLen + 1;
      }
      assert data[..] == was[e := b];
      if start >= size {
        start := 0;
      }
      if end >= size {
        end := 0;
      }
      stored := true;
    }

    /** `YRingBufferPutData`. When full, the oldest byte makes way, or the copy stops there. */
    method PutData(src: array?<char>, len: nat, dropIfFull: bool) returns (cnt: nat)
      requires Valid() && (src != null ==> src != data && len <= src.Length)
      modifies this`start, this`end, this`currentLen, data
      ensures Valid()
      ensures data == null || src == null ==> cnt == 0 && Contents() == old(Contents())
      ensures data != null && src != null && dropIfFull ==>
                cnt == len && Contents() == LastN(old(Contents()) + src[..len], size)
      ensures data != null && src != null && !dropIfFull ==>
                cnt == Min(len, size - |old(Contents())|) && Contents() == old(Contents()) + src[..cnt]
    {
      cnt := 0;
      if data == null || src == null {
        return;
      }
      ghost var q := Contents();
      assert q + src[..0] == q;
      while cnt < len
        invariant cnt <= len && Valid() && data != src
        invariant dropIfFull ==> Contents() == LastN(q + src[..cnt], size)
        invariant !dropIfFull ==> Contents() == q + src[..cnt]
      {
        LastNAppend(q + src[..cnt], [src[cnt]], size);
        assert q + src[..cnt + 1] == (q + src[..cnt]) + [src[cnt]];
        var stored := PutByte(src[cnt], dropIfFull);
        if !stored {
          break;
        }
        cnt := cnt + 1;
      }
    }

    /** One turn of the loop of `YRingBufferGetData` */
    method GetByte() returns (got: bool, b: char)
      requires Valid() && data != null
      modifies this`start, this`currentLen
      ensures Valid()
      ensures got == (old(Contents()) != [])
      ensures if got then old(Contents()) == [b] + Contents() else Contents() == []
    {
      if currentLen > 0 {
        GetOldest(data[..], start, currentLen, size);
      }
      b := '\0';
      if end == start {
        if currentLen == size {
          b, start := data[start], start + 1;
          currentLen := currentLen - 1;
        } else {
          return false, b;
        }
      } else {
        b, start := data[start], start + 1;
        currentLen := currentLen - 1;
      }
      if start >= size {
        start := 0;
      }
      got := true;
    }

    /** `YRingBufferGetData` */
    method GetData(dst: array?<char>, len: nat) returns (cnt: nat)
      requires Valid() && (dst != null ==> dst != data && len <= dst.Length)
      modifies this`start, this`currentLen, dst
      ensures Valid()
      ensures data == null || dst == null ==> cnt == 0 && Contents() == old(Contents())
      ensures dst != null && data == null ==> dst[..] == old(dst[..])
      ensures data != null && dst != null ==>
                && cnt == Min(len, |old(Contents())|)
                && Contents() == old(Contents())[cnt..]
                && dst[..] == old(Contents())[..cnt] + old(dst[..])[cnt..]
    {
      cnt := 0;
      if data == null || dst == null {
        return;
      }
      ghost var q, was := Contents(), dst[..];
      assert was == q[..0] + was[0..];
      while cnt < len
        invariant cnt <= len && cnt <= |q| && Valid() && data != null && data != dst
        invariant Contents() == q[cnt..]
        invariant dst[..] == q[..cnt] + was[cnt..]
      {
        if cnt < |q| { CopyNext(q, was, cnt); }
        var got, b := GetByte();
        if !got {
          break;
        }
        dst[cnt] := b;
        cnt := cnt + 1;
      }
    }
  }
}
