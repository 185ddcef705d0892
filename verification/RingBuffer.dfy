/** The receive buffer: a wrap-around byte queue that keeps one cell free. */
module RingBuffer {
  type Byte = b: nat | b < 256

  /** The bytes between head and tail of a buffer that wraps around. */
  ghost function Span(b: seq<Byte>, head: nat, tail: nat): seq<Byte>
    requires head <= |b| && tail <= |b|
  {
    if head <= tail then b[head..tail] else b[head..] + b[..tail]
  }

  function Advance(x: nat, len: nat, size: nat): (y: nat)
    requires x < size && len <= size
    ensures y == if x + len < size then x + len else x + len - size
  {
    (x + len) % size
  }

  /** `b` with `data` written at `at`. */
  ghost function Over(b: seq<Byte>, at: nat, data: seq<Byte>): (c: seq<Byte>)
    requires at + |data| <= |b|
    ensures |c| == |b|
  {
    b[..at] + data + b[at + |data|..]
  }

  lemma OverInFront(b: seq<Byte>, head: nat, tail: nat, data: seq<Byte>)
    requires head <= tail && tail + |data| <= |b|
    ensures Over(b, tail, data)[head..tail + |data|] == b[head..tail] + data
  {
  }

  lemma OverBehind(b: seq<Byte>, head: nat, tail: nat, data: seq<Byte>)
    requires tail + |data| <= head <= |b|
    ensures Over(b, tail, data)[head..] == b[head..]
    ensures Over(b, tail, data)[..tail + |data|] == b[..tail] + data
  {
  }

  lemma OverToEnd(b: seq<Byte>, head: nat, tail: nat, data: seq<Byte>)
    requires 0 < head <= tail && tail + |data| == |b|
    ensures Span(Over(b, tail, data), head, 0) == b[head..tail] + data
  {
    var c := Over(b, tail, data);
    OverInFront(b, head, tail, data);
    assert c[head..] == c[head..|b|] && c[..0] == [];
  }

  lemma WriteStraight(b: seq<Byte>, head: nat, tail: nat, data: seq<Byte>)
    requires head < |b| && tail + |data| <= |b| && 0 < |data| && |data| + |Span(b, head, tail)| < |b|
    ensures Span(Over(b, tail, data), head, Advance(tail, |data|, |b|)) == Span(b, head, tail) + data
  {
    if tail < head {
      BehindHead(b, head, tail, data);
    } else if tail + |data| == |b| {
      OverToEnd(b, head, tail, data);
    } else {
      OverInFront(b, head, tail, data);
    }
  }

  lemma BehindHead(b: seq<Byte>, head: nat, tail: nat, data: seq<Byte>)
    requires head < |b| && tail + |data| < head
    ensures Span(Over(b, tail, data), head, tail + |data|) == Span(b, head, tail) + data
  {
    OverBehind(b, head, tail, data);
    assert b[head..] + (b[..tail] + data) == b[head..] + b[..tail] + data;
  }

  lemma TwoCopies(b: seq<Byte>, tail: nat, data: seq<Byte>, right: nat)
    requires tail < |b| && right == |b| - tail && right < |data| && |data| - right <= tail
    ensures Over(Over(b, tail, data[..right]), 0, data[right..]) ==
            data[right..] + b[|data| - right..tail] + data[..right]
  {
  }

  lemma WriteWrapped(b: seq<Byte>, head: nat, tail: nat, data: seq<Byte>, right: nat)
    requires head <= tail < |b| && right == |b| - tail && right < |data| && |data| - right < head
    ensures var c := data[right..] + b[|data| - right..tail] + data[..right];
            |c| == |b| && Span(c, head, |data| - right) == Span(b, head, tail) + data
  {
    var c := data[right..] + b[|data| - right..tail] + data[..right];
    assert c[head..] == b[head..tail] + data[..right];
    assert c[..|data| - right] == data[right..];
    assert data == data[..right] + data[right..];
  }

  lemma DropLeft(x: seq<Byte>, y: seq<Byte>, n: nat)
    requires n <= |x|
    ensures (x + y)[n..] == x[n..] + y && (x + y)[..n] == x[..n]
  {
  }

  lemma DropRight(x: seq<Byte>, y: seq<Byte>, n: nat)
    requires |x| <= n <= |x| + |y|
    ensures (x + y)[n..] == y[n - |x|..] && (x + y)[..n] == x + y[..n - |x|]
  {
  }

  lemma ReadSplits(b: seq<Byte>, head: nat, tail: nat, len: nat)
    requires head < |b| && tail < |b| && len <= |Span(b, head, tail)|
    ensures Span(b, Advance(head, len, |b|), tail) == Span(b, head, tail)[len..]
    ensures Span(b, head, tail)[..len] ==
            if head + len > |b| then b[head..] + b[..head + len - |b|] else b[head..head + len]
  {
    if head > tail {
      if head + len < |b| {
        DropLeft(b[head..], b[..tail], len);
        assert b[head..][len..] == b[head + len..] && b[head..][..len] == b[head..head + len];
      } else {
        DropRight(b[head..], b[..tail], len);
        var k := head + len - |b|;
        assert b[..tail][k..] == b[k..tail] && b[..tail][..k] == b[..k];
        assert k == 0 ==> b[head..] + b[..k] == b[head..head + len];
      }
    }
  }

  class Ring {
    const size: nat
    const buf: array<Byte>
    var head: nat // read from head
    var tail: nat // write from tail

    ghost predicate Valid()
      reads this
    {
      0 < size == buf.Length && head < size && tail < size
    }

    /** The queued bytes, oldest first. */
    ghost function Contents(): (s: seq<Byte>)
      requires Valid()
      reads this, buf
    {
      Span(buf[..], head, tail)
    }

    constructor (capacity: nat)
      ensures Valid() && fresh(buf) && size == capacity + 1 && Contents() == []
    {
      size := capacity + 1;
      buf := new Byte[capacity + 1](i => 0);
      head, tail := 0, 0;
    }

    function Used(): (n: nat)
      requires Valid()
      reads this, buf
      ensures n == |Contents()|
    {
      UsedIsLength();
      (tail - head + size) % size
    }

    lemma UsedIsLength()
      requires Valid()
      ensures (tail - head + size) % size == |Contents()|
    {
      if head <= tail {
        assert (tail - head + size) % size == tail - head;
      }
    }

    function Free(): (n: int)
      requires Valid()
      reads this, buf
      ensures n == size - 1 - |Contents()| && 0 <= n
    {
      size - Used() - 1
    }

    /** `memcpy` of `data` into the buffer. */
    method CopyIn(at: nat, data: seq<Byte>)
      requires at + |data| <= buf.Length
      modifies buf
      ensures buf[..] == Over(old(buf[..]), at, data)
    {
      forall i | 0 <= i < |data| {
        buf[at + i] := data[i];
      }
    }

    /** Queues all of `data`; the caller has checked that it is not empty and fits. */
    method Write(data: seq<Byte>)
      requires Valid() && |data| > 0 && Free() >= |data|
      modifies this`tail, buf
      ensures Valid() && Contents() == old(Contents()) + data
    {
      var len := |data|;
      ghost var b := buf[..];
      if tail + len > size {
        var right := size - tail;
        CopyIn(tail, data[..right]);
        CopyIn(0, data[right..]);
        TwoCopies(b, tail, data, right);
        WriteWrapped(b, head, tail, data, right);
      } else {
        CopyIn(tail, data);
        WriteStraight(b, head, tail, data);
      }
      tail := Advance(tail, len, size);
    }

    /** Takes up to `n` of the oldest bytes; a negative `n` takes none and is returned as it is. */
    method Read(n: int) returns (len: int, out: seq<Byte>)
      requires Valid()
      modifies this`head
      ensures Valid() && len == if |old(Contents())| < n then |old(Contents())| else n
      ensures out == old(Contents())[..if len > 0 then len else 0]
      ensures Contents() == old(Contents())[if len > 0 then len else 0..]
    {
      var used := Used();
      len := if used < n then used else n;
      out := [];
      if len > 0 {
        ReadSplits(buf[..], head, tail, len);
        if head + len > size {
          var right := size - head;
          var left := len - right;
          out := buf[head..] + buf[..left];
          assert buf[head..] == buf[..][head..];
        } else {
          out := buf[head..head + len];
        }
        head := Advance(head, len, size);
      }
    }
  }
}
