/**
 * The bounded buffer of the hw08 producer/consumer programs: `buf[MAX_BUF]`
 * with the indices `in` and `out` and the item count `counter`. The same
 * store and take steps appear in every variant (threads with a mutex and
 * condition variables, threads with semaphores, busy-waiting threads, and
 * processes over shared memory). MAX_BUF comes from a header that is not
 * part of this model, so it is the capacity given to the constructor.
 */
module Ring {
  /** An item value `(rand() % 100) * 10000` for a non-negative rand() result. */
  function ItemValue(rnd: int): (v: int)
    requires rnd >= 0
    ensures v % 10000 == 0 && 0 <= v <= 990000
  {
    (rnd % 100) * 10000
  }

  class BoundedBuffer {
    const buf: array<int>
    var inPos: int
    var outPos: int
    var counter: int

    /** The buffer invariant: indices in range, count within capacity, in == (out + counter) % MAX_BUF. */
    predicate Valid()
      reads this
    {
      buf.Length > 0 &&
      0 <= inPos < buf.Length && 0 <= outPos < buf.Length &&
      0 <= counter <= buf.Length &&
      inPos == (outPos + counter) % buf.Length
    }

    /** The items held, oldest first: `counter` slots from `out`, wrapping around. */
    ghost function Contents(): seq<int>
      requires Valid()
      reads this, buf
    {
      Window(buf[..], outPos, counter)
    }

    /** A zeroed buffer of capacity maxBuf: in = out = counter = 0. */
    constructor (maxBuf: int)
      requires maxBuf > 0
      ensures Valid() && fresh(buf) && buf.Length == maxBuf
      ensures inPos == 0 && outPos == 0 && counter == 0
      ensures Contents() == []
    {
      buf := new int[maxBuf](_ => 0);
      inPos, outPos, counter := 0, 0, 0;
    }

    /** The count always equals the number of items held. */
    lemma CounterIsSize()
      requires Valid()
      ensures |Contents()| == counter
    {
    }

    /**
     * The store step: `buf[in] = data; in = (in + 1) % MAX_BUF; counter++`,
     * only when the buffer is not full. The item joins the back of the queue.
     */
    method Store(data: int)
      requires Valid() && counter < buf.Length
      modifies this, buf
      ensures Valid()
      ensures Contents() == old(Contents()) + [data]
      ensures counter == old(counter) + 1
      ensures inPos == (old(inPos) + 1) % buf.Length && outPos == old(outPos)
    {
      ghost var b, n := buf[..], counter;
      StoreWrap(outPos, counter, buf.Length);
      buf[inPos] := data;
      inPos := (inPos + 1) % buf.Length;
      counter := counter + 1;
      StoreShape(b, buf[..], outPos, n, data);
    }

    /**
     * The take step: `data = buf[out]; out = (out + 1) % MAX_BUF; counter--`,
     * only when the buffer is not empty. The oldest item leaves the queue.
     */
    method Take() returns (data: int)
      requires Valid() && counter > 0
      modifies this
      ensures Valid()
      ensures data == old(Contents())[0]
      ensures Contents() == old(Contents())[1..]
      ensures counter == old(counter) - 1
      ensures outPos == (old(outPos) + 1) % buf.Length && inPos == old(inPos)
    {
      ghost var b, start, n := buf[..], outPos, counter;
      TakeShape(b, start, n);
      TakeWrap(start, n, buf.Length);
      data := buf[outPos];
      outPos := (outPos + 1) % buf.Length;
      counter := counter - 1;
      assert buf[..] == b && Contents() == Window(b, (start + 1) % |b|, n - 1);
    }
  }

  /** The queue a wrapped window of `s` holds: `n` slots from `start`. */
  ghost function Window(s: seq<int>, start: int, n: int): seq<int>
    requires 0 <= start < |s| && 0 <= n <= |s|
  {
    if start + n <= |s| then s[start..start + n] else s[start..] + s[..start + n - |s|]
  }

  /** Reducing a value below twice the modulus subtracts it at most once. */
  lemma WrapOnce(x: int, m: int)
    requires m > 0 && 0 <= x < 2 * m
    ensures x % m == if x < m then x else x - m
  {
    if x >= m {
      assert x == 1 * m + (x - m);
    }
  }

  /** Advancing `in` by one and growing the count keeps in == (out + counter) % MAX_BUF. */
  lemma StoreWrap(start: int, n: int, m: int)
    requires 0 <= start < m && 0 <= n < m
    ensures 0 <= (start + n) % m < m
    ensures ((start + n) % m + 1) % m == (start + n + 1) % m
  {
    WrapOnce(start + n, m);
    WrapOnce((start + n) % m + 1, m);
    WrapOnce(start + n + 1, m);
  }

  /** Advancing `out` by one and shrinking the count keeps `in` where it was. */
  lemma TakeWrap(start: int, n: int, m: int)
    requires 0 <= start < m && 0 < n <= m
    ensures 0 <= (start + 1) % m < m
    ensures ((start + 1) % m + (n - 1)) % m == (start + n) % m
  {
    WrapOnce(start + 1, m);
    WrapOnce(start + n, m);
    WrapOnce((start + 1) % m + n - 1, m);
  }

  /** Writing the slot after a non-full window appends to it. */
  lemma StoreShape(b: seq<int>, a: seq<int>, start: int, n: int, data: int)
    requires 0 <= start < |b| && 0 <= n < |b| && |a| == |b|
    requires a == b[(start + n) % |b| := data]
    ensures Window(a, start, n + 1) == Window(b, start, n) + [data]
  {
    var len := |b|;
    WrapOnce(start + n, len);
    if start + n < len {
      assert a[start..start + n] == b[start..start + n];
    } else if start + n == len {
      assert a[start..] == b[start..];
      assert a[..1] == [data];
    } else {
      var k := start + n - len;
      assert k < start;
      assert a[start..] == b[start..];
      assert a[..k + 1] == b[..k] + [data];
    }
  }

  /** Dropping the slot at the start of a non-empty window drops its first item. */
  lemma TakeShape(b: seq<int>, start: int, n: int)
    requires 0 <= start < |b| && 0 < n <= |b|
    ensures Window(b, start, n)[0] == b[start]
    ensures Window(b, (start + 1) % |b|, n - 1) == Window(b, start, n)[1..]
  {
    var len := |b|;
    var w := Window(b, start, n);
    if start + 1 == len {
      assert (start + 1) % len == 0 by { WrapOnce(start + 1, len); }
      TakeLastSlot(b, n);
    } else {
      assert (start + 1) % len == start + 1 by { WrapOnce(start + 1, len); }
      if start + n <= len {
        assert w == b[start..start + n];
        assert Window(b, start + 1, n - 1) == b[start + 1..start + n];
      } else {
        var tail := b[..start + n - len];
        assert w == b[start..] + tail;
        assert Window(b, start + 1, n - 1) == b[start + 1..] + tail;
        assert b[start..] == [b[start]] + b[start + 1..];
        assert w == [b[start]] + (b[start + 1..] + tail);
      }
    }
  }

  /** The window starting at the last slot: its first item is there and the rest wraps to 0. */
  lemma TakeLastSlot(b: seq<int>, n: int)
    requires 0 < |b| && 0 < n <= |b|
    ensures Window(b, |b| - 1, n)[0] == b[|b| - 1]
    ensures Window(b, 0, n - 1) == Window(b, |b| - 1, n)[1..]
  {
    var start := |b| - 1;
    var w := Window(b, start, n);
    if n == 1 {
      assert w == [b[start]];
    } else {
      assert w == b[start..] + b[..n - 1];
      assert b[start..] == [b[start]];
    }
  }
}
