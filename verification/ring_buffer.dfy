/** kern/buffer.c: a ring buffer of bytes. */
module RingBuffer {
  import opened Words
  import opened RingQueue

  /** The bytes from tail to head, around the end if need be. */
  function Held(b: seq<Byte>, size: U32, head: U32, tail: U32, full: bool): (s: seq<Byte>)
    requires 0 < size <= |b| && head < size && tail < size && (full ==> head == tail)
    ensures |s| <= size && (s == [] <==> head == tail && !full) && (full <==> |s| == size)
  {
    if tail < head || (tail == head && !full) then b[tail..head] else b[tail..size] + b[..head]
  }

  /** The next place around the ring. */
  function After(i: U32, size: U32): U32
    requires i < size
  {
    if i + 1 == size then 0 else i + 1
  }

  lemma HeldPut(b: seq<Byte>, size: U32, head: U32, tail: U32, full: bool, data: Byte)
    requires 0 < size <= |b| && head < size && tail < size && (full ==> head == tail)
    ensures var tail' := if full then After(tail, size) else tail;
            var head' := After(head, size);
            Held(b[head := data], size, head', tail', head' == tail')
            == Latest(Held(b, size, head, tail, full) + [data], size)
  {
    var all := Held(b, size, head, tail, full) + [data];
    var now := b[head := data];
    if full {
      assert Latest(all, size) == all[1..];
      assert now[..head] + [data] == now[..head + 1];
    } else if tail <= head {
      assert all == now[tail..head + 1];
    } else {
      assert all == now[tail..size] + now[..head + 1];
    }
  }

  lemma HeldGet(b: seq<Byte>, size: U32, head: U32, tail: U32, full: bool)
    requires 0 < size <= |b| && head < size && tail < size && (full ==> head == tail)
    requires Held(b, size, head, tail, full) != []
    ensures [b[tail]] + Held(b, size, head, After(tail, size), false) == Held(b, size, head, tail, full)
  {
  }

  /** struct ringbuffer. */
  class Ring {
    const buffer: array<Byte>
    const size: U32
    var head: U32
    var tail: U32
    var full: bool

    ghost predicate Valid()
      reads this
    {
      && 0 < size <= buffer.Length && head < size && tail < size
      && (full ==> head == tail)
    }

    /** The bytes held, oldest first. */
    ghost function Contents(): (s: seq<Byte>)
      requires Valid()
      reads this, buffer
      ensures |s| <= size && (s == [] <==> head == tail && !full) && (full <==> |s| == size)
    {
      Held(buffer[..], size, head, tail, full)
    }

    /** ringbuffer_init. */
    constructor (buffer: array<Byte>, maxSize: U32)
      requires 0 < maxSize <= buffer.Length
      ensures Valid() && this.buffer == buffer && size == maxSize && Contents() == []
    {
      this.buffer, this.size := buffer, maxSize;
      this.head, this.tail, this.full := 0, 0, false;
    }

    /** ringbuffer_reset. */
    method Reset()
      requires Valid()
      modifies this
      ensures Valid() && Contents() == []
    {
      head, tail, full := 0, 0, false;
    }

    /** ringbuffer_empty. */
    method IsEmpty() returns (empty: bool)
      requires Valid()
      ensures empty <==> Contents() == []
    {
      empty := head == tail && !full;
    }

    /** One step around the ring. */
    lemma Step(i: U32)
      requires Valid() && i < size
      ensures (i + 1) % size == After(i, size)
    {
      if i + 1 == size {
        DivUnique(i + 1, size, 1, 0);
      } else {
        DivUnique(i + 1, size, 0, i + 1);
      }
    }

    /** ringbuffer_put: a byte more, and the oldest gives way if need be. */
    method Put(data: Byte)
      requires Valid()
      modifies this, buffer
      ensures Valid() && Contents() == Latest(old(Contents()) + [data], size)
      ensures forall k :: size <= k < buffer.Length ==> buffer[k] == old(buffer[k])
    {
      HeldPut(buffer[..], size, head, tail, full, data);
      hide Held, After, Latest;
      ghost var was := buffer[..];
      buffer[head] := data;
      assert buffer[..] == was[head := data];
      IncrementPtr();
    }

    method IncrementPtr()
      requires Valid()
      modifies this
      ensures Valid() && head == After(old(head), size)
      ensures tail == if old(full) then After(old(tail), size) else old(tail)
      ensures full <==> head == tail
    {
      Step(head);
      Step(tail);
      if full {
        tail := (tail + 1) % size;
      }
      head := (head + 1) % size;
      full := head == tail;
    }

    /** ringbuffer_get: the oldest byte. The code asserts that there is one. */
    method Get() returns (data: Byte)
      requires Valid() && Contents() != []
      modifies this
      ensures Valid() && [data] + Contents() == old(Contents())
    {
      HeldGet(buffer[..], size, head, tail, full);
      hide Held, After;
      data := buffer[tail];
      DecrementPtr();
    }

    method DecrementPtr()
      requires Valid()
      modifies this
      ensures Valid() && head == old(head) && !full
      ensures tail == After(old(tail), size)
    {
      Step(tail);
      full := false;
      tail := (tail + 1) % size;
    }

    /** ringbuffer_put_obj. */
    method PutObj(data: array<Byte>, n: nat)
      requires Valid() && n <= data.Length && data != buffer
      modifies this, buffer
      ensures Valid() && Contents() == Latest(old(Contents()) + data[..n], size)
    {
      ghost var was := Contents();
      hide Contents, Latest;
      assert Latest(was, size) == was;
      var i := 0;
      assert was + data[..0] == was;
      while i < n
        invariant 0 <= i <= n && Valid() && Contents() == Latest(was + data[..i], size)
      {
        LatestTwice(was + data[..i], [data[i]], size);
        assert was + data[..i + 1] == was + data[..i] + [data[i]];
        Put(data[i]);
        i := i + 1;
      }
    }

    /** ringbuffer_get_obj. The code asserts that there are enough bytes. */
    method GetObj(out: array<Byte>, n: nat)
      requires Valid() && n <= |Contents()| && n <= out.Length && out != buffer
      modifies this, out
      ensures Valid() && Contents() == old(Contents()[n..])
      ensures out[..] == old(Contents())[..n] + old(out[n..])
    {
      ghost var was, o := Contents(), out[..];
      hide Contents, Held, Filled;
      NoneFilled(was, o);
      var i := 0;
      while i < n
        invariant 0 <= i <= n && Valid() && Contents() == was[i..]
        invariant Filled(out[..], was, o, i)
      {
        var b := Get();
        FilledNext(out[..], was, o, i, b, Contents());
        ghost var now := out[..];
        out[i] := b;
        assert out[..] == now[i := b];
        i := i + 1;
      }
      FilledIs(out[..], was, o, n);
    }
  }

  /** The first i bytes of w written over o. */
  ghost predicate Filled(now: seq<Byte>, w: seq<Byte>, o: seq<Byte>, i: nat) {
    i <= |w| && i <= |o| && now == w[..i] + o[i..]
  }

  lemma NoneFilled(w: seq<Byte>, o: seq<Byte>)
    ensures Filled(o, w, o, 0)
  {
  }

  lemma FilledIs(now: seq<Byte>, w: seq<Byte>, o: seq<Byte>, i: nat)
    requires Filled(now, w, o, i)
    ensures i <= |w| && i <= |o| && now == w[..i] + o[i..]
  {
  }

  lemma FilledNext(now: seq<Byte>, w: seq<Byte>, o: seq<Byte>, i: nat, b: Byte, rest: seq<Byte>)
    requires Filled(now, w, o, i) && i < |w| && i < |o| && [b] + rest == w[i..]
    ensures |now| == |o| && Filled(now[i := b], w, o, i + 1)
    ensures rest == w[i + 1..]
  {
    assert b == w[i..][0] == w[i];
    assert rest == w[i..][1..];
  }
}
