/** A queue that keeps the latest bytes only, and what a run of puts and gets does
    to it. */
module RingQueue {
  import opened Words

  /** The last n of s, or all of it. */
  function Latest(s: seq<Byte>, n: nat): (r: seq<Byte>)
    ensures |r| <= n && |r| <= |s| && r == s[|s| - |r|..] && (|r| < n ==> r == s)
  {
    if |s| <= n then s else s[|s| - n..]
  }

  /** Putting one after the other is putting all. */
  lemma LatestTwice(s: seq<Byte>, t: seq<Byte>, n: nat)
    ensures Latest(Latest(s, n) + t, n) == Latest(s + t, n)
  {
    if |s| > n {
      var k := |s| - n;
      assert Latest(s, n) + t == (s + t)[k..];
      assert (s + t)[k..][|t|..] == (s + t)[k + |t|..];
    }
  }

  /** One more byte, where the latest ones are held. */
  lemma LatestPut(s: seq<Byte>, held: seq<Byte>, b: Byte, n: nat)
    requires |held| <= |s| && held == Latest(s, |held|) && |held| <= n
    ensures var more := Latest(held + [b], n);
            more == Latest(s + [b], |more|)
  {
  }

  datatype Op = Put(data: Byte) | Get

  /** What is in the queue, and what has been taken out of it. */
  datatype Queue = Queue(held: seq<Byte>, taken: seq<Byte>)

  /** A run of operations; Err when a get finds the queue empty, which the code
      asserts not to happen. */
  datatype Outcome = Ok(queue: Queue) | Empty

  function Apply(q: Queue, op: Op, size: nat): Outcome {
    match op
    case Put(b) => Ok(q.(held := Latest(q.held + [b], size)))
    case Get => if q.held == [] then Empty else Ok(Queue(q.held[1..], q.taken + [q.held[0]]))
  }

  function Run(ops: seq<Op>, size: nat): Outcome {
    if ops == [] then Ok(Queue([], [])) else
      match Run(ops[..|ops| - 1], size)
      case Ok(q) => Apply(q, ops[|ops| - 1], size)
      case Empty => Empty
  }

  /** Every byte put, in order. */
  function Puts(ops: seq<Op>): seq<Byte> {
    if ops == [] then [] else
      Puts(ops[..|ops| - 1]) + (match ops[|ops| - 1] case Put(b) => [b] case Get => [])
  }

  /** The queue holds the latest bytes put. */
  lemma {:induction false} HeldAreLatest(ops: seq<Op>, size: nat)
    requires Run(ops, size).Ok?
    ensures var q := Run(ops, size).queue;
            q.held == Latest(Puts(ops), |q.held|) && |q.held| <= size && |q.held| <= |Puts(ops)|
  {
    if ops != [] {
      var before, op := ops[..|ops| - 1], ops[|ops| - 1];
      HeldAreLatest(before, size);
      if op.Put? {
        hide Run;
        LatestPut(Puts(before), Run(before, size).queue.held, op.data, size);
      }
    }
  }

  /** No put finds the queue full. */
  ghost predicate Roomy(ops: seq<Op>, size: nat) {
    forall k :: 0 <= k < |ops| && ops[k].Put? ==> RoomAt(ops, k, size)
  }

  ghost predicate RoomAt(ops: seq<Op>, k: nat, size: nat)
    requires k < |ops|
  {
    Run(ops[..k], size).Ok? ==> |Run(ops[..k], size).queue.held| < size
  }

  /** Unless a put finds the queue full, nothing is lost: what was taken and what is
      held is what was put, in the same order. */
  lemma {:induction false} NothingLost(ops: seq<Op>, size: nat)
    requires Run(ops, size).Ok? && Roomy(ops, size)
    ensures var q := Run(ops, size).queue; q.taken + q.held == Puts(ops)
  {
    if ops != [] {
      var n := |ops| - 1;
      var before := ops[..n];
      forall k | 0 <= k < n && before[k].Put?
        ensures RoomAt(before, k, size)
      {
        assert ops[k].Put? && RoomAt(ops, k, size) && ops[..k] == before[..k];
      }
      NothingLost(before, size);
      if ops[n].Put? {
        assert RoomAt(ops, n, size);
      }
    }
  }

  function PutsOf(data: seq<Byte>): seq<Op> {
    seq(|data|, i requires 0 <= i < |data| => Put(data[i]))
  }

  function Gets(n: nat): seq<Op> {
    seq(n, _ => Get)
  }

  lemma GetNext(data: seq<Byte>, i: nat, size: nat)
    requires i < |data|
    ensures Apply(Queue(data[i..], data[..i]), Get, size) == Ok(Queue(data[i + 1..], data[..i + 1]))
  {
  }

  lemma RunMore(ops: seq<Op>, op: Op, size: nat)
    ensures Run(ops + [op], size) ==
            match Run(ops, size) case Ok(q) => Apply(q, op, size) case Empty => Empty
  {
    assert (ops + [op])[..|ops|] == ops;
  }

  lemma {:induction false} RunPuts(data: seq<Byte>, size: nat)
    requires |data| <= size
    ensures Run(PutsOf(data), size) == Ok(Queue(data, []))
  {
    if data != [] {
      var n := |data| - 1;
      assert PutsOf(data)[..n] == PutsOf(data[..n]) && PutsOf(data)[n] == Put(data[n]);
      RunPuts(data[..n], size);
      assert data[..n] + [data[n]] == data;
    }
  }

  /** Up to size bytes, put into an empty queue, come back as they were; fewer gets
      give a prefix. */
  lemma {:induction false} PutThenGet(data: seq<Byte>, n: nat, size: nat)
    requires n <= |data| <= size
    ensures Run(PutsOf(data) + Gets(n), size) == Ok(Queue(data[n..], data[..n]))
  {
    var ops := PutsOf(data) + Gets(n);
    if n == 0 {
      RunPuts(data, size);
      assert ops == PutsOf(data);
    } else {
      var before := PutsOf(data) + Gets(n - 1);
      assert ops == before + [Get];
      hide PutsOf, Gets, Run, Apply;
      PutThenGet(data, n - 1, size);
      RunMore(before, Get, size);
      GetNext(data, n - 1, size);
    }
  }
}
