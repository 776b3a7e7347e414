/**
 The fixed-size circular queue bfs_shortest works with (enqueue, dequeue,
 is_queue_empty): a buffer, a head index to read from and a tail index to
 write to, each wrapping to 0 when it reaches the buffer's end. Nothing
 checks for a full buffer; the entries between head and tail, read
 cyclically, are the queue's contents.
 */
module RingQueues {

  /** The buffer with its read and write positions. */
  datatype RingQueue = RingQueue(buf: seq<int>, head: nat, tail: nat)

  /** Both positions lie inside a non-empty buffer. */
  predicate Valid(q: RingQueue)
  {
    |q.buf| >= 1 && q.head < |q.buf| && q.tail < |q.buf|
  }

  /** An empty queue over a buffer of `cap` slots (head = tail = 0). */
  function Empty(cap: nat): (q: RingQueue)
    requires cap >= 1
    ensures Valid(q) && |q.buf| == cap && Live(q) == []
  {
    RingQueue(seq(cap, _ => 0), 0, 0)
  }

  /** Moves a position one slot on, back to 0 at the end of the buffer. */
  function Advance(i: nat, cap: nat): (j: nat)
    requires i < cap
    ensures j < cap
    ensures j == (i + 1) % cap
  {
    if i + 1 >= cap then 0 else i + 1
  }

  /** The number of entries between head and tail, read cyclically. */
  function Size(q: RingQueue): (s: nat)
    requires Valid(q)
    ensures s < |q.buf|
  {
    if q.head <= q.tail then q.tail - q.head else q.tail + |q.buf| - q.head
  }

  /** The buffer slot holding the queue's `i`-th entry. */
  function Slot(q: RingQueue, i: nat): (k: nat)
    requires Valid(q) && i < |q.buf|
    ensures k < |q.buf|
    ensures k == (q.head + i) % |q.buf|
  {
    if q.head + i < |q.buf| then q.head + i else q.head + i - |q.buf|
  }

  /** The queue's contents, oldest first. */
  function Live(q: RingQueue): (s: seq<int>)
    requires Valid(q)
    ensures |s| == Size(q)
  {
    seq(Size(q), i requires 0 <= i < Size(q) => q.buf[Slot(q, i)])
  }

  /**
   enqueue: stores `x` at the tail and advances it. While at least two slots
   are free the new entry joins the end of the contents; when only one was
   free the tail catches up with the head and the contents read as empty.
   */
  function Enqueue(q: RingQueue, x: int): (r: RingQueue)
    requires Valid(q)
    ensures Valid(r) && |r.buf| == |q.buf| && r.head == q.head
    ensures Size(q) < |q.buf| - 1 ==> Live(r) == Live(q) + [x]
    ensures Size(q) == |q.buf| - 1 ==> Live(r) == []
  {
    var r := RingQueue(q.buf[q.tail := x], q.head, Advance(q.tail, |q.buf|));
    assert Size(q) < |q.buf| - 1 ==> Live(r) == Live(q) + [x] by {
      if Size(q) < |q.buf| - 1 {
        assert Size(r) == Size(q) + 1;
        forall i | 0 <= i < Size(q)
          ensures Live(r)[i] == Live(q)[i]
        {
          assert Slot(r, i) == Slot(q, i) != q.tail;
        }
        assert Slot(r, Size(q)) == q.tail;
      }
    }
    r
  }

  /**
   dequeue: reads the entry at the head and advances it. On a non-empty
   queue that is the oldest entry, and the rest stay in order.
   */
  function Dequeue(q: RingQueue): (r: (RingQueue, int))
    requires Valid(q)
    ensures Valid(r.0) && |r.0.buf| == |q.buf| && r.0.tail == q.tail
    ensures Size(q) > 0 ==> r.1 == Live(q)[0] && Live(r.0) == Live(q)[1..]
  {
    var r := RingQueue(q.buf, Advance(q.head, |q.buf|), q.tail);
    assert Size(q) > 0 ==> Live(r) == Live(q)[1..] by {
      if Size(q) > 0 {
        assert Size(r) == Size(q) - 1;
        forall i | 0 <= i < Size(r)
          ensures Live(r)[i] == Live(q)[i + 1]
        {
          assert Slot(r, i) == Slot(q, i + 1);
        }
      }
    }
    (r, q.buf[q.head])
  }

  /** is_queue_empty: head and tail coincide exactly when there are no contents. */
  function IsEmpty(q: RingQueue): (b: bool)
    requires Valid(q)
    ensures b <==> Live(q) == []
  {
    q.head == q.tail
  }

  /** Filling the last free slot empties the queue: the entries are lost, not reported. */
  lemma EnqueueFullLoses(q: RingQueue, x: int)
    requires Valid(q) && |q.buf| >= 2 && Size(q) == |q.buf| - 1
    ensures IsEmpty(Enqueue(q, x)) && Live(q) != []
  {
  }

  /** First in, first out: after pushing `x` then `y` into an empty queue of at least
      three slots, popping returns `x` and leaves `y`. */
  lemma FirstInFirstOut(cap: nat, x: int, y: int)
    requires cap >= 3
    ensures Dequeue(Enqueue(Enqueue(Empty(cap), x), y)).1 == x
    ensures Live(Dequeue(Enqueue(Enqueue(Empty(cap), x), y)).0) == [y]
  {
    var q0 := Empty(cap);
    var q1 := Enqueue(q0, x);
    assert Live(q1) == [x];
    var q2 := Enqueue(q1, y);
    assert Live(q2) == [x, y];
  }
}
