/** The unbounded queue of queue.c: a thin layer over the circular growable
    array, whose front is the head of the queue. */
module Queues {
  import opened CircularArrays

  class Queue<T(0)> {
    const items: CircularArray<T>  // the C struct's `array` field

    /** The abstract value: head first, tail last. */
    ghost var Contents: seq<T>
    ghost var Repr: set<object>

    ghost predicate Valid()
      reads this, Repr
      ensures Valid() ==> this in Repr
    {
      && this in Repr
      && items in Repr
      && items.Repr <= Repr
      && this !in items.Repr
      && Repr == {this} + items.Repr
      && items.Valid()
      && Contents == items.Contents
    }

    /** newQUEUE */
    constructor ()
      ensures Valid() && fresh(Repr)
      ensures Contents == []
    {
      items := new CircularArray();
      new;
      Contents := [];
      Repr := {this} + items.Repr;
    }

    /** sizeQUEUE */
    function Size(): (n: nat)
      reads this, Repr
      requires Valid()
      ensures n == |Contents|
    {
      items.Size()
    }

    /** enqueue: append at the tail. */
    method Enqueue(value: T)
      requires Valid()
      modifies Repr
      ensures Valid() && fresh(Repr - old(Repr))
      ensures Contents == old(Contents) + [value]
    {
      items.InsertBack(value);
      Contents := items.Contents;
      Repr := {this} + items.Repr;
    }

    /** dequeue: remove and hand back the head; the C code asserts non-empty. */
    method Dequeue() returns (head: T)
      requires Valid() && |Contents| > 0
      modifies Repr
      ensures Valid() && fresh(Repr - old(Repr))
      ensures head == old(Contents)[0] && Contents == old(Contents)[1..]
    {
      head := items.RemoveFront();
      Contents := items.Contents;
      Repr := {this} + items.Repr;
    }

    /** peekQUEUE: the head, without removing it; the C code asserts non-empty. */
    method Peek() returns (head: T)
      requires Valid() && |Contents| > 0
      ensures head == Contents[0]
    {
      head := items.Get(0);
    }
  }

  /** One step of a client's script: enqueue a value, or dequeue (ignored
      when the queue is empty, where the C code would abort). */
  datatype Op<T> = Put(value: T) | Take

  /** The values a script enqueues, in order. */
  function Enqueued<T>(ops: seq<Op<T>>): seq<T>
  {
    if ops == [] then []
    else match ops[|ops| - 1]
      case Put(v) => Enqueued(ops[..|ops| - 1]) + [v]
      case Take => Enqueued(ops[..|ops| - 1])
  }

  /** What one step adds to the values enqueued so far. */
  function Added<T>(op: Op<T>): seq<T>
  {
    match op
      case Put(v) => [v]
      case Take => []
  }

  lemma EnqueuedStep<T>(ops: seq<Op<T>>, i: nat)
    requires i < |ops|
    ensures Enqueued(ops[..i + 1]) == Enqueued(ops[..i]) + Added(ops[i])
  {
    assert ops[..i + 1][..i] == ops[..i];
  }

  /** First in, first out: running any script of enqueues and dequeues and
      then draining the queue, the values dequeued by the script (`out`)
      followed by those drained (`left`) are exactly the values enqueued, in
      the order they were enqueued. */
  method RunScript<T(0)>(ops: seq<Op<T>>) returns (out: seq<T>, left: seq<T>)
    ensures out + left == Enqueued(ops)
  {
    var q := new Queue<T>();
    out := [];
    var i := 0;
    while i < |ops|
      invariant 0 <= i <= |ops|
      invariant q.Valid() && fresh(q.Repr)
      invariant out + q.Contents == Enqueued(ops[..i])
    {
      EnqueuedStep(ops, i);
      out := RunStep(q, ops[i], out);
      i := i + 1;
    }
    assert ops[..|ops|] == ops;
    left := Drain(q);
  }

  /** One step of a script: the values dequeued so far followed by the queue
      grow by what the step enqueues. */
  method RunStep<T(0)>(q: Queue<T>, op: Op<T>, out0: seq<T>) returns (out: seq<T>)
    requires q.Valid()
    modifies q.Repr
    ensures q.Valid() && fresh(q.Repr - old(q.Repr))
    ensures out + q.Contents == out0 + old(q.Contents) + Added(op)
  {
    out := out0;
    ghost var before := q.Contents;
    match op {
      case Put(v) =>
        q.Enqueue(v);
      case Take =>
        if q.Size() > 0 {
          var head := q.Dequeue();
          assert (out + [head]) + q.Contents == out + before;
          out := out + [head];
        }
    }
  }

  /** Dequeue until empty: the values come out head first. */
  method Drain<T(0)>(q: Queue<T>) returns (left: seq<T>)
    requires q.Valid()
    modifies q.Repr
    ensures q.Valid() && q.Contents == []
    ensures left == old(q.Contents)
  {
    left := [];
    while q.Size() > 0
      invariant q.Valid() && fresh(q.Repr - old(q.Repr))
      invariant left + q.Contents == old(q.Contents)
      decreases |q.Contents|
    {
      ghost var before := q.Contents;
      var head := q.Dequeue();
      assert (left + [head]) + q.Contents == left + before;
      left := left + [head];
    }
  }
}
