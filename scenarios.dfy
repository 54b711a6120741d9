/** Runs of the queue on a fresh instance, with the outcome each step has.
    Each run drives the producer and the consumer in turns, as two threads
    would when each runs until it has to wait. */
module Scenarios {
  import opened Wrap64
  import opened Spsc

  /** Pushing `a`, `b`, `c` and then draining once yields `[a, b, c]`, in
      order, and leaves nothing for a second drain. */
  method BatchedDrain<T(0)>(a: T, b: T, c: T) returns (drained: seq<T>, again: bool)
    ensures drained == [a, b, c]
    ensures !again
  {
    var q := new Queue<T>(4);
    var ok := q.PushFront(a, true);
    ok := q.PushFront(b, true);
    ok := q.PushFront(c, true);
    assert q.contents == [a, b, c] && q.prodIndex == 3 && q.consCi == 0;
    var popped;
    popped, drained := q.PopBackBatch([]);
    var rest;
    again, rest := q.PopBackBatch([]);
  }

  /** With `queue_capacity = 4`: pushing four items, popping one and pushing
      again leaves the producer blocked. The consumer took an item but has not
      published its index, since it has not caught up with the producer index
      it saw (4), so the producer still counts four items in flight. */
  method PopOneThenPush<T(0)>(x: T) returns (pushed: bool, popped: Option<T>)
    ensures popped == Some(x)
    ensures !pushed
  {
    var q := new Queue<T>(4);
    var ok := q.PushFront(x, true);
    ok := q.PushFront(x, true);
    ok := q.PushFront(x, true);
    ok := q.PushFront(x, true);
    assert q.prodIndex == q.prodPi == 4 && q.consIndex == q.consCi == 0;
    popped := q.PopBack();
    assert q.consIndex == 0;
    pushed := q.PushFront(x, true);
  }

  /** With `queue_capacity = 2`: two pushes fill the queue and a third would
      block, leaving the producer's threshold at index 0. After one pop the
      push would still block: the consumer publishes its index only once it
      has caught up with the producer index it saw. The second pop publishes,
      signals the producer once, and the push goes through. */
  method BlockedUntilDrained<T(0)>(x: T) returns (third: bool, afterOnePop: bool, signals: Index, afterDrain: bool)
    ensures !third
    ensures !afterOnePop
    ensures signals == 1
    ensures afterDrain
  {
    var q := new Queue<T>(2);
    var ok := q.PushFront(x, true);
    ok := q.PushFront(x, true);
    third := q.PushFront(x, true);
    assert q.prodIndex == 2 && q.prodEvent == 0 && q.consIndex == q.consCi == 0 && q.consNot == 0;
    var item := q.PopBack();
    assert q.consCi == 1 && q.consPi == 2 && q.consIndex == 0 && q.consNot == 0 && q.prodEvent == 0;
    afterOnePop := q.PushFront(x, true);
    item := q.PopBack();
    signals := q.consNot;
    afterDrain := q.PushFront(x, true);
  }

  /** An item pushed with `force = false` is not published, so the consumer
      does not see it and would block, registering threshold 0. The next forced
      push publishes both items and signals the consumer, who then takes the
      first item. */
  method UnforcedPushIsDeferred<T(0)>(x: T, y: T) returns (first: Option<T>, signals: Index, second: Option<T>)
    ensures first == None
    ensures signals == 1
    ensures second == Some(x)
  {
    var q := new Queue<T>(4);
    var ok := q.PushFront(x, false);
    first := q.PopBack();
    ok := q.PushFront(y, true);
    signals := q.prodNot;
    second := q.PopBack();
  }

  /** On a fresh queue the consumer's threshold is 0, so the very first
      push already counts as a signal to the consumer, though the consumer
      never waited. The queue is built and pushed with the default arguments:
      capacity 1024 and a forced push. */
  method FirstPushSignals<T(0)>(x: T) returns (capacity: Index, signals: Index)
    ensures capacity == 1024
    ensures signals == 1
  {
    var q := new Queue<T>();
    capacity := q.queueCap;
    var ok := q.PushFront(x);
    signals := q.prodNot;
  }
}
