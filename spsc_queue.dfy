/** The single-producer/single-consumer queue `bm::SPSCQueue<T>`, as a
    sequential state machine.

    Each side keeps a private cursor and a cached copy of the other side's
    published index; the published indices and the wake-up thresholds are the
    only state the two sides share. Producer methods may write producer fields
    only and consumer methods consumer fields only: the `modifies` frames below
    state that ownership. The blocking loops become operations that report
    whether the calling thread would go on to block on its semaphore. */
module Spsc {
  import opened Wrap64
  import opened Ring

  datatype Option<T> = None | Some(value: T)

  /** `n` consecutive ring slots, starting with the slot of index `from`. */
  ghost function Window<T>(ring: array<T>, from: Index, n: nat): (w: seq<T>)
    reads ring
    requires 0 < ring.Length && n <= WORD
    ensures |w| == n
  {
    seq(n, i requires 0 <= i < n reads ring => ring[Add(from, i) % ring.Length])
  }

  class Queue<T(0)> {
    const ringCap: nat
    const queueCap: Index
    const ring: array<T>

    // producer-owned state
    var prodIndex: Index  // `__prod_index`: the producer index the consumer may see
    var prodEvent: Index  // the producer asks to be woken once the consumer index passes it
    var prodCi: Index     // the producer's copy of the consumer index
    var prodPi: Index     // the producer's own index: items ever produced
    var prodNot: Index    // `prod_not`: times the producer signalled the consumer

    // consumer-owned state
    var consIndex: Index  // `__cons_index`: the consumer index the producer may see
    var consEvent: Index  // the consumer asks to be woken once the producer index passes it
    var consCi: Index     // the consumer's own index: items ever consumed
    var consPi: Index     // the consumer's copy of the producer index
    var consNot: Index    // `cons_not`: times the consumer signalled the producer

    /** The items in flight, oldest first: the slots from `consCi` up to `prodPi`. */
    ghost var contents: seq<T>

    /** Read along the ring from the producer's stale copy `prodCi`, the indices
        come in this order: each copy trails the index it copies, each published
        index trails its private one, and at most `queueCap` items are in flight. */
    ghost predicate Valid()
      reads this, ring
    {
      && IsPowerOfTwo(ringCap) && 1 <= queueCap <= ringCap <= MAX_SIZE
      && ring.Length == ringCap
      && Sub(consIndex, prodCi) <= Sub(consCi, prodCi) <= Sub(consPi, prodCi)
         <= Sub(prodIndex, prodCi) <= Sub(prodPi, prodCi) <= queueCap
      && |contents| == Sub(prodPi, consCi)
      && forall i :: 0 <= i < |contents| ==> contents[i] == ring[Add(consCi, i) % ringCap]
    }

    /** `SPSCQueue(max_capacity = 1024)`: a ring of the smallest power of two at or
        above the requested capacity, all indices and thresholds zero. */
    constructor (maxCapacity: nat := 1024)
      requires 1 <= maxCapacity
      requires CeilPow2(maxCapacity) <= MAX_SIZE
      ensures Valid() && fresh(ring)
      ensures ringCap == CeilPow2(maxCapacity) && queueCap == maxCapacity
      ensures contents == []
      ensures prodIndex == prodEvent == prodCi == prodPi == prodNot == 0
      ensures consIndex == consEvent == consCi == consPi == consNot == 0
    {
      ringCap := CeilPow2(maxCapacity);
      queueCap := maxCapacity;
      ring := new T[CeilPow2(maxCapacity)];
      prodIndex, prodEvent, prodCi, prodPi, prodNot := 0, 0, 0, 0, 0;
      consIndex, consEvent, consCi, consPi, consNot := 0, 0, 0, 0, 0;
      contents := [];
    }

    // ---------------------------------------------------------------- producer

    /** `prod_has_space(want)`: refresh the copy of the consumer index and
        report whether `want` more items fit. */
    method ProdHasSpace(want: Index) returns (space: bool)
      requires Valid()
      modifies this`prodCi
      ensures Valid()
      ensures prodCi == consIndex
      ensures space <==> Sub(prodPi, prodCi) <= Sub(queueCap, want)
      ensures want <= queueCap ==> (space <==> Sub(prodPi, prodCi) + want <= queueCap)
    {
      prodCi := consIndex;
      space := Sub(prodPi, prodCi) <= Sub(queueCap, want);
    }

    /** `prod_notify`: publish the producer index; signal the consumer when the
        published index passed the consumer's threshold. */
    method ProdNotify()
      requires Valid()
      modifies this`prodIndex, this`prodNot
      ensures Valid()
      ensures prodIndex == prodPi
      ensures Crossed(old(prodIndex), prodPi, consEvent) ==> prodNot == Add(old(prodNot), 1)
      ensures !Crossed(old(prodIndex), prodPi, consEvent) ==> prodNot == old(prodNot)
    {
      var before := prodIndex;
      prodIndex := prodPi;
      var ce := consEvent;
      if Sub(Sub(prodPi, ce), 1) < Sub(prodPi, before) {
        prodNot := Add(prodNot, 1);  // the source also signals `cons_sem` here
      }
    }

    /** `prod_advance(have, force)`: the `have` slots after `prodPi` have been
        filled; take them into the queue and publish only when `force` is set. */
    method ProdAdvance(have: Index, force: bool)
      requires Valid()
      requires Sub(prodPi, prodCi) + have <= queueCap
      modifies this`prodPi, this`prodIndex, this`prodNot, this`contents
      ensures Valid()
      ensures prodPi == Add(old(prodPi), have)
      ensures contents == old(contents) + Window(ring, old(prodPi), have)
      ensures force ==> prodIndex == prodPi
      ensures force && Crossed(old(prodIndex), prodPi, consEvent) ==> prodNot == Add(old(prodNot), 1)
      ensures !(force && Crossed(old(prodIndex), prodPi, consEvent)) ==> prodNot == old(prodNot)
      ensures !force ==> prodIndex == old(prodIndex)
    {
      ghost var n := |contents|;
      AddSub(consCi, prodPi);
      Rebase(prodCi, consCi, prodPi);
      contents := contents + Window(ring, prodPi, have);
      forall i | n <= i < |contents|
        ensures contents[i] == ring[Add(consCi, i) % ringCap]
      {
        AddAdd(consCi, n, i - n);
      }
      SubAdd(prodPi, prodCi, have);
      SubAdd(prodPi, consCi, have);
      prodPi := Add(prodPi, have);
      if force {
        ProdNotify();
      }
    }

    /** Available slots as `prod_wait_space` reports them:
        `prod_ci + queue_capacity - prod_pi`: while at most `queue_capacity`
        items are in flight, the capacity left over. */
    function ProdAvailable(): (r: Index)
      reads this
      ensures Sub(prodPi, prodCi) <= queueCap ==> r == queueCap - Sub(prodPi, prodCi)
    {
      Sub(Add(prodCi, queueCap), prodPi)
    }

    /** `prod_wait_space(want)` up to the point where the producer would block.
        With space: the number of free slots. Without: the producer asks to be
        woken once the consumer has drained a quarter of what it saw in flight,
        publishes its index, checks once more and would then wait on `prod_sem`
        (reported as `None`; nothing else can change the state meanwhile). */
    method ProdWaitSpace(want: Index) returns (avail: Option<Index>)
      requires Valid()
      modifies this`prodCi, this`prodEvent, this`prodIndex, this`prodNot
      ensures Valid()
      ensures prodCi == consIndex
      ensures avail.Some? <==> Sub(prodPi, prodCi) <= Sub(queueCap, want)
      ensures avail.Some? ==> avail.value == queueCap - Sub(prodPi, prodCi)
      ensures avail.Some? ==> prodEvent == old(prodEvent) && prodIndex == old(prodIndex) && prodNot == old(prodNot)
      ensures avail.None? ==> prodEvent == Add(prodCi, Sub(prodPi, prodCi) / 4) && prodIndex == prodPi
      ensures avail.None? && Crossed(old(prodIndex), prodPi, consEvent) ==> prodNot == Add(old(prodNot), 1)
      ensures avail.None? && !Crossed(old(prodIndex), prodPi, consEvent) ==> prodNot == old(prodNot)
    {
      var space := ProdHasSpace(want);
      SubOfAdd(prodCi, queueCap, prodPi);
      if space {
        avail := Some(ProdAvailable());
        return;
      }
      prodEvent := Add(prodCi, Sub(prodPi, prodCi) / 4);
      ProdNotify();
      space := ProdHasSpace(want);  // double check
      if space {
        avail := Some(ProdAvailable());
      } else {
        avail := None;  // the source waits on `prod_sem` and retries
      }
    }

    /** `push_front(item, force = true)`: wait for one free slot, write the item to
        the slot of `prodPi` and advance. `false` means the producer would block. */
    method PushFront(item: T, force: bool := true) returns (pushed: bool)
      requires Valid()
      modifies this`prodCi, this`prodPi, this`prodEvent, this`prodIndex, this`prodNot, this`contents, ring
      ensures Valid()
      ensures prodCi == consIndex
      ensures pushed <==> Sub(old(prodPi), consIndex) < queueCap
      ensures pushed ==> ring[..] == old(ring[..])[NormalizeIndex(old(prodPi), ringCap) := item]
      ensures pushed ==> prodPi == Add(old(prodPi), 1) && contents == old(contents) + [item]
      ensures pushed ==> prodEvent == old(prodEvent)
      ensures pushed && force ==> prodIndex == prodPi
      ensures pushed && !force ==> prodIndex == old(prodIndex) && prodNot == old(prodNot)
      ensures !pushed ==> ring[..] == old(ring[..]) && prodPi == old(prodPi) && contents == old(contents)
      ensures !pushed ==> prodEvent == Add(prodCi, Sub(prodPi, prodCi) / 4) && prodIndex == prodPi
      ensures (pushed ==> force) && Crossed(old(prodIndex), prodPi, consEvent) ==> prodNot == Add(old(prodNot), 1)
      ensures (pushed ==> force) && !Crossed(old(prodIndex), prodPi, consEvent) ==> prodNot == old(prodNot)
    {
      var avail := ProdWaitSpace(1);
      if avail.None? {
        return false;
      }
      var slot := NormalizeIndex(prodPi, ringCap);
      forall i | 0 <= i < |contents|
        ensures Add(consCi, i) % ringCap != slot
      {
        PushSlotIsFree(this, i);
      }
      ring[slot] := item;
      assert Add(prodPi, 0) == prodPi;
      ProdAdvance(1, force);
      pushed := true;
    }

    // ---------------------------------------------------------------- consumer

    /** `cons_has_data(want)`: refresh the copy of the producer index and report
        whether at least `want` items are visible. */
    method ConsHasData(want: Index) returns (data: bool)
      requires Valid()
      modifies this`consPi
      ensures Valid()
      ensures consPi == prodIndex
      ensures data <==> Sub(consPi, consCi) >= want
    {
      consPi := prodIndex;
      data := Sub(consPi, consCi) >= want;
    }

    /** `cons_notify`: publish the consumer index; signal the producer when the
        published index passed the producer's threshold. */
    method ConsNotify()
      requires Valid()
      modifies this`consIndex, this`consNot
      ensures Valid()
      ensures consIndex == consCi
      ensures Crossed(old(consIndex), consCi, prodEvent) ==> consNot == Add(old(consNot), 1)
      ensures !Crossed(old(consIndex), consCi, prodEvent) ==> consNot == old(consNot)
    {
      var before := consIndex;
      consIndex := consCi;
      var pe := prodEvent;
      if Sub(Sub(consCi, pe), 1) < Sub(consCi, before) {
        consNot := Add(consNot, 1);  // the source also signals `prod_sem` here
      }
    }

    /** `cons_advance(have)`: drop `have` consumed items; publish the consumer
        index only when the consumer has caught up with its copy of the producer index. */
    method ConsAdvance(have: Index)
      requires Valid()
      requires have <= Sub(consPi, consCi)
      modifies this`consCi, this`consIndex, this`consNot, this`contents
      ensures Valid()
      ensures consCi == Add(old(consCi), have)
      ensures have <= |old(contents)| && contents == old(contents)[have..]
      ensures consPi == consCi ==> consIndex == consCi
      ensures consPi == consCi && Crossed(old(consIndex), consCi, prodEvent) ==> consNot == Add(old(consNot), 1)
      ensures !(consPi == consCi && Crossed(old(consIndex), consCi, prodEvent)) ==> consNot == old(consNot)
      ensures consPi != consCi ==> consIndex == old(consIndex)
    {
      Rebase(prodCi, consCi, consPi);
      Rebase(prodCi, consCi, prodPi);
      ghost var before := contents;
      contents := contents[have..];
      forall i | 0 <= i < |contents|
        ensures contents[i] == ring[Add(Add(consCi, have), i) % ringCap]
      {
        AddAdd(consCi, have, i);
      }
      SubAdd(consCi, prodCi, have);
      SubAdd(consCi, consCi, have);
      Rebase(consCi, Add(consCi, have), prodPi);
      consCi := Add(consCi, have);
      if consPi == consCi {
        ConsNotify();
      }
    }

    /** `cons_wait_data(want)` up to the point where the consumer would block.
        With data: the number of visible items, `cons_pi - cons_ci`. Without: the
        consumer asks to be woken once the producer index passes
        `cons_ci + want - 1`, publishes its index, checks once more and would
        then wait on `cons_sem` (reported as `None`). */
    method ConsWaitData(want: Index) returns (avail: Option<Index>)
      requires Valid()
      modifies this`consPi, this`consEvent, this`consIndex, this`consNot
      ensures Valid()
      ensures consPi == prodIndex
      ensures avail.Some? <==> Sub(consPi, consCi) >= want
      ensures avail.Some? ==> avail.value == Sub(consPi, consCi)
      ensures avail.Some? ==> consEvent == old(consEvent) && consIndex == old(consIndex) && consNot == old(consNot)
      ensures avail.None? ==> consEvent == Sub(Add(consCi, want), 1) && consIndex == consCi
      ensures avail.None? && Crossed(old(consIndex), consCi, prodEvent) ==> consNot == Add(old(consNot), 1)
      ensures avail.None? && !Crossed(old(consIndex), consCi, prodEvent) ==> consNot == old(consNot)
    {
      var data := ConsHasData(want);
      if data {
        avail := Some(Sub(consPi, consCi));
        return;
      }
      // the source sleeps for `cons_sleep_time` microseconds before this retry
      data := ConsHasData(want);
      if data {
        avail := Some(Sub(consPi, consCi));
        return;
      }
      consEvent := Sub(Add(consCi, want), 1);
      ConsNotify();
      data := ConsHasData(want);  // double check
      if data {
        avail := Some(Sub(consPi, consCi));
      } else {
        avail := None;  // the source waits on `cons_sem` and retries
      }
    }

    /** `pop_back(T*)`: wait for one item and take the oldest. `None` means the
        consumer would block. */
    method PopBack() returns (item: Option<T>)
      requires Valid()
      modifies this`consCi, this`consPi, this`consEvent, this`consIndex, this`consNot, this`contents
      ensures Valid()
      ensures consPi == prodIndex
      ensures item.Some? <==> Sub(prodIndex, old(consCi)) >= 1
      ensures item.Some? ==> old(contents) != [] && item.value == old(contents)[0]
      ensures item.Some? ==> contents == old(contents)[1..] && consCi == Add(old(consCi), 1)
      ensures item.Some? ==> consEvent == old(consEvent)
      ensures item.Some? && consPi == consCi ==> consIndex == consCi
      ensures item.Some? && consPi != consCi ==> consIndex == old(consIndex) && consNot == old(consNot)
      ensures item.None? ==> contents == old(contents) && consCi == old(consCi)
      ensures item.None? ==> consEvent == consCi && consIndex == consCi
      ensures (item.None? || consPi == consCi) && Crossed(old(consIndex), consCi, prodEvent) ==> consNot == Add(old(consNot), 1)
      ensures (item.None? || consPi == consCi) && !Crossed(old(consIndex), consCi, prodEvent) ==> consNot == old(consNot)
    {
      var avail := ConsWaitData(1);
      if avail.None? {
        assert Sub(Add(consCi, 1), 1) == consCi;
        return None;
      }
      Rebase(prodCi, consCi, prodPi);
      assert Add(consCi, 0) == consCi;
      item := Some(ring[NormalizeIndex(consCi, ringCap)]);
      ConsAdvance(1);
    }

    /** The copying loop of `pop_back(std::vector<T>*)`: append the items at
        indices `cons_ci`, ..., `cons_ci + num - 1` to `container`. */
    method MoveOut(container: seq<T>, num: Index) returns (result: seq<T>)
      requires Valid() && num <= |contents|
      ensures result == container + contents[..num]
    {
      result := container;
      for i := 0 to num
        invariant result == container + contents[..i]
      {
        result := result + [ring[NormalizeIndex(Add(consCi, i), ringCap)]];
      }
    }

    /** `pop_back(std::vector<T>*)`: wait for one item, then append every item
        the consumer can see to `container`, oldest first. Afterwards the
        consumer has caught up with its copy of the producer index and has
        published its own. `false` means the consumer would block. */
    method PopBackBatch(container: seq<T>) returns (popped: bool, result: seq<T>)
      requires Valid()
      modifies this`consCi, this`consPi, this`consEvent, this`consIndex, this`consNot, this`contents
      ensures Valid()
      ensures consPi == prodIndex
      ensures popped <==> Sub(prodIndex, old(consCi)) >= 1
      ensures popped ==> Sub(prodIndex, old(consCi)) <= |old(contents)|
      ensures popped ==> result == container + old(contents)[..Sub(prodIndex, old(consCi))]
      ensures popped ==> contents == old(contents)[Sub(prodIndex, old(consCi))..]
      ensures popped ==> consCi == consPi && consIndex == consCi && consEvent == old(consEvent)
      ensures !popped ==> result == container && contents == old(contents) && consCi == old(consCi)
      ensures !popped ==> consEvent == consCi && consIndex == consCi
      ensures Crossed(old(consIndex), consCi, prodEvent) ==> consNot == Add(old(consNot), 1)
      ensures !Crossed(old(consIndex), consCi, prodEvent) ==> consNot == old(consNot)
    {
      var avail := ConsWaitData(1);
      if avail.None? {
        assert Sub(Add(consCi, 1), 1) == consCi;
        return false, container;
      }
      var num := avail.value;
      Rebase(prodCi, consCi, prodPi);
      AddSub(consCi, consPi);
      result := MoveOut(container, num);
      ConsAdvance(num);
      popped := true;
    }
  }

  /** At most `queueCap` items are in flight, and the ghost view holds exactly them. */
  lemma InFlightBound<T(0)>(q: Queue<T>)
    requires q.Valid()
    ensures |q.contents| == Sub(q.prodPi, q.consCi) <= Sub(q.prodPi, q.prodCi) <= q.queueCap <= q.ringCap
  {
    Rebase(q.prodCi, q.consCi, q.prodPi);
  }

  /** No two in-flight items share a slot of the ring. */
  lemma InFlightSlotsDistinct<T(0)>(q: Queue<T>, i: nat, j: nat)
    requires q.Valid() && i < j < |q.contents|
    ensures NormalizeIndex(Add(q.consCi, i), q.ringCap) != NormalizeIndex(Add(q.consCi, j), q.ringCap)
  {
    InFlightBound(q);
    SlotsDistinct(q.consCi, i, j, q.ringCap);
  }

  /** When the space check passes (`prod_pi - __cons_index <= queue_capacity - 1`),
      the slot a push writes holds no unconsumed item. */
  lemma PushSlotIsFree<T(0)>(q: Queue<T>, i: nat)
    requires q.Valid() && Sub(q.prodPi, q.consIndex) < q.queueCap
    requires i < |q.contents|
    ensures NormalizeIndex(Add(q.consCi, i), q.ringCap) != NormalizeIndex(q.prodPi, q.ringCap)
  {
    Rebase(q.prodCi, q.consIndex, q.prodPi);
    Rebase(q.prodCi, q.consIndex, q.consCi);
    Rebase(q.consIndex, q.consCi, q.prodPi);
    AddSub(q.consCi, q.prodPi);
    SlotsDistinct(q.consCi, i, |q.contents|, q.ringCap);
  }
}
