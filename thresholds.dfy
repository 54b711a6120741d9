/** The wake-up thresholds each side registers before it blocks, and what the
    crossing test then does with them. */
module Thresholds {
  import opened Wrap64

  /** The consumer waiting for `want` items sets `cons_event := cons_ci + want - 1`.
      A later `prod_notify` that moves the published producer index from
      `before` to `after` signals the consumer exactly when that publication
      makes the `want`-th item visible: fewer than `want` were visible before
      and at least `want` are after. So no publication that satisfies the
      consumer goes unsignalled, and none that leaves it short is signalled. */
  lemma ConsumerWakeup(consCi: Index, want: Index, before: Index, after: Index)
    requires 1 <= want
    requires Sub(before, consCi) <= Sub(after, consCi)
    ensures Crossed(before, after, Sub(Add(consCi, want), 1)) <==>
            Sub(before, consCi) < want <= Sub(after, consCi)
  {
    assert Sub(Add(consCi, want), 1) == Add(consCi, want - 1);
    CrossedRelative(consCi, before, after, want - 1);
  }

  /** The producer that found no space sets
      `prod_event := prod_ci + (prod_pi - prod_ci) / 4`, a quarter of the way from
      its copy of the consumer index to its own index. A later `cons_notify`
      that moves the published consumer index from `before` to `after` (never
      past the producer) signals the producer exactly when the consumer index
      passes that point, that is, once the consumer has taken more than a
      quarter of the items the producer saw in flight. */
  lemma ProducerWakeup(prodCi: Index, prodPi: Index, before: Index, after: Index)
    requires Sub(before, prodCi) <= Sub(after, prodCi) <= Sub(prodPi, prodCi)
    ensures Sub(Add(prodCi, Sub(prodPi, prodCi) / 4), prodCi) == Sub(prodPi, prodCi) / 4
    ensures Crossed(before, after, Add(prodCi, Sub(prodPi, prodCi) / 4)) <==>
            Sub(before, prodCi) <= Sub(prodPi, prodCi) / 4 < Sub(after, prodCi)
    ensures Crossed(before, after, Add(prodCi, Sub(prodPi, prodCi) / 4)) ==>
            Sub(prodPi, after) < Sub(prodPi, prodCi) - Sub(prodPi, prodCi) / 4
  {
    var k := Sub(prodPi, prodCi) / 4;
    SubAdd(prodCi, prodCi, k);
    CrossedRelative(prodCi, before, after, k);
    Rebase(prodCi, after, prodPi);
  }
}
