/** lib/refcount.c: reference counters and the queue of the garbage collector. */
module RefCounts {
  import opened Basics

  /** The counters of the allocated objects, and the objects queued for cleanup. */
  datatype Counters = Counters(count: map<Address, nat>, garbage: seq<Address>)

  const NO_COUNTERS := Counters(map[], [])

  function New(c: Counters, a: Address): Counters {
    c.(count := c.count[a := 1])
  }

  function Ref(c: Counters, a: Address): Counters
    requires a in c.count
  {
    c.(count := c.count[a := c.count[a] + 1])
  }

  function Unref(c: Counters, a: Address): Counters
    requires Live(c, a)
  {
    Counters(c.count[a := c.count[a] - 1], if c.count[a] == 1 then c.garbage + [a] else c.garbage)
  }

  /** The collector cleans up the oldest garbage and frees its counter. */
  function Collect(c: Counters): Counters
    requires c.garbage != []
  {
    Counters(c.count - {c.garbage[0]}, c.garbage[1..])
  }

  ghost predicate Live(c: Counters, a: Address) {
    a in c.count && c.count[a] > 0
  }

  /** Every count is the number of references there are, and the garbage is exactly what has
      none, each object once. */
  ghost predicate Exact(c: Counters, references: Address -> nat) {
    && (forall a :: a in c.count ==> c.count[a] == references(a))
    && NoDuplicates(c.garbage)
    && (forall a :: a in c.garbage <==> a in c.count && c.count[a] == 0)
  }

  /** References as before, apart from those to a. */
  ghost predicate SameElsewhere(c: Counters, before: Address -> nat, after: Address -> nat, a: Address) {
    forall b :: b in c.count && b != a ==> before(b) == after(b)
  }

  lemma NewExact(c: Counters, before: Address -> nat, after: Address -> nat, a: Address)
    requires Exact(c, before) && a !in c.count && SameElsewhere(c, before, after, a) && after(a) == 1
    ensures Exact(New(c, a), after)
  {
  }

  lemma RefExact(c: Counters, before: Address -> nat, after: Address -> nat, a: Address)
    requires Exact(c, before) && Live(c, a) && SameElsewhere(c, before, after, a) && after(a) == before(a) + 1
    ensures Exact(Ref(c, a), after)
  {
  }

  /** Giving up a reference is safe, and queues the object exactly when it was the last. */
  lemma UnrefExact(c: Counters, before: Address -> nat, after: Address -> nat, a: Address)
    requires Exact(c, before) && a in c.count && SameElsewhere(c, before, after, a) && before(a) == after(a) + 1
    ensures Live(c, a) && Exact(Unref(c, a), after)
  {
    assert a !in c.garbage;
  }

  lemma SameExact(c: Counters, before: Address -> nat, after: Address -> nat)
    requires Exact(c, before) && forall a :: a in c.count ==> before(a) == after(a)
    ensures Exact(c, after)
  {
  }

  /** What the collector cleans up has no references, and is not queued a second time. */
  lemma CollectExact(c: Counters, references: Address -> nat)
    requires Exact(c, references) && c.garbage != []
    ensures c.garbage[0] in c.count && references(c.garbage[0]) == 0
    ensures c.garbage[0] !in c.garbage[1..]
    ensures Exact(Collect(c), references)
  {
    assert c.garbage[0] in c.garbage;
    assert c.garbage == [c.garbage[0]] + c.garbage[1..];
  }
}
