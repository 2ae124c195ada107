/** The pizzeria of Lesson_7/lesson7_pizza.c: a circular queue of ints shared by
    cooks (who push pizza ids) and couriers (who pop them until they meet a
    negative "poison" value). The counting semaphores `sem_items` and
    `sem_slots` are kept with the queue as the fields `items` and `slots`;
    a `sem_wait` on one of them becomes the precondition that it is positive. */
module Pizza {
  import opened Common

  /** The value `main` pushes once per courier to make it stop. */
  const POISON: int := -1

  class PizzaQueue {
    var buf: array<int>
    var capacity: int
    var head: int
    var tail: int
    /** The value of `sem_items`. */
    var items: nat
    /** The value of `sem_slots`. */
    var slots: nat
    /** The values in the queue, oldest first. */
    ghost var contents: seq<int>

    /** Position of the k-th oldest value in `buf`. */
    function Slot(k: int): int
      reads this
    {
      if head + k < capacity then head + k else head + k - capacity
    }

    ghost predicate Valid()
      reads this, buf
    {
      buf.Length == capacity && capacity > 0 &&
      0 <= head < capacity && 0 <= tail < capacity &&
      items + slots == capacity && |contents| == items &&
      tail == Slot(items) &&
      forall k :: 0 <= k < items ==> contents[k] == buf[Slot(k)]
    }

    /** `queue_init`: an empty queue with room for `cap` values. */
    constructor Init(cap: int)
      requires cap > 0
      ensures Valid() && fresh(buf)
      ensures capacity == cap && head == 0 && tail == 0
      ensures contents == [] && items == 0 && slots == cap
    {
      buf := new int[cap];
      capacity := cap;
      head := 0;
      tail := 0;
      items := 0;
      slots := cap;
      contents := [];
    }

    /** `queue_push`: waits for a free slot, stores at `tail`, advances `tail`
        and posts one item. */
    method Push(value: int)
      requires Valid() && slots > 0
      modifies this, buf
      ensures Valid() && buf == old(buf) && capacity == old(capacity)
      ensures buf[..] == old(buf[..])[old(tail) := value]
      ensures tail == (old(tail) + 1) % capacity && head == old(head)
      ensures items == old(items) + 1 && slots == old(slots) - 1
      ensures contents == old(contents) + [value]
    {
      slots := slots - 1;
      buf[tail] := value;
      WrapStep(tail, capacity);
      tail := (tail + 1) % capacity;
      items := items + 1;
      contents := contents + [value];
    }

    /** `queue_pop`: waits for an item, takes it from `head`, advances `head`
        and posts one free slot. */
    method Pop() returns (value: int)
      requires Valid() && items > 0
      modifies this
      ensures Valid() && buf == old(buf) && capacity == old(capacity)
      ensures value == old(contents)[0] && value == buf[old(head)]
      ensures contents == old(contents)[1..]
      ensures head == (old(head) + 1) % capacity && tail == old(tail)
      ensures items == old(items) - 1 && slots == old(slots) + 1
    {
      items := items - 1;
      value := buf[head];
      WrapStep(head, capacity);
      head := (head + 1) % capacity;
      slots := slots + 1;
      contents := contents[1..];
    }
  }

  /** Advancing an index with `% capacity` is the same as wrapping it to 0 at
      the end of the buffer. */
  lemma WrapStep(i: int, cap: int)
    requires 0 <= i < cap
    ensures (i + 1) % cap == if i + 1 == cap then 0 else i + 1
  {
  }

  /** Queue sizing in `main`: every pizza plus one poison per courier, and
      at least 1. */
  function QueueCapacity(totalPizzas: int, couriers: int): (cap: int)
    requires totalPizzas >= 0 && couriers >= 0
    ensures cap > 0 && cap >= totalPizzas + couriers
    ensures cap <= totalPizzas + couriers + 1
  {
    var c := totalPizzas + couriers;
    if c == 0 then 1 else c
  }

  /** The log id of the i-th pizza of cook `id`. */
  function PizzaId(id: nat, i: nat): int {
    id * 1000 + i
  }

  /** A pizza id is never negative, so a courier never mistakes it for poison. */
  lemma PizzaIdNotPoison(id: nat, i: nat)
    ensures PizzaId(id, i) >= 0 && PizzaId(id, i) != POISON
  {
  }

  /** Ids are unique as long as no cook makes 1000 pizzas or more. */
  lemma PizzaIdsDistinct(id1: nat, i1: nat, id2: nat, i2: nat)
    requires i1 < 1000 && i2 < 1000
    ensures (id1 != id2 || i1 != i2) ==> PizzaId(id1, i1) != PizzaId(id2, i2)
  {
    if id1 < id2 {
      assert id1 * 1000 + 1000 <= id2 * 1000;
    } else if id2 < id1 {
      assert id2 * 1000 + 1000 <= id1 * 1000;
    }
  }

  /** The loop computing `total_pizzas` in `main`. */
  method TotalPizzas(counts: seq<int>) returns (total: int)
    ensures total == Sum(counts)
  {
    total := 0;
    var i := 0;
    while i < |counts|
      invariant i <= |counts|
      invariant total == Sum(counts[..i])
    {
      assert counts[..i + 1][..i] == counts[..i];
      total := total + counts[i];
      i := i + 1;
    }
    assert counts[..i] == counts;
  }

  /** The ids cook `id` pushes, in order. */
  function CookIds(id: nat, n: nat): (ids: seq<int>)
    ensures |ids| == n
    ensures forall i :: 0 <= i < n ==> ids[i] == PizzaId(id, i)
  {
    seq(n, i requires 0 <= i => PizzaId(id, i))
  }

  /** All pizza ids, cook after cook: one order in which the cooks' pushes can
      reach the queue. */
  function Cooked(counts: seq<nat>): seq<int> {
    if |counts| == 0 then []
    else Cooked(counts[..|counts| - 1]) + CookIds(|counts| - 1, counts[|counts| - 1])
  }

  predicate AllPizzas(s: seq<int>) {
    forall i :: 0 <= i < |s| ==> s[i] >= 0
  }

  /** Every cooked value is a pizza, and there are as many as the cooks make. */
  lemma {:induction false} CookedShape(counts: seq<nat>)
    ensures |Cooked(counts)| == Sum(counts)
    ensures AllPizzas(Cooked(counts))
  {
    if |counts| > 0 {
      CookedShape(counts[..|counts| - 1]);
    }
  }

  /** K poison values. */
  function Poisons(k: nat): (s: seq<int>)
    ensures |s| == k && forall i :: 0 <= i < k ==> s[i] == POISON
  {
    seq(k, i => POISON)
  }

  /** What one courier takes before meeting a negative value: the longest
      prefix of pizzas. */
  function CourierTake(s: seq<int>): (n: nat)
    ensures n <= |s| && AllPizzas(s[..n])
    ensures n < |s| ==> s[n] < 0
    decreases |s|
  {
    if |s| == 0 || s[0] < 0 then 0 else 1 + CourierTake(s[1..])
  }

  /** Pizzas followed by a poison: the courier takes all of them and stops at
      the poison. */
  lemma {:induction false} TakeUntilPoison(p: seq<int>, rest: seq<int>)
    requires AllPizzas(p)
    ensures CourierTake(p + [POISON] + rest) == |p|
  {
    if |p| > 0 {
      assert (p + [POISON] + rest)[1..] == p[1..] + [POISON] + rest;
      TakeUntilPoison(p[1..], rest);
    }
  }

  /** `cook_thread` for cook `c`, run to the end: pushes its `n` pizza ids, in
      order. */
  method Cook(q: PizzaQueue, c: nat, n: nat)
    requires q.Valid() && q.slots >= n
    modifies q, q.buf
    ensures q.Valid() && q.buf == old(q.buf) && q.capacity == old(q.capacity)
    ensures q.contents == old(q.contents) + CookIds(c, n)
    ensures q.slots == old(q.slots) - n
  {
    var i := 0;
    while i < n
      invariant i <= n && q.Valid() && q.buf == old(q.buf) && q.capacity == old(q.capacity)
      invariant q.contents == old(q.contents) + CookIds(c, i)
      invariant q.slots == old(q.slots) - i
    {
      q.Push(PizzaId(c, i));
      assert CookIds(c, i) + [PizzaId(c, i)] == CookIds(c, i + 1);
      i := i + 1;
    }
  }

  /** The loop of `main` that pushes one poison per courier. */
  method PushPoisons(q: PizzaQueue, k: nat)
    requires q.Valid() && q.slots >= k
    modifies q, q.buf
    ensures q.Valid() && q.buf == old(q.buf) && q.capacity == old(q.capacity)
    ensures q.contents == old(q.contents) + Poisons(k)
    ensures q.slots == old(q.slots) - k
  {
    var j := 0;
    while j < k
      invariant j <= k && q.Valid() && q.buf == old(q.buf) && q.capacity == old(q.capacity)
      invariant q.contents == old(q.contents) + Poisons(j)
      invariant q.slots == old(q.slots) - j
    {
      q.Push(POISON);
      assert Poisons(j) + [POISON] == Poisons(j + 1);
      j := j + 1;
    }
  }

  /** `courier_thread`: pops until it meets a negative value and returns the
      pizza ids it delivered. The queue must hold a negative value after its
      pizzas, or the courier would wait for ever. */
  method Courier(q: PizzaQueue) returns (got: seq<int>)
    requires q.Valid() && CourierTake(q.contents) < |q.contents|
    modifies q
    ensures q.Valid() && q.buf == old(q.buf) && q.capacity == old(q.capacity)
    ensures got == old(q.contents)[..CourierTake(old(q.contents))]
    ensures q.contents == old(q.contents)[CourierTake(old(q.contents)) + 1..]
  {
    got := [];
    ghost var n := CourierTake(q.contents);
    ghost var s := q.contents;
    while true
      invariant q.Valid() && q.buf == old(q.buf) && q.capacity == old(q.capacity)
      invariant |got| <= n < |s| && got == s[..|got|] && q.contents == s[|got|..]
      decreases |q.contents|
    {
      var id := q.Pop();
      if id < 0 {
        assert |got| == n;
        return;
      }
      got := got + [id];
    }
  }

  /** One sequential run of `main` for the given cook counts and courier
      number: the cooks push their ids one after another, `main` pushes the K
      poisons, and the couriers then deliver in turn. Returns the ids handed
      out, in delivery order. */
  method RunSequential(counts: seq<nat>, k: nat) returns (delivered: seq<int>)
    ensures delivered == if k > 0 then Cooked(counts) else []
  {
    var total := TotalPizzas(counts);
    SumPrefix(counts, 0);
    assert counts[..0] == [];
    var q := new PizzaQueue.Init(QueueCapacity(total, k));
    var c := 0;
    while c < |counts|
      invariant c <= |counts| && q.Valid() && fresh(q.buf)
      invariant q.contents == Cooked(counts[..c])
      invariant q.slots == q.capacity - Sum(counts[..c])
      invariant q.capacity >= total + k
    {
      CookedShape(counts[..c]);
      SumPrefix(counts, c + 1);
      assert counts[..c + 1][..c] == counts[..c];
      Cook(q, c, counts[c]);
      c := c + 1;
    }
    assert counts[..c] == counts;
    CookedShape(counts);
    PushPoisons(q, k);
    delivered := [];
    var j := 0;
    while j < k
      invariant j <= k && q.Valid() && fresh(q.buf)
      invariant j == 0 ==> q.contents == Cooked(counts) + Poisons(k) && delivered == []
      invariant j > 0 ==> q.contents == Poisons(k - j) && delivered == Cooked(counts)
    {
      ghost var s := q.contents;
      if j == 0 {
        TakeUntilPoison(Cooked(counts), Poisons(k - 1));
        assert s == Cooked(counts) + [POISON] + Poisons(k - 1);
      } else {
        assert s[0] == POISON;
      }
      var got := Courier(q);
      delivered := delivered + got;
      j := j + 1;
    }
  }
}
