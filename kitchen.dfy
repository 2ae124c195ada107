/** The `Kitchen` monitor of Lesson_8/lesson8_pizza_hoare.c. Each operation
    runs under the monitor's mutex and is taken as one atomic step; a
    `pthread_cond_wait` loop becomes the precondition that its condition no
    longer holds. Ghost fields keep the history the counters summarise. */
module Kitchen {
  import opened Common

  class Kitchen {
    var freeTables: int
    var readyPizzas: int
    var activeCooks: int
    /** The number of tables `kitchen_init` was given. */
    ghost var tables: int
    /** Cooks between `start_cooking` and `finish_cooking`. */
    ghost var cooking: nat
    /** Pizzas finished so far. */
    ghost var finished: nat
    /** Successful `take_pizza` calls so far. */
    ghost var taken: nat

    ghost predicate Valid()
      reads this
    {
      freeTables >= 0 && activeCooks >= 0 &&
      freeTables + cooking == tables &&
      readyPizzas == finished - taken && readyPizzas >= 0
    }

    /** `kitchen_init`. */
    constructor Init(tables: int, cooks: int)
      requires tables >= 0 && cooks >= 0
      ensures Valid()
      ensures freeTables == tables && readyPizzas == 0 && activeCooks == cooks
      ensures this.tables == tables && cooking == 0 && finished == 0 && taken == 0
    {
      freeTables := tables;
      readyPizzas := 0;
      activeCooks := cooks;
      this.tables := tables;
      cooking := 0;
      finished := 0;
      taken := 0;
    }

    /** `kitchen_start_cooking`: a cook takes a free table. */
    method StartCooking()
      requires Valid() && freeTables > 0
      modifies this
      ensures Valid()
      ensures freeTables == old(freeTables) - 1 && cooking == old(cooking) + 1
      ensures readyPizzas == old(readyPizzas) && activeCooks == old(activeCooks)
      ensures tables == old(tables) && finished == old(finished) && taken == old(taken)
    {
      freeTables := freeTables - 1;
      cooking := cooking + 1;
    }

    /** `kitchen_finish_cooking`: the pizza is ready and its table is free. */
    method FinishCooking()
      requires Valid() && cooking > 0
      modifies this
      ensures Valid()
      ensures readyPizzas == old(readyPizzas) + 1 && freeTables == old(freeTables) + 1
      ensures cooking == old(cooking) - 1 && finished == old(finished) + 1
      ensures activeCooks == old(activeCooks) && tables == old(tables) && taken == old(taken)
    {
      readyPizzas := readyPizzas + 1;
      freeTables := freeTables + 1;
      cooking := cooking - 1;
      finished := finished + 1;
    }

    /** `kitchen_cook_done`: one cook leaves. */
    method CookDone()
      requires Valid() && activeCooks > 0
      modifies this
      ensures Valid()
      ensures activeCooks == old(activeCooks) - 1
      ensures freeTables == old(freeTables) && readyPizzas == old(readyPizzas)
      ensures tables == old(tables) && cooking == old(cooking)
      ensures finished == old(finished) && taken == old(taken)
    {
      activeCooks := activeCooks - 1;
    }

    /** `kitchen_take_pizza`, once its wait is over (a pizza is ready or no
        cook is left): 1 and one pizza fewer, or 0 with nothing changed when
        no pizza will come any more. */
    method TakePizza() returns (got: int)
      requires Valid() && (readyPizzas > 0 || activeCooks == 0)
      modifies this
      ensures Valid()
      ensures got == 0 <==> old(readyPizzas) == 0 && old(activeCooks) == 0
      ensures got == 0 ==> readyPizzas == old(readyPizzas) && taken == old(taken)
      ensures got == 0 ==> taken == finished
      ensures got != 0 ==> got == 1 && readyPizzas == old(readyPizzas) - 1 && taken == old(taken) + 1
      ensures freeTables == old(freeTables) && activeCooks == old(activeCooks)
      ensures tables == old(tables) && cooking == old(cooking) && finished == old(finished)
    {
      if readyPizzas == 0 && activeCooks == 0 {
        return 0;
      }
      readyPizzas := readyPizzas - 1;
      taken := taken + 1;
      return 1;
    }
  }

  /** `cook_thread`: `n` times take a table, cook, free it; then leave. */
  method CookThread(k: Kitchen, n: nat)
    requires k.Valid() && k.activeCooks > 0 && k.freeTables > 0
    modifies k
    ensures k.Valid()
    ensures k.finished == old(k.finished) + n && k.activeCooks == old(k.activeCooks) - 1
    ensures k.readyPizzas == old(k.readyPizzas) + n
    ensures k.freeTables == old(k.freeTables) && k.cooking == old(k.cooking)
    ensures k.tables == old(k.tables) && k.taken == old(k.taken)
  {
    var i := 0;
    while i < n
      invariant i <= n && k.Valid()
      invariant k.finished == old(k.finished) + i && k.readyPizzas == old(k.readyPizzas) + i
      invariant k.freeTables == old(k.freeTables) && k.cooking == old(k.cooking)
      invariant k.activeCooks == old(k.activeCooks)
      invariant k.tables == old(k.tables) && k.taken == old(k.taken)
    {
      k.StartCooking();
      k.FinishCooking();
      i := i + 1;
    }
    k.CookDone();
  }

  /** `courier_thread`: takes pizzas until `take_pizza` says there is no work
      left; returns how many it delivered. It runs after every cook is done. */
  method CourierThread(k: Kitchen) returns (delivered: nat)
    requires k.Valid() && k.activeCooks == 0
    modifies k
    ensures k.Valid() && k.readyPizzas == 0 && k.activeCooks == 0
    ensures delivered == old(k.readyPizzas) && k.taken == old(k.taken) + delivered
    ensures k.taken == k.finished
    ensures k.tables == old(k.tables) && k.freeTables == old(k.freeTables)
    ensures k.cooking == old(k.cooking) && k.finished == old(k.finished)
  {
    delivered := 0;
    while true
      invariant k.Valid() && k.activeCooks == 0
      invariant delivered + k.readyPizzas == old(k.readyPizzas)
      invariant k.taken == old(k.taken) + delivered
      invariant k.tables == old(k.tables) && k.freeTables == old(k.freeTables)
      invariant k.cooking == old(k.cooking) && k.finished == old(k.finished)
      decreases k.readyPizzas
    {
      var got := k.TakePizza();
      if got == 0 {
        return;
      }
      delivered := delivered + 1;
    }
  }

  /** One sequential run of `main`: the cooks, one after another, make their
      pizzas, then the couriers run in turn. Every pizza is delivered exactly
      once, and no table is left taken. */
  method RunSequential(tables: nat, counts: seq<nat>, couriers: nat) returns (delivered: nat)
    requires tables > 0 && couriers > 0
    ensures delivered == Sum(counts)
  {
    var k := new Kitchen.Init(tables, |counts|);
    var c := 0;
    while c < |counts|
      invariant c <= |counts| && k.Valid()
      invariant k.activeCooks == |counts| - c && k.freeTables == tables && k.cooking == 0
      invariant k.readyPizzas == Sum(counts[..c]) && k.taken == 0
    {
      assert counts[..c + 1][..c] == counts[..c];
      assert Sum(counts[..c + 1]) == Sum(counts[..c]) + counts[c];
      CookThread(k, counts[c]);
      c := c + 1;
    }
    assert counts[..c] == counts;
    delivered := 0;
    var j := 0;
    while j < couriers
      invariant j <= couriers && k.Valid() && k.activeCooks == 0
      invariant j > 0 ==> k.readyPizzas == 0
      invariant delivered + k.readyPizzas == Sum(counts)
    {
      var d := CourierThread(k);
      delivered := delivered + d;
      j := j + 1;
    }
  }
}
