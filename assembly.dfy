/** The device assembly of Lesson_9/lesson9_task3_test.c: two wrench workers
    put on nuts and one screwdriver worker puts in the screw; a device is
    complete with 2 nuts and 1 screw, and the work stops after `target`
    devices. The shared record and the two slot semaphores are one object;
    each stretch of a worker between two semaphore operations is one atomic
    step, and a blocking `P` becomes the precondition that the semaphore is
    positive. Ghost counters record the workers that are between steps. */
module Assembly {
  import opened Common

  /** Nuts and screws one device takes. */
  const NUTS: nat := 2
  const SCREWS: nat := 1

  /** The target from `argv[1]`, already converted by `atoi` (`None` when it
      is not given): positive values are used, anything else means 5. */
  function ParseTarget(arg: Option<int>): (t: int)
    ensures t > 0
    ensures arg.Some? && arg.value > 0 ==> t == arg.value
    ensures !(arg.Some? && arg.value > 0) ==> t == 5
  {
    match arg
    case None => 5
    case Some(v) => if v <= 0 then 5 else v
  }

  class Shared {
    var nuts: int
    var screw: int
    var deviceId: int
    var completed: int
    var target: int
    var stop: bool
    /** The values of the semaphores SEM_NUT_SLOTS and SEM_SCREW_SLOTS. */
    var nutSlots: nat
    var screwSlots: nat
    /** Wrench (screwdriver) workers that hold a slot and have not yet looked
        at `stop`. */
    ghost var holdingNut: nat
    ghost var holdingScrew: nat
    /** Wrench (screwdriver) workers that passed the `stop` check and are
        installing. */
    ghost var installingNut: nat
    ghost var installingScrew: nat

    ghost predicate Valid()
      reads this
    {
      nuts >= 0 && screw >= 0 &&
      nuts + holdingNut + installingNut + nutSlots == NUTS &&
      screw + holdingScrew + installingScrew + screwSlots == SCREWS &&
      deviceId == completed + 1 &&
      0 <= completed <= target &&
      (stop <==> completed >= target) &&
      (stop ==> nuts == 0 && screw == 0 && installingNut == 0 && installingScrew == 0)
    }

    /** The initialisation in `main`: the record zeroed, device 1, and the
        slot semaphores at 2 and 1. */
    constructor Init(target: int)
      requires target > 0
      ensures Valid()
      ensures nuts == 0 && screw == 0 && deviceId == 1 && completed == 0
      ensures this.target == target && !stop && nutSlots == 2 && screwSlots == 1
      ensures holdingNut == 0 && holdingScrew == 0 && installingNut == 0 && installingScrew == 0
    {
      nuts, screw, deviceId, completed := 0, 0, 1, 0;
      this.target := target;
      stop := false;
      nutSlots, screwSlots := 2, 1;
      holdingNut, holdingScrew, installingNut, installingScrew := 0, 0, 0, 0;
    }

    function Slots(wrench: bool): nat
      reads this
    {
      if wrench then nutSlots else screwSlots
    }

    /** `P` on the worker's slot semaphore. */
    method TakeSlot(wrench: bool)
      requires Valid() && Slots(wrench) > 0
      modifies this
      ensures Valid()
      ensures wrench ==> nutSlots == old(nutSlots) - 1 && holdingNut == old(holdingNut) + 1
      ensures wrench ==> screwSlots == old(screwSlots) && holdingScrew == old(holdingScrew)
      ensures !wrench ==> screwSlots == old(screwSlots) - 1 && holdingScrew == old(holdingScrew) + 1
      ensures !wrench ==> nutSlots == old(nutSlots) && holdingNut == old(holdingNut)
      ensures nuts == old(nuts) && screw == old(screw) && completed == old(completed)
      ensures deviceId == old(deviceId) && target == old(target) && stop == old(stop)
      ensures installingNut == old(installingNut) && installingScrew == old(installingScrew)
    {
      if wrench {
        nutSlots := nutSlots - 1;
        holdingNut := holdingNut + 1;
      } else {
        screwSlots := screwSlots - 1;
        holdingScrew := holdingScrew + 1;
      }
    }

    /** The first critical section after taking a slot: with `stop` set the
        slot is given back and the worker ends; otherwise it goes on to
        install on device `dev`. */
    method CheckStop(wrench: bool) returns (proceed: bool, dev: int)
      requires Valid() && (if wrench then holdingNut else holdingScrew) > 0
      modifies this
      ensures Valid()
      ensures proceed == !stop && dev == deviceId
      ensures wrench ==> holdingNut == old(holdingNut) - 1 && holdingScrew == old(holdingScrew)
      ensures !wrench ==> holdingScrew == old(holdingScrew) - 1 && holdingNut == old(holdingNut)
      ensures !proceed ==> Slots(wrench) == old(Slots(wrench)) + 1
      ensures !proceed ==> installingNut == old(installingNut) && installingScrew == old(installingScrew)
      ensures proceed && wrench ==> installingNut == old(installingNut) + 1 && installingScrew == old(installingScrew)
      ensures proceed && !wrench ==> installingScrew == old(installingScrew) + 1 && installingNut == old(installingNut)
      ensures proceed ==> Slots(wrench) == old(Slots(wrench))
      ensures Slots(!wrench) == old(Slots(!wrench))
      ensures nuts == old(nuts) && screw == old(screw) && completed == old(completed)
      ensures deviceId == old(deviceId) && target == old(target) && stop == old(stop)
    {
      dev := deviceId;
      if wrench {
        holdingNut := holdingNut - 1;
      } else {
        holdingScrew := holdingScrew - 1;
      }
      if stop {
        if wrench {
          nutSlots := nutSlots + 1;
        } else {
          screwSlots := screwSlots + 1;
        }
        return false, dev;
      }
      if wrench {
        installingNut := installingNut + 1;
      } else {
        installingScrew := installingScrew + 1;
      }
      return true, dev;
    }

    /** The second critical section: the part is installed; with both nuts
        and the screw in place the device is complete, a new one is mounted,
        its three slots open and the work stops once `target` is reached.
        The source's over-limit branch is never taken: the slots keep
        `nuts <= 2` and `screw <= 1`. */
    method Install(wrench: bool) returns (complete: bool)
      requires Valid() && (if wrench then installingNut else installingScrew) > 0
      modifies this
      ensures Valid() && target == old(target)
      ensures !complete ==> completed == old(completed) && deviceId == old(deviceId)
      ensures !complete ==> nuts == old(nuts) + (if wrench then 1 else 0)
      ensures !complete ==> screw == old(screw) + (if wrench then 0 else 1)
      ensures !complete ==> nutSlots == old(nutSlots) && screwSlots == old(screwSlots) && !stop
      ensures complete ==> completed == old(completed) + 1 && deviceId == old(deviceId) + 1
      ensures complete ==> nuts == 0 && screw == 0
      ensures complete ==> nutSlots == old(nutSlots) + 2 && screwSlots == old(screwSlots) + 1
      ensures complete ==> (stop <==> completed >= target)
      ensures complete <==> old(nuts) + (if wrench then 1 else 0) == 2 && old(screw) + (if wrench then 0 else 1) == 1
      ensures holdingNut == old(holdingNut) && holdingScrew == old(holdingScrew)
      ensures installingNut == old(installingNut) - (if wrench then 1 else 0)
      ensures installingScrew == old(installingScrew) - (if wrench then 0 else 1)
    {
      if wrench {
        nuts := nuts + 1;
        installingNut := installingNut - 1;
      } else {
        screw := screw + 1;
        installingScrew := installingScrew - 1;
      }
      if nuts > 2 || screw > 1 {
        assert false;
      }
      complete := false;
      if nuts == 2 && screw == 1 {
        completed := completed + 1;
        deviceId := deviceId + 1;
        nuts := 0;
        screw := 0;
        nutSlots := nutSlots + 2;
        screwSlots := screwSlots + 1;
        if completed >= target {
          stop := true;
        }
        complete := true;
      }
    }
  }

  /** One round of the loop of `worker_loop` for a worker that finds a free
      slot: returns false when the worker stops. */
  method WorkerRound(sh: Shared, wrench: bool) returns (goOn: bool)
    requires sh.Valid() && sh.Slots(wrench) > 0
    requires sh.holdingNut == 0 && sh.holdingScrew == 0
    requires sh.installingNut == 0 && sh.installingScrew == 0
    modifies sh
    ensures sh.Valid() && sh.target == old(sh.target)
    ensures sh.holdingNut == 0 && sh.holdingScrew == 0
    ensures sh.installingNut == 0 && sh.installingScrew == 0
    ensures old(sh.stop) ==> !goOn && sh.completed == old(sh.completed)
    ensures !old(sh.stop) ==> goOn
    ensures sh.completed == old(sh.completed) || sh.completed == old(sh.completed) + 1
  {
    if sh.stop {
      return false;
    }
    sh.TakeSlot(wrench);
    var proceed, dev := sh.CheckStop(wrench);
    if !proceed {
      return false;
    }
    var complete := sh.Install(wrench);
    return true;
  }

  /** One sequential schedule of the three workers: while `stop` is clear,
      the two wrench workers and then the screwdriver worker each take a
      slot, pass the `stop` check and install; then each worker finds `stop`
      at the top of its loop and ends. Exactly `target` devices are
      completed, and `device_id` has moved one past the last. */
  method RunSequential(arg: Option<int>) returns (completed: int, deviceId: int)
    ensures completed == ParseTarget(arg) && deviceId == completed + 1
  {
    var sh := new Shared.Init(ParseTarget(arg));
    while !sh.stop
      invariant sh.Valid() && sh.target == ParseTarget(arg)
      invariant sh.holdingNut == 0 && sh.holdingScrew == 0
      invariant sh.installingNut == 0 && sh.installingScrew == 0
      invariant !sh.stop ==> sh.nuts == 0 && sh.screw == 0 && sh.nutSlots == 2 && sh.screwSlots == 1
      decreases sh.target - sh.completed
    {
      ghost var before := sh.completed;
      sh.TakeSlot(true);
      var p1, d1 := sh.CheckStop(true);
      var c1 := sh.Install(true);
      sh.TakeSlot(true);
      var p2, d2 := sh.CheckStop(true);
      var c2 := sh.Install(true);
      sh.TakeSlot(false);
      var p3, d3 := sh.CheckStop(false);
      var c3 := sh.Install(false);
      assert c3 && sh.completed == before + 1;
    }
    var a := WorkerRound(sh, true);
    var b := WorkerRound(sh, true);
    var c := WorkerRound(sh, false);
    assert !a && !b && !c;
    completed, deviceId := sh.completed, sh.deviceId;
  }
}
