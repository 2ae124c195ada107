/** The unisex shower of Lesson_6/lesson6_shower+bonus.c: at most N people
    inside, never men and women together, and a streak rule that lets the
    waiting gender in after MAX_STREAK entries of the other. The shared
    `state_t`, the capacity semaphore and the two wait-queue semaphores are
    one object. Each critical section under SEM_MUTEX is one atomic step; a
    blocking `P` becomes the precondition that the semaphore is positive.
    `get_max_streak` is evaluated in every section from the environment
    value `env` and the state's own N. The recheck after `P(SEM_CAP)` is
    given as written, Recheck and then CountWait, two sections between
    which a wake-up is lost (LostWakeup), and corrected, Enter. */
module Shower {
  import opened Common

  datatype Gender = NONE | MEN | WOMEN

  function Other(g: Gender): Gender {
    match g
    case MEN => WOMEN
    case WOMEN => MEN
    case NONE => NONE
  }

  /** `get_max_streak`: `env` is `atoi` of a set, non-empty MAX_STREAK (None
      when it is unset or empty); a positive value wins, else 2·N when N > 0,
      else 4. */
  function MaxStreak(env: Option<int>, n: int): (m: int)
    ensures m > 0
    ensures env.Some? && env.value > 0 ==> m == env.value
    ensures !(env.Some? && env.value > 0) ==> m == (if n > 0 then 2 * n else 4)
  {
    if env.Some? && env.value > 0 then env.value
    else if n > 0 then 2 * n else 4
  }

  /** The outcome of the leave-time decision when the room has emptied. */
  datatype Wake = WakeWomen | WakeMen | Idle

  /** The decision table of `leave_gender` for an empty room: a gender that
      alone waits is woken; with both waiting, a streak that reached the limit
      while the other did not hands over, and otherwise `turn` decides. */
  function Decide(menWait: int, womenWait: int, menStreak: int, womenStreak: int,
                  turn: Gender, max: int): Wake
  {
    if womenWait > 0 && menWait == 0 then WakeWomen
    else if menWait > 0 && womenWait == 0 then WakeMen
    else if womenWait > 0 && menWait > 0 then
      if menStreak >= max && womenStreak < max then WakeWomen
      else if womenStreak >= max && menStreak < max then WakeMen
      else if turn == WOMEN then WakeWomen
      else WakeMen
    else Idle
  }

  /** Only a gender that has waiters is ever woken, and nobody is woken only
      when nobody waits. */
  lemma DecideWakesWaiters(mw: nat, ww: nat, ms: int, ws: int, turn: Gender, max: int)
    ensures Decide(mw, ww, ms, ws, turn, max) == WakeWomen ==> ww > 0
    ensures Decide(mw, ww, ms, ws, turn, max) == WakeMen ==> mw > 0
    ensures Decide(mw, ww, ms, ws, turn, max) == Idle <==> mw == 0 && ww == 0
  {
  }

  /** With both genders waiting, a gender whose streak reached the limit
      while the other's did not yields to the other. */
  lemma DecideStreakYields(mw: nat, ww: nat, ms: int, ws: int, turn: Gender, max: int)
    requires mw > 0 && ww > 0
    ensures ms >= max && ws < max ==> Decide(mw, ww, ms, ws, turn, max) == WakeWomen
    ensures ws >= max && ms < max ==> Decide(mw, ww, ms, ws, turn, max) == WakeMen
  {
  }

  /** Two ties in a row, with a switch in between, go to different genders:
      waking one gender hands `turn` to the other. */
  lemma DecideTieAlternates(mw: nat, ww: nat, max: int, turn: Gender)
    requires mw > 0 && ww > 0 && max > 0 && turn != NONE
    ensures Decide(mw, ww, 0, 0, turn, max) == (if turn == WOMEN then WakeWomen else WakeMen)
    ensures Decide(mw, ww, 0, 0, Other(turn), max) != Decide(mw, ww, 0, 0, turn, max)
  {
  }

  class State {
    var menIn: int
    var womenIn: int
    var menWait: int
    var womenWait: int
    var cur: Gender
    var menStreak: int
    var womenStreak: int
    var turn: Gender
    var n: int
    /** The values of the semaphores SEM_CAP, SEM_MQ and SEM_WQ. */
    var cap: nat
    var menQ: nat
    var womenQ: nat

    ghost predicate Valid()
      reads this
    {
      menIn >= 0 && womenIn >= 0 && menWait >= 0 && womenWait >= 0 &&
      menIn + womenIn + cap == n &&
      (menIn > 0 ==> cur == MEN) && (womenIn > 0 ==> cur == WOMEN)
    }

    /** Never men and women inside at once. */
    lemma Exclusive()
      requires Valid()
      ensures !(menIn > 0 && womenIn > 0)
    {
    }

    /** `cmd_init` (with the semaphores SEM_CAP = N, SEM_MQ = SEM_WQ = 0). */
    constructor Init(n: int)
      requires n > 0
      ensures Valid()
      ensures menIn == 0 && womenIn == 0 && menWait == 0 && womenWait == 0
      ensures cur == NONE && turn == MEN && menStreak == 0 && womenStreak == 0
      ensures this.n == n && cap == n && menQ == 0 && womenQ == 0
    {
      menIn, womenIn, menWait, womenWait := 0, 0, 0, 0;
      cur, turn := NONE, MEN;
      menStreak, womenStreak := 0, 0;
      this.n := n;
      cap, menQ, womenQ := n, 0, 0;
    }

    /** The fairness block of `enter_gender`. */
    predicate FairnessBlock(who: Gender, max: int)
      reads this
    {
      if who == MEN then menStreak >= max && womenWait > 0 && cur != WOMEN
      else womenStreak >= max && menWait > 0 && cur != MEN
    }

    /** The admission test of `enter_gender`. */
    predicate Allow(who: Gender, max: int)
      reads this
    {
      (cur == NONE || cur == who) &&
      !(if who == MEN then womenIn > 0 else menIn > 0) &&
      !FairnessBlock(who, max)
    }

    /** An idle room has nobody waiting: whoever waits is woken by the
        last person to leave. */
    ghost predicate Settled()
      reads this
    {
      cur == NONE ==> menWait == 0 && womenWait == 0
    }

    /** In a settled idle room nobody is refused, so nobody starts to wait
        while the room is free. */
    lemma IdleAdmits(who: Gender, max: int)
      requires Valid() && Settled() && cur == NONE && who != NONE
      ensures Allow(who, max)
    {
    }

    /** The first critical section of an `enter_gender` round: when entry is
        not allowed the caller counts itself as waiting (and then blocks on
        its queue); otherwise nothing changes and it goes on to SEM_CAP. */
    method Check(who: Gender, env: Option<int>) returns (allow: bool)
      requires Valid() && who != NONE
      modifies this
      ensures Valid() && (old(Settled()) ==> Settled())
      ensures allow == old(Allow(who, MaxStreak(env, n)))
      ensures !allow && who == MEN ==> menWait == old(menWait) + 1 && womenWait == old(womenWait)
      ensures !allow && who == WOMEN ==> womenWait == old(womenWait) + 1 && menWait == old(menWait)
      ensures allow ==> menWait == old(menWait) && womenWait == old(womenWait)
      ensures menIn == old(menIn) && womenIn == old(womenIn) && cur == old(cur)
      ensures menStreak == old(menStreak) && womenStreak == old(womenStreak) && turn == old(turn)
      ensures n == old(n) && cap == old(cap) && menQ == old(menQ) && womenQ == old(womenQ)
    {
      var max := MaxStreak(env, n);
      allow := Allow(who, max);
      if !allow {
        if who == MEN {
          menWait := menWait + 1;
        } else {
          womenWait := womenWait + 1;
        }
      }
    }

    /** The recheck after `P(SEM_CAP)`, as the code has it: the admission
        test is made again; on success the caller enters, taking `cur` for
        its gender, extending its streak and clearing the other one. On
        failure the place is given back and the mutex released; counting
        the caller as waiting is a separate critical section, CountWait. */
    method Recheck(who: Gender, env: Option<int>) returns (entered: bool)
      requires Valid() && who != NONE && cap > 0
      modifies this
      ensures Valid()
      ensures entered == old(Allow(who, MaxStreak(env, n)))
      ensures entered ==> cur == who && cap == old(cap) - 1
      ensures entered && who == MEN ==> menIn == old(menIn) + 1 && menStreak == old(menStreak) + 1 && womenStreak == 0
      ensures entered && who == WOMEN ==> womenIn == old(womenIn) + 1 && womenStreak == old(womenStreak) + 1 && menStreak == 0
      ensures entered && who == MEN ==> womenIn == old(womenIn)
      ensures entered && who == WOMEN ==> menIn == old(menIn)
      ensures !entered ==> cap == old(cap) && cur == old(cur) && menIn == old(menIn) && womenIn == old(womenIn)
      ensures !entered ==> menStreak == old(menStreak) && womenStreak == old(womenStreak)
      ensures menWait == old(menWait) && womenWait == old(womenWait)
      ensures turn == old(turn) && n == old(n) && menQ == old(menQ) && womenQ == old(womenQ)
    {
      var max := MaxStreak(env, n);
      if !Allow(who, max) {
        return false;
      }
      Admit(who);
      return true;
    }

    /** The caller keeps the place SEM_CAP gave it, takes `cur` for its
        gender, extends its streak and clears the other one. */
    method Admit(who: Gender)
      requires Valid() && who != NONE && cap > 0 && (cur == NONE || cur == who) && (if who == MEN then womenIn else menIn) == 0
      modifies this
      ensures Valid() && cur == who && cap == old(cap) - 1
      ensures who == MEN ==> menIn == old(menIn) + 1 && menStreak == old(menStreak) + 1 && womenStreak == 0 && womenIn == old(womenIn)
      ensures who == WOMEN ==> womenIn == old(womenIn) + 1 && womenStreak == old(womenStreak) + 1 && menStreak == 0 && menIn == old(menIn)
      ensures menWait == old(menWait) && womenWait == old(womenWait)
      ensures turn == old(turn) && n == old(n) && menQ == old(menQ) && womenQ == old(womenQ)
    {
      cap := cap - 1;
      cur := who;
      if who == MEN {
        menIn := menIn + 1;
        menStreak := menStreak + 1;
        womenStreak := 0;
      } else {
        womenIn := womenIn + 1;
        womenStreak := womenStreak + 1;
        menStreak := 0;
      }
    }

    /** The critical section after a failed recheck, as the code has it:
        the caller counts itself as waiting, whatever happened to the room
        since the recheck released the mutex. */
    method CountWait(who: Gender)
      requires Valid() && who != NONE
      modifies this
      ensures Valid()
      ensures who == MEN ==> menWait == old(menWait) + 1 && womenWait == old(womenWait)
      ensures who == WOMEN ==> womenWait == old(womenWait) + 1 && menWait == old(menWait)
      ensures menIn == old(menIn) && womenIn == old(womenIn) && cur == old(cur) && cap == old(cap)
      ensures menStreak == old(menStreak) && womenStreak == old(womenStreak)
      ensures turn == old(turn) && n == old(n) && menQ == old(menQ) && womenQ == old(womenQ)
    {
      if who == MEN {
        menWait := menWait + 1;
      } else {
        womenWait := womenWait + 1;
      }
    }

    /** The recheck with the refused caller counted as waiting in the same
        critical section, so that no one can leave in between: on failure
        the place is given back and only the caller's wait counter grows.
        An idle room then never has waiters. */
    method Enter(who: Gender, env: Option<int>) returns (entered: bool)
      requires Valid() && who != NONE && cap > 0
      modifies this
      ensures Valid() && (old(Settled()) ==> Settled())
      ensures entered == old(Allow(who, MaxStreak(env, n)))
      ensures entered ==> cur == who && cap == old(cap) - 1
      ensures entered && who == MEN ==> menIn == old(menIn) + 1 && menStreak == old(menStreak) + 1 && womenStreak == 0
      ensures entered && who == WOMEN ==> womenIn == old(womenIn) + 1 && womenStreak == old(womenStreak) + 1 && menStreak == 0
      ensures entered ==> menWait == old(menWait) && womenWait == old(womenWait)
      ensures entered && who == MEN ==> womenIn == old(womenIn)
      ensures entered && who == WOMEN ==> menIn == old(menIn)
      ensures !entered ==> cap == old(cap) && cur == old(cur) && menIn == old(menIn) && womenIn == old(womenIn)
      ensures !entered ==> menStreak == old(menStreak) && womenStreak == old(womenStreak)
      ensures !entered && who == MEN ==> menWait == old(menWait) + 1 && womenWait == old(womenWait)
      ensures !entered && who == WOMEN ==> womenWait == old(womenWait) + 1 && menWait == old(menWait)
      ensures turn == old(turn) && n == old(n) && menQ == old(menQ) && womenQ == old(womenQ)
    {
      var max := MaxStreak(env, n);
      if !Allow(who, max) {
        if who == MEN {
          menWait := menWait + 1;
        } else {
          womenWait := womenWait + 1;
        }
        return false;
      }
      Admit(who);
      return true;
    }

    /** `Pq` on the caller's wait queue: a woken waiter goes back to the top
        of `enter_gender`. */
    method Resume(who: Gender)
      requires Valid() && who != NONE && (if who == MEN then menQ else womenQ) > 0
      modifies this
      ensures Valid() && (old(Settled()) ==> Settled())
      ensures who == MEN ==> menQ == old(menQ) - 1 && womenQ == old(womenQ)
      ensures who == WOMEN ==> womenQ == old(womenQ) - 1 && menQ == old(menQ)
      ensures menIn == old(menIn) && womenIn == old(womenIn) && cur == old(cur)
      ensures menWait == old(menWait) && womenWait == old(womenWait) && cap == old(cap)
      ensures menStreak == old(menStreak) && womenStreak == old(womenStreak)
      ensures turn == old(turn) && n == old(n)
    {
      if who == MEN {
        menQ := menQ - 1;
      } else {
        womenQ := womenQ - 1;
      }
    }

    /** `wake_women_locked`: every waiting woman is released, women get the
        room, men get the next tie, both streaks restart. */
    method WakeWomenLocked()
      requires Valid() && menIn == 0
      modifies this
      ensures Valid()
      ensures womenWait == 0 && womenQ == old(womenQ) + old(womenWait)
      ensures cur == WOMEN && turn == MEN && menStreak == 0 && womenStreak == 0
      ensures menIn == old(menIn) && womenIn == old(womenIn) && menWait == old(menWait)
      ensures cap == old(cap) && n == old(n) && menQ == old(menQ)
    {
      var k := womenWait;
      womenWait := 0;
      cur := WOMEN;
      turn := MEN;
      menStreak := 0;
      womenStreak := 0;
      womenQ := womenQ + k;
    }

    /** `wake_men_locked`: the mirror image. */
    method WakeMenLocked()
      requires Valid() && womenIn == 0
      modifies this
      ensures Valid()
      ensures menWait == 0 && menQ == old(menQ) + old(menWait)
      ensures cur == MEN && turn == WOMEN && menStreak == 0 && womenStreak == 0
      ensures menIn == old(menIn) && womenIn == old(womenIn) && womenWait == old(womenWait)
      ensures cap == old(cap) && n == old(n) && womenQ == old(womenQ)
    {
      var k := menWait;
      menWait := 0;
      cur := MEN;
      turn := WOMEN;
      menStreak := 0;
      womenStreak := 0;
      menQ := menQ + k;
    }

    /** `leave_gender`: one person of gender `who` leaves and gives its place
        back; if the room is now empty the decision table picks whom to wake,
        and with nobody waiting the room becomes free for either gender. */
    method Leave(who: Gender, env: Option<int>)
      requires Valid() && who != NONE && (if who == MEN then menIn else womenIn) > 0
      modifies this
      ensures Valid() && (old(Settled()) ==> Settled()) && n == old(n) && cap == old(cap) + 1
      ensures who == MEN ==> menIn == old(menIn) - 1 && womenIn == old(womenIn)
      ensures who == WOMEN ==> womenIn == old(womenIn) - 1 && menIn == old(menIn)
      ensures menIn + womenIn > 0 ==>
        cur == old(cur) && turn == old(turn) && menWait == old(menWait) && womenWait == old(womenWait) &&
        menStreak == old(menStreak) && womenStreak == old(womenStreak) &&
        menQ == old(menQ) && womenQ == old(womenQ)
      ensures menIn + womenIn == 0 ==>
        match Decide(old(menWait), old(womenWait), old(menStreak), old(womenStreak), old(turn), MaxStreak(env, n))
        case WakeWomen =>
          cur == WOMEN && turn == MEN && womenWait == 0 && menWait == old(menWait) &&
          womenQ == old(womenQ) + old(womenWait) && menQ == old(menQ) &&
          menStreak == 0 && womenStreak == 0
        case WakeMen =>
          cur == MEN && turn == WOMEN && menWait == 0 && womenWait == old(womenWait) &&
          menQ == old(menQ) + old(menWait) && womenQ == old(womenQ) &&
          menStreak == 0 && womenStreak == 0
        case Idle =>
          cur == NONE && turn == old(turn) && menWait == 0 && womenWait == 0 &&
          menQ == old(menQ) && womenQ == old(womenQ) && menStreak == 0 && womenStreak == 0
    {
      if who == MEN {
        menIn := menIn - 1;
      } else {
        womenIn := womenIn - 1;
      }
      cap := cap + 1;
      if menIn == 0 && womenIn == 0 {
        var max := MaxStreak(env, n);
        if womenWait > 0 && menWait == 0 {
          WakeWomenLocked();
        } else if menWait > 0 && womenWait == 0 {
          WakeMenLocked();
        } else if womenWait > 0 && menWait > 0 {
          if menStreak >= max && womenStreak < max {
            WakeWomenLocked();
          } else if womenStreak >= max && menStreak < max {
            WakeMenLocked();
          } else if turn == WOMEN {
            WakeWomenLocked();
          } else {
            WakeMenLocked();
          }
        } else {
          cur := NONE;
          menStreak := 0;
          womenStreak := 0;
        }
      }
    }
  }

  /** The lost wake-up of the code as written, with N = 2 and MAX_STREAK
      unset. A woman passes the first check on the idle room; a man passes
      his, takes a place and enters before her recheck, which refuses her
      and gives her place back. The man leaves while she is between the
      two critical sections: nobody is counted as waiting, so the room goes
      idle. Only then does she count herself and block on SEM_WQ, whose
      value is 0, with the room empty: nothing wakes her until someone else
      enters and leaves. */
  method LostWakeup() returns (s: State)
    ensures s.Valid() && !s.Settled()
    ensures s.cur == NONE && s.menIn == 0 && s.womenIn == 0
    ensures s.womenWait == 1 && s.womenQ == 0
  {
    s := new State.Init(2);
    var w := s.Check(WOMEN, None);
    assert w;
    var m := s.Check(MEN, None);
    assert m;
    m := s.Recheck(MEN, None);
    assert m;
    w := s.Recheck(WOMEN, None);
    assert !w;
    s.Leave(MEN, None);
    s.CountWait(WOMEN);
  }
}
