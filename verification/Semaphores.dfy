// User-level semaphores of ulib.c, on the channels of proc.c: every step of
// semDown() and semUp() that other threads can come between.
module Semaphores {

  // Where a thread is.  In semDown(): with the lock, with the lock and bound to
  // wait, before sleepChan(), asleep in it, woken, and with the lock again or
  // still.  In semUp(): with the lock, counted, and signalled.
  datatype Pc = Idle | DownLocked | MustWait | Released | Asleep | Woken | Passed | UpLocked | Counted | Signalled

  predicate Holds(p: Pc) {
    p == DownLocked || p == MustWait || p == Passed || p == UpLocked || p == Counted || p == Signalled
  }

  // It was counted in semDown(), and has not been woken.
  predicate Unwoken(p: Pc) { p == MustWait || p == Released || p == Asleep }

  // It was counted in semDown(), and does not wait any more.
  predicate Through(p: Pc) { p == Woken || p == Passed }

  function Number(b: bool): (n: nat) { if b then 1 else 0 }

  // The threads that wait without having been woken, and those let through.
  function UnwokenCount(ps: seq<Pc>): (n: nat) {
    if ps == [] then 0 else Number(Unwoken(ps[0])) + UnwokenCount(ps[1..])
  }

  function ThroughCount(ps: seq<Pc>): (n: nat) {
    if ps == [] then 0 else Number(Through(ps[0])) + ThroughCount(ps[1..])
  }

  lemma {:induction false} CountUpdate(ps: seq<Pc>, t: nat, p: Pc)
    requires t < |ps|
    ensures UnwokenCount(ps[t := p]) == UnwokenCount(ps) - Number(Unwoken(ps[t])) + Number(Unwoken(p))
    ensures ThroughCount(ps[t := p]) == ThroughCount(ps) - Number(Through(ps[t])) + Number(Through(p))
  {
    if t == 0 {
      assert ps[t := p][1..] == ps[1..];
    } else {
      assert ps[t := p][1..] == ps[1..][t - 1 := p];
      CountUpdate(ps[1..], t - 1, p);
    }
  }

  lemma {:induction false} CountIdle(n: nat)
    ensures UnwokenCount(seq(n, _ => Idle)) == 0 && ThroughCount(seq(n, _ => Idle)) == 0
  {
    if n > 0 {
      assert seq(n, _ => Idle)[1..] == seq(n - 1, _ => Idle);
      CountIdle(n - 1);
    }
  }

  // A thread that has counted up and not yet signalled.
  ghost predicate Signals(ps: seq<Pc>, holder: int) {
    0 <= holder < |ps| && ps[holder] == Counted
  }

  ghost predicate SomeAsleep(ps: seq<Pc>) {
    exists k: nat :: k < |ps| && ps[k] == Asleep
  }

  // The threads that wait beyond those for which ctr, and a signal that is still
  // to come, accounts.
  function Beyond(ps: seq<Pc>, ctr: int, signals: bool): int {
    UnwokenCount(ps) - (if ctr < 0 then -ctr else 0) - Number(signals && ctr <= 0)
  }

  lemma {:induction false} UnwokenNone(ps: seq<Pc>)
    ensures UnwokenCount(ps) == 0 <==> forall k: nat :: k < |ps| ==> !Unwoken(ps[k])
  {
    if ps != [] {
      UnwokenNone(ps[1..]);
      assert ps == [ps[0]] + ps[1..];
    }
  }

  class Semaphore {
    const initVal: int
    var ctr: int
    var lockvar: nat
    var pcs: seq<Pc>
    ghost var holder: int      // the thread that has the lock, or -1
    ghost var ups: nat         // semUp() calls that have counted
    ghost var downs: nat       // semDown() calls that have returned

    // Mutual exclusion; every count is accounted for; and, for an initial value
    // that is not negative, threads that wait outnumber what ctr is below zero.
    ghost predicate Valid()
      reads this
    {
      && -1 <= holder < |pcs| && lockvar == (if holder == -1 then 0 else 1)
      && (forall t: nat :: t < |pcs| ==> (Holds(pcs[t]) <==> t == holder))
      && downs + ThroughCount(pcs) + UnwokenCount(pcs) == initVal + ups - ctr
      && (initVal >= 0 ==> ctr + UnwokenCount(pcs) >= Number(Signals(pcs, holder)))
    }

    // No more calls of semDown() have returned than the semaphore has units.
    lemma Safety()
      requires Valid() && initVal >= 0
      ensures downs <= initVal + ups && Stranded() >= 0
    {
    }

    // The threads for which no unit of the semaphore is on its way: signals that
    // were lost, less those made good.
    ghost function Stranded(): int
      reads this
    {
      Beyond(pcs, ctr, Signals(pcs, holder))
    }

    // While the lock is free and no thread is owed a unit, a thread waits if and
    // only if it is stranded.
    lemma SleepsOnIff()
      requires Valid() && holder == -1 && ctr >= 0
      ensures UnwokenCount(pcs) == Stranded()
      ensures Stranded() == 0 <==> forall k: nat :: k < |pcs| ==> !Unwoken(pcs[k])
      ensures Stranded() == 0 ==> !SomeAsleep(pcs)
    {
      UnwokenNone(pcs);
    }

    // semInit(), with n threads.
    constructor (value: int, n: nat)
      ensures Valid() && initVal == value && ctr == value && holder == -1 && pcs == seq(n, _ => Idle) && ups == 0 && downs == 0
      ensures value >= 0 ==> Stranded() == 0
    {
      initVal, ctr, lockvar, pcs := value, value, 0, seq(n, _ => Idle);
      holder, ups, downs := -1, 0, 0;
      new;
      CountIdle(n);
    }

    // One xchg() of acquireLock(): it takes the lock exactly if it is free.
    method Xchg(t: nat) returns (ok: bool)
      requires Valid() && t < |pcs| && (pcs[t] == Idle || pcs[t] == Woken)
      modifies this`lockvar, this`holder
      ensures ok <==> old(holder) == -1
      ensures lockvar == 1 && holder == if ok then t else old(holder)
    {
      ok := lockvar == 0;
      lockvar := 1;
      if ok {
        holder := t;
      }
    }

    method Move(t: nat, p: Pc)
      requires t < |pcs|
      modifies this`pcs
      ensures pcs == old(pcs)[t := p]
      ensures UnwokenCount(pcs) == UnwokenCount(old(pcs)) - Number(Unwoken(old(pcs)[t])) + Number(Unwoken(p))
      ensures ThroughCount(pcs) == ThroughCount(old(pcs)) - Number(Through(old(pcs)[t])) + Number(Through(p))
    {
      CountUpdate(pcs, t, p);
      pcs := pcs[t := p];
    }

    // releaseLock(): the lock is held when it is called.
    method ReleaseLock(t: nat)
      requires Valid() && holder == t
      modifies this`lockvar, this`holder
      ensures lockvar == 0 && holder == -1
    {
      assert lockvar == 1;
      lockvar := 0;
      holder := -1;
    }

    // semDown(): one try for the lock.
    method DownLock(t: nat) returns (ok: bool)
      requires Valid() && t < |pcs| && pcs[t] == Idle
      modifies this`lockvar, this`holder, this`pcs
      ensures Valid() && (ok <==> old(holder) == -1) && pcs == if ok then old(pcs)[t := DownLocked] else old(pcs)
      ensures Stranded() == old(Stranded())
    {
      ok := Xchg(t);
      if ok {
        Move(t, DownLocked);
      }
    }

    // semDown(): s->ctr--, and the test.
    method DownCount(t: nat)
      requires Valid() && t < |pcs| && pcs[t] == DownLocked
      modifies this`ctr, this`pcs
      ensures Valid() && ctr == old(ctr) - 1 && pcs == old(pcs)[t := if ctr < 0 then MustWait else Passed]
      ensures Stranded() == old(Stranded())
    {
      ctr := ctr - 1;
      Move(t, if ctr < 0 then MustWait else Passed);
    }

    // condWait(): releaseLock(l).
    method WaitRelease(t: nat)
      requires Valid() && t < |pcs| && pcs[t] == MustWait
      modifies this`lockvar, this`holder, this`pcs
      ensures Valid() && holder == -1 && pcs == old(pcs)[t := Released]
      ensures Stranded() == old(Stranded())
    {
      ReleaseLock(t);
      Move(t, Released);
    }

    // condWait(): sleepChan(cv->var).
    method WaitSleep(t: nat)
      requires Valid() && t < |pcs| && pcs[t] == Released
      modifies this`pcs
      ensures Valid() && pcs == old(pcs)[t := Asleep]
      ensures Stranded() == old(Stranded())
    {
      Move(t, Asleep);
    }

    // condWait(): one try of acquireLock(l).
    method WaitLock(t: nat) returns (ok: bool)
      requires Valid() && t < |pcs| && pcs[t] == Woken
      modifies this`lockvar, this`holder, this`pcs
      ensures Valid() && (ok <==> old(holder) == -1) && pcs == if ok then old(pcs)[t := Passed] else old(pcs)
      ensures Stranded() == old(Stranded())
    {
      ok := Xchg(t);
      if ok {
        Move(t, Passed);
      }
    }

    // semDown(): releaseLock(&s->l), and the call returns.
    method DownReturn(t: nat)
      requires Valid() && t < |pcs| && pcs[t] == Passed
      modifies this`lockvar, this`holder, this`pcs, this`downs
      ensures Valid() && holder == -1 && pcs == old(pcs)[t := Idle] && downs == old(downs) + 1
      ensures Stranded() == old(Stranded())
    {
      ReleaseLock(t);
      Move(t, Idle);
      downs := downs + 1;
    }

    // semUp(): one try for the lock.
    method UpLock(t: nat) returns (ok: bool)
      requires Valid() && t < |pcs| && pcs[t] == Idle
      modifies this`lockvar, this`holder, this`pcs
      ensures Valid() && (ok <==> old(holder) == -1) && pcs == if ok then old(pcs)[t := UpLocked] else old(pcs)
      ensures Stranded() == old(Stranded())
    {
      ok := Xchg(t);
      if ok {
        Move(t, UpLocked);
      }
    }

    // semUp(): s->ctr++.
    method UpCount(t: nat)
      requires Valid() && t < |pcs| && pcs[t] == UpLocked
      modifies this`ctr, this`pcs, this`ups
      ensures Valid() && ctr == old(ctr) + 1 && ups == old(ups) + 1 && pcs == old(pcs)[t := Counted]
      ensures Stranded() == old(Stranded())
    {
      ctr := ctr + 1;
      ups := ups + 1;
      Move(t, Counted);
    }

    // signal(): sigOneChan() wakes the first sleeper, if there is one.  The signal
    // is lost exactly if a thread is owed it and none has gone to sleep yet; one
    // that nobody is owed makes a lost one good if somebody sleeps.
    method UpSignal(t: nat) returns (w: nat)
      requires Valid() && t < |pcs| && pcs[t] == Counted
      modifies this`pcs
      ensures Valid() && w <= |old(pcs)| && forall k: nat :: k < w ==> old(pcs)[k] != Asleep
      ensures w < |old(pcs)| ==> old(pcs)[w] == Asleep && pcs == old(pcs)[w := Woken][t := Signalled]
      ensures w == |old(pcs)| ==> pcs == old(pcs)[t := Signalled]
      ensures var asleep := SomeAsleep(old(pcs));
        Stranded() == old(Stranded()) + Number(ctr <= 0 && !asleep) - Number(ctr > 0 && asleep)
      ensures old(Stranded()) == 0 ==> (Stranded() == 0 <==> UnwokenCount(old(pcs)) == 0 || SomeAsleep(old(pcs)))
    {
      w := 0;
      while w < |pcs| && pcs[w] != Asleep
        invariant w <= |pcs| && forall k: nat :: k < w ==> pcs[k] != Asleep
        modifies {}
      {
        w := w + 1;
      }
      UnwokenNone(pcs);
      if w < |pcs| {
        Move(w, Woken);
      }
      Move(t, Signalled);
    }

    // semUp(): releaseLock(&s->l), and the call returns.
    method UpReturn(t: nat)
      requires Valid() && t < |pcs| && pcs[t] == Signalled
      modifies this`lockvar, this`holder, this`pcs
      ensures Valid() && holder == -1 && pcs == old(pcs)[t := Idle]
      ensures Stranded() == old(Stranded())
    {
      ReleaseLock(t);
      Move(t, Idle);
    }
  }

  // With a negative initial value the bound fails: one semDown() that waits and
  // one semUp() that lets it through.
  method NegativeInitVal(value: int) returns (s: Semaphore)
    requires value < 0
    ensures s.initVal == value && s.downs > s.initVal + s.ups
  {
    s := new Semaphore(value, 2);
    var ok := s.DownLock(0);
    s.DownCount(0);
    s.WaitRelease(0);
    s.WaitSleep(0);
    ok := s.UpLock(1);
    s.UpCount(1);
    var w := s.UpSignal(1);
    s.UpReturn(1);
    ok := s.WaitLock(0);
    s.DownReturn(0);
  }

  // A signal between releaseLock() and sleepChan() is lost, as UpSignal() says of
  // every run: the thread sleeps on although a unit was given back and nobody else is in a call.
  method LostWakeup() returns (s: Semaphore)
    ensures s.Valid() && s.pcs == [Asleep, Idle] && s.ups == 1 && s.downs == 0 && s.ctr == 0 && s.holder == -1
    ensures s.Stranded() == 1
  {
    s := new Semaphore(0, 2);
    var ok := s.DownLock(0);
    s.DownCount(0);
    s.WaitRelease(0);
    ok := s.UpLock(1);
    s.UpCount(1);
    var w := s.UpSignal(1);
    s.UpReturn(1);
    s.WaitSleep(0);
  }
}
