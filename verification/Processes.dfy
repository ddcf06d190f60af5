// The process table of proc.c: fork(), exit(), wait(), sleep(), wakeup() and
// kill(), each section under ptable.lock as one step.
module Processes {

  datatype State = UNUSED | EMBRYO | SLEEPING | RUNNABLE | RUNNING | ZOMBIE

  datatype Option<T> = None | Some(value: T)

  // What a process sleeps on: a process, as in wait(), or something else.
  datatype Chan = Nothing | Proc(p: nat) | Other(id: nat)

  // Where a process is in the kernel: past allocproc() in fork(), or in wait().
  datatype Point = User | Forking(child: nat) | Waiting

  datatype Proc = P(state: State, pid: nat, parent: Option<nat>, chan: Chan, killed: bool, prio: int, at: Point)

  type Table = seq<Proc>

  datatype Reap = Reap(pid: nat, reaper: nat)

  // Who forked whom, who has exited, and who has been reaped by whom, by pid.
  datatype History = History(born: map<nat, nat>, exited: set<nat>, reaped: seq<Reap>)

  predicate Alive(p: Proc) {
    p.state == SLEEPING || p.state == RUNNABLE || p.state == RUNNING
  }

  predicate InWait(p: Proc, i: nat) {
    p.state == SLEEPING && p.chan == Proc(i)
  }

  predicate ZombieOf(p: Proc, i: nat) {
    p.state == ZOMBIE && p.parent == Some(i)
  }

  // ----- the invariant -----

  ghost predicate SlotOk(ps: Table, init: nat, next: nat, h: History, i: nat)
    requires i < |ps| && init < |ps|
  {
    var p := ps[i];
    && (!Alive(p) ==> p.at == User) && (p.state == UNUSED ==> p.parent == None)
    && p.pid < next && (p.state != UNUSED ==> 0 < p.pid && (p.pid in h.exited <==> p.state == ZOMBIE))
    && (p.parent.Some? ==> p.parent.value < |ps| && p.pid in h.born && i != init)
    && (p.parent.Some? ==> p.parent.value == init || ps[p.parent.value].pid == h.born[p.pid])
    && ((Alive(p) || p.state == ZOMBIE) && i != init ==> p.parent.Some?)
    && (p.state == SLEEPING && p.chan.Proc? ==> p.chan.p == i && p.at == Waiting)
    && (p.at.Forking? ==> Alive(p) && p.at.child < |ps| && ps[p.at.child].state == EMBRYO)
    && (p.at.Forking? ==> ps[p.at.child].parent == None || ps[p.at.child].parent == Some(i))
  }

  ghost predicate PairOk(ps: Table, i: nat, k: nat)
    requires i < |ps| && k < |ps|
  {
    && !(InWait(ps[i], i) && ZombieOf(ps[k], i))
    && (ps[k].parent == Some(i) ==> Alive(ps[i]) && i != k)
    && (i != k && ps[i].pid != 0 ==> ps[i].pid != ps[k].pid)
    && (i != k && ps[i].at.Forking? ==> ps[k].at != ps[i].at)
  }

  ghost predicate ReapOk(h: History, initpid: nat, r: Reap) {
    r.pid in h.exited && r.pid in h.born && (r.reaper == h.born[r.pid] || r.reaper == initpid)
  }

  ghost predicate ReapsOk(ps: Table, init: nat, next: nat, h: History)
    requires init < |ps|
  {
    && (forall r :: r in h.reaped ==> ReapOk(h, ps[init].pid, r))
    && (forall e :: e in h.exited ==> 0 < e < next)
    && (forall e :: e in h.born ==> 0 < e < next)
    && (forall a, b :: 0 <= a < b < |h.reaped| ==> h.reaped[a].pid != h.reaped[b].pid)
    && (forall i: nat, r :: i < |ps| && ps[i].state != UNUSED && r in h.reaped ==> ps[i].pid != r.pid)
  }

  ghost predicate Inv(ps: Table, init: nat, next: nat, h: History) {
    && init < |ps| && Alive(ps[init]) && 0 < next
    && (forall i: nat :: i < |ps| ==> SlotOk(ps, init, next, h, i))
    && (forall i: nat, k: nat :: i < |ps| && k < |ps| ==> PairOk(ps, i, k))
    && ReapsOk(ps, init, next, h)
  }

  // The protocol, from the invariant: no process sleeps in wait() while a child
  // of it is a zombie; a zombie's parent is alive, and no one else's child.
  lemma NoLostChild(ps: Table, init: nat, next: nat, h: History, z: nat)
    requires Inv(ps, init, next, h) && z < |ps| && ps[z].state == ZOMBIE
    ensures ps[z].parent.Some? && ps[z].parent.value < |ps| && ps[z].pid in h.born
    ensures var q := ps[z].parent.value; Alive(ps[q]) && !InWait(ps[q], q) && (q == init || ps[q].pid == h.born[ps[z].pid])
  {
    assert SlotOk(ps, init, next, h, z);
    assert SlotOk(ps, init, next, h, init);
    assert PairOk(ps, ps[z].parent.value, z);
  }

  // ----- the steps -----

  // wakeup1()
  function WakeOne(p: Proc, c: Chan): (r: Proc) {
    if p.state == SLEEPING && p.chan == c then p.(state := RUNNABLE) else p
  }

  function Woken(ps: Table, c: Chan): (r: Table)
    ensures |r| == |ps|
  {
    seq(|ps|, i requires 0 <= i < |ps| => WakeOne(ps[i], c))
  }

  // Exactly the processes that sleep on c become runnable.
  lemma WokenAt(ps: Table, c: Chan, i: nat)
    requires i < |ps|
    ensures Woken(ps, c)[i] == ps[i].(state := if ps[i].state == SLEEPING && ps[i].chan == c then RUNNABLE else ps[i].state)
  {
  }

  lemma WokenInv(ps: Table, init: nat, next: nat, h: History, c: Chan)
    requires Inv(ps, init, next, h)
    ensures Inv(Woken(ps, c), init, next, h)
  {
    var r := Woken(ps, c);
    forall i: nat | i < |r| ensures SlotOk(r, init, next, h, i) {
      assert SlotOk(ps, init, next, h, i);
    }
    forall i: nat, k: nat | i < |r| && k < |r| ensures PairOk(r, i, k) {
      assert PairOk(ps, i, k);
    }
  }

  // The parent and the children of an exiting process: children go to init.
  function Handed(p: Proc, cur: nat, init: nat): (r: Proc) {
    if p.parent == Some(cur) then p.(parent := Some(init)) else p
  }

  // One of the first n slots is a zombie child of cur.
  ghost predicate HasZombie(ps: Table, cur: nat, n: nat)
    requires n <= |ps|
  {
    exists k: nat :: k < n && ZombieOf(ps[k], cur)
  }

  function ParentChan(p: Proc): Chan {
    if p.parent.Some? then Proc(p.parent.value) else Nothing
  }

  // Slot i in exit() of process cur, when the first n slots have been scanned.
  ghost function ExitAt(ps: Table, cur: nat, init: nat, n: nat, i: nat): (r: Proc)
    requires cur < |ps| && i < |ps| && n <= |ps|
  {
    var p := WakeOne(ps[i], ParentChan(ps[cur]));
    var q := if HasZombie(ps, cur, n) then WakeOne(p, Proc(init)) else p;
    if i < n then Handed(q, cur, init) else q
  }

  ghost function Scanned(ps: Table, cur: nat, init: nat, n: nat): (r: Table)
    requires cur < |ps| && n <= |ps|
    ensures |r| == |ps|
  {
    seq(|ps|, i requires 0 <= i < |ps| => ExitAt(ps, cur, init, n, i))
  }

  // exit() of process cur.
  ghost function Exited(ps: Table, cur: nat, init: nat): (r: Table)
    requires cur < |ps|
    ensures |r| == |ps|
  {
    var r := Scanned(ps, cur, init, |ps|);
    r[cur := r[cur].(state := ZOMBIE)]
  }

  // One turn of exit()'s loop.
  lemma ScanStep(ps: Table, cur: nat, init: nat, i: nat)
    requires cur < |ps| && i < |ps|
    ensures var r := Scanned(ps, cur, init, i); var q := r[i].(parent := Some(init));
      Scanned(ps, cur, init, i + 1) ==
        if r[i].parent != Some(cur) then r
        else if r[i].state == ZOMBIE then Woken(r[i := q], Proc(init)) else r[i := q]
  {
    assert HasZombie(ps, cur, i + 1) <==> HasZombie(ps, cur, i) || ZombieOf(ps[i], cur);
    var r, r' := Scanned(ps, cur, init, i), Scanned(ps, cur, init, i + 1);
    assert r[i] == ExitAt(ps, cur, init, i, i);
    var w := if r[i].parent != Some(cur) then r
      else if r[i].state == ZOMBIE then Woken(r[i := r[i].(parent := Some(init))], Proc(init)) else r[i := r[i].(parent := Some(init))];
    forall k: nat | k < |ps| ensures r'[k] == w[k] {
      assert r[k] == ExitAt(ps, cur, init, i, k) && r'[k] == ExitAt(ps, cur, init, i + 1, k);
    }
  }

  lemma ExitedSlot(ps: Table, init: nat, next: nat, h: History, cur: nat, i: nat)
    requires Inv(ps, init, next, h) && cur < |ps| && cur != init && ps[cur].state == RUNNING && ps[cur].at == User && i < |ps|
    ensures SlotOk(Exited(ps, cur, init), init, next, h.(exited := h.exited + {ps[cur].pid}), i)
  {
    var r := Exited(ps, cur, init);
    assert SlotOk(ps, init, next, h, cur) && SlotOk(ps, init, next, h, i) && PairOk(ps, i, cur);
    ExitedAt(ps, cur, init, i);
    if ps[i].parent.Some? {
      ExitedAt(ps, cur, init, ps[i].parent.value);
    }
    ExitedAt(ps, cur, init, init);
    if ps[i].at.Forking? {
      assert SlotOk(ps, init, next, h, ps[i].at.child);
      ExitedAt(ps, cur, init, ps[i].at.child);
    }
  }

  lemma ExitedAt(ps: Table, cur: nat, init: nat, i: nat)
    requires cur < |ps| && i < |ps|
    ensures var p, q := ps[i], Exited(ps, cur, init)[i]; q.pid == p.pid && q.at == p.at && q.chan == p.chan
    ensures Exited(ps, cur, init)[i].parent == if ps[i].parent == Some(cur) then Some(init) else ps[i].parent
    ensures var p, q := ps[i], Exited(ps, cur, init)[i];
      if i == cur then q.state == ZOMBIE else q.state == p.state || (p.state == SLEEPING && q.state == RUNNABLE)
  {
  }

  // exit() of a process with a parent, slot by slot: the process is a zombie, the
  // parent is woken from wait(), the children are init's, and init is woken from
  // wait() exactly if one of the children is a zombie.
  lemma ExitedSlots(ps: Table, cur: nat, init: nat, i: nat)
    requires cur < |ps| && i < |ps| && ps[cur].parent.Some? && ps[cur].state == RUNNING
    ensures
      var woken := ps[i].state == SLEEPING
        && (|| ps[i].chan == Proc(ps[cur].parent.value)
            || (ps[i].chan == Proc(init) && exists k: nat :: k < |ps| && ps[k].state == ZOMBIE && ps[k].parent == Some(cur)));
      Exited(ps, cur, init)[i] == ps[i].(
        state := if i == cur then ZOMBIE else if woken then RUNNABLE else ps[i].state,
        parent := if ps[i].parent == Some(cur) then Some(init) else ps[i].parent)
  {
    assert HasZombie(ps, cur, |ps|) <==> exists k: nat :: k < |ps| && ps[k].state == ZOMBIE && ps[k].parent == Some(cur);
  }

  lemma ExitedPair(ps: Table, init: nat, next: nat, h: History, cur: nat, i: nat, k: nat)
    requires Inv(ps, init, next, h) && cur < |ps| && cur != init && ps[cur].state == RUNNING && ps[cur].at == User
    requires i < |ps| && k < |ps|
    ensures PairOk(Exited(ps, cur, init), i, k)
  {
    var r, n := Exited(ps, cur, init), |ps|;
    assert PairOk(ps, i, k) && PairOk(ps, cur, k) && PairOk(ps, i, cur) && SlotOk(ps, init, next, h, init);
    assert SlotOk(ps, init, next, h, i) && SlotOk(ps, init, next, h, k) && SlotOk(ps, init, next, h, cur);
    if ps[k].parent == Some(cur) && k != cur {
      assert r[k].parent == Some(init) && (ps[k].state == ZOMBIE ==> HasZombie(ps, cur, n));
    } else {
      assert r[k].parent == ps[k].parent;
    }
  }

  lemma ExitedInv(ps: Table, init: nat, next: nat, h: History, cur: nat)
    requires Inv(ps, init, next, h) && cur < |ps| && cur != init && ps[cur].state == RUNNING && ps[cur].at == User
    ensures Inv(Exited(ps, cur, init), init, next, h.(exited := h.exited + {ps[cur].pid}))
  {
    var r, h' := Exited(ps, cur, init), h.(exited := h.exited + {ps[cur].pid});
    assert SlotOk(ps, init, next, h, cur);
    forall i: nat | i < |r| ensures SlotOk(r, init, next, h', i) {
      ExitedSlot(ps, init, next, h, cur, i);
    }
    forall i: nat, k: nat | i < |r| && k < |r| ensures PairOk(r, i, k) {
      ExitedPair(ps, init, next, h, cur, i, k);
    }
    forall x | x in h.reaped ensures ReapOk(h', r[init].pid, x) {
      assert ReapOk(h, ps[init].pid, x);
    }
  }

  // One slot changes in a way that its pid, its parent and its being alive do not.
  lemma StepInv(ps: Table, init: nat, next: nat, h: History, i: nat, p: Proc)
    requires Inv(ps, init, next, h) && i < |ps|
    requires p.pid == ps[i].pid && p.parent == ps[i].parent && (Alive(p) <==> Alive(ps[i]))
    requires Alive(p) || p.state == ps[i].state
    requires Alive(p) && p.at.Forking? ==> p.at == ps[i].at
    requires !Alive(p) ==> p.at == ps[i].at
    requires p.state == SLEEPING && p.chan.Proc? ==> p.chan.p == i && p.at == Waiting && forall k: nat :: k < |ps| ==> !ZombieOf(ps[k], i)
    ensures Inv(ps[i := p], init, next, h)
  {
    var r := ps[i := p];
    assert SlotOk(ps, init, next, h, i);
    forall j: nat | j < |r| ensures SlotOk(r, init, next, h, j) {
      assert SlotOk(ps, init, next, h, j);
    }
    forall j: nat, k: nat | j < |r| && k < |r| ensures PairOk(r, j, k) {
      assert PairOk(ps, j, k);
    }
  }

  // wait(): slot z, a zombie child of cur, becomes free.
  function Freed(p: Proc): (r: Proc) {
    p.(pid := 0, parent := None, killed := false, state := UNUSED)
  }

  lemma ReapInv(ps: Table, init: nat, next: nat, h: History, cur: nat, z: nat)
    requires Inv(ps, init, next, h) && cur < |ps| && z < |ps| && ZombieOf(ps[z], cur)
    ensures Inv(ps[z := Freed(ps[z])], init, next, h.(reaped := h.reaped + [Reap(ps[z].pid, ps[cur].pid)]))
    ensures forall r :: r in h.reaped ==> r.pid != ps[z].pid
  {
    var r, x := ps[z := Freed(ps[z])], Reap(ps[z].pid, ps[cur].pid);
    var h' := h.(reaped := h.reaped + [x]);
    assert SlotOk(ps, init, next, h, z) && PairOk(ps, cur, z);
    forall j: nat | j < |r| ensures SlotOk(r, init, next, h', j) {
      assert SlotOk(ps, init, next, h, j) && PairOk(ps, z, j);
    }
    forall j: nat, k: nat | j < |r| && k < |r| ensures PairOk(r, j, k) {
      assert PairOk(ps, j, k);
    }
    forall y | y in h'.reaped ensures ReapOk(h', r[init].pid, y) {
      assert y in h.reaped ==> ReapOk(h, ps[init].pid, y);
    }
    forall j: nat, y | j < |r| && r[j].state != UNUSED && y in h'.reaped ensures r[j].pid != y.pid {
      assert PairOk(ps, j, z);
    }
  }

  // ----- the sections of fork() -----

  // allocproc(): slot i becomes an embryo with a new pid.  Whether it is killed
  // is as the slot's last use left it.
  function Embryo(p: Proc, pid: nat): (r: Proc) {
    p.(state := EMBRYO, pid := pid, prio := 500)
  }

  function AllocStep(ps: Table, cur: nat, i: nat, pid: nat): (r: Table)
    requires cur < |ps| && i < |ps|
  {
    ps[i := Embryo(ps[i], pid)][cur := ps[cur].(at := Forking(i))]
  }

  lemma AllocInv(ps: Table, init: nat, next: nat, h: History, cur: nat, i: nat)
    requires Inv(ps, init, next, h) && cur < |ps| && i < |ps| && ps[cur].state == RUNNING && ps[cur].at == User
    requires ps[i].state == UNUSED
    ensures Inv(AllocStep(ps, cur, i, next), init, next + 1, h)
  {
    var r, next' := AllocStep(ps, cur, i, next), next + 1;
    assert SlotOk(ps, init, next, h, i);
    forall j: nat | j < |r| ensures SlotOk(r, init, next', h, j) {
      assert SlotOk(ps, init, next, h, j) && PairOk(ps, i, j);
    }
    forall j: nat, k: nat | j < |r| && k < |r| ensures PairOk(r, j, k) {
      assert PairOk(ps, j, k) && SlotOk(ps, init, next, h, j) && SlotOk(ps, init, next, h, k);
    }
    forall x | x in h.reaped ensures ReapOk(h, r[init].pid, x) && x.pid < next {
      assert ReapOk(h, ps[init].pid, x);
    }
  }

  // fork() without memory: the embryo's slot is free again.
  function FailStep(ps: Table, cur: nat, i: nat): (r: Table)
    requires cur < |ps| && i < |ps|
  {
    ps[i := ps[i].(state := UNUSED)][cur := ps[cur].(at := User)]
  }

  lemma FailInv(ps: Table, init: nat, next: nat, h: History, cur: nat)
    requires Inv(ps, init, next, h) && cur < |ps| && ps[cur].state == RUNNING && ps[cur].at.Forking?
    requires ps[cur].at.child < |ps| ==> ps[ps[cur].at.child].parent == None
    ensures ps[cur].at.child < |ps| && Inv(FailStep(ps, cur, ps[cur].at.child), init, next, h)
  {
    assert SlotOk(ps, init, next, h, cur);
    var i := ps[cur].at.child;
    var r := FailStep(ps, cur, i);
    forall j: nat | j < |r| ensures SlotOk(r, init, next, h, j) {
      assert SlotOk(ps, init, next, h, j) && PairOk(ps, i, j) && PairOk(ps, cur, j);
    }
    forall j: nat, k: nat | j < |r| && k < |r| ensures PairOk(r, j, k) {
      assert PairOk(ps, j, k);
    }
  }

  // np->parent = curproc
  function AdoptStep(ps: Table, cur: nat, i: nat): (r: Table)
    requires i < |ps|
  {
    ps[i := ps[i].(parent := Some(cur))]
  }

  lemma AdoptInv(ps: Table, init: nat, next: nat, h: History, cur: nat)
    requires Inv(ps, init, next, h) && cur < |ps| && ps[cur].state == RUNNING && ps[cur].at.Forking?
    requires ps[cur].at.child < |ps| ==> ps[ps[cur].at.child].parent == None
    ensures ps[cur].at.child < |ps|
    ensures var i := ps[cur].at.child; Inv(AdoptStep(ps, cur, i), init, next, h.(born := h.born[ps[i].pid := ps[cur].pid]))
  {
    assert SlotOk(ps, init, next, h, cur);
    var i := ps[cur].at.child;
    var r, h' := AdoptStep(ps, cur, i), h.(born := h.born[ps[i].pid := ps[cur].pid]);
    assert SlotOk(ps, init, next, h, i);
    forall j: nat | j < |r| ensures SlotOk(r, init, next, h', j) {
      assert SlotOk(ps, init, next, h, j) && PairOk(ps, i, j) && PairOk(ps, cur, j);
    }
    forall j: nat, k: nat | j < |r| && k < |r| ensures PairOk(r, j, k) {
      assert PairOk(ps, j, k);
    }
    forall x | x in h.reaped ensures ReapOk(h', r[init].pid, x) {
      assert ReapOk(h, ps[init].pid, x);
    }
  }

  // np->state = RUNNABLE, and fork() returns.
  function StartStep(ps: Table, cur: nat, i: nat): (r: Table)
    requires cur < |ps| && i < |ps|
  {
    ps[i := ps[i].(state := RUNNABLE)][cur := ps[cur].(at := User)]
  }

  lemma StartInv(ps: Table, init: nat, next: nat, h: History, cur: nat)
    requires Inv(ps, init, next, h) && cur < |ps| && ps[cur].state == RUNNING && ps[cur].at.Forking?
    requires ps[cur].at.child < |ps| ==> ps[ps[cur].at.child].parent.Some?
    ensures ps[cur].at.child < |ps| && Inv(StartStep(ps, cur, ps[cur].at.child), init, next, h)
  {
    assert SlotOk(ps, init, next, h, cur);
    var i := ps[cur].at.child;
    var r := StartStep(ps, cur, i);
    forall j: nat | j < |r| ensures SlotOk(r, init, next, h, j) {
      assert SlotOk(ps, init, next, h, j) && PairOk(ps, i, j) && PairOk(ps, cur, j);
    }
    forall j: nat, k: nat | j < |r| && k < |r| ensures PairOk(r, j, k) {
      assert PairOk(ps, j, k);
    }
  }

  // ----- kill() -----

  function KillOne(p: Proc): (r: Proc) {
    p.(killed := true, state := if p.state == SLEEPING then RUNNABLE else p.state)
  }

  // kill() from slot i on.
  function KilledFrom(ps: Table, pid: nat, i: nat): (r: (Table, int))
    requires i <= |ps|
    decreases |ps| - i
  {
    if i == |ps| then (ps, -1)
    else if ps[i].pid == pid then (ps[i := KillOne(ps[i])], 0)
    else KilledFrom(ps, pid, i + 1)
  }

  function Killed(ps: Table, pid: nat): (r: (Table, int)) { KilledFrom(ps, pid, 0) }

  // kill() succeeds exactly if some slot has the pid, and marks one such slot.
  lemma {:induction false} KilledOne(ps: Table, pid: nat, i: nat)
    requires i <= |ps|
    ensures KilledFrom(ps, pid, i).1 == 0 <==> exists k: nat :: i <= k < |ps| && ps[k].pid == pid
    ensures KilledFrom(ps, pid, i).1 == 0 ==> exists k: nat :: i <= k < |ps| && ps[k].pid == pid && KilledFrom(ps, pid, i).0 == ps[k := KillOne(ps[k])]
    ensures KilledFrom(ps, pid, i).1 != 0 ==> KilledFrom(ps, pid, i) == (ps, -1)
    decreases |ps| - i
  {
    if i < |ps| && ps[i].pid != pid {
      KilledOne(ps, pid, i + 1);
    }
  }

  // No free slot is marked killed, so that a new process is not born killed.
  ghost predicate Clean(ps: Table) {
    forall i: nat :: i < |ps| && ps[i].state == UNUSED ==> !ps[i].killed
  }

  // The slot that kill() marks: the first with the pid.
  ghost predicate First(ps: Table, pid: nat, k: nat) {
    k < |ps| && ps[k].pid == pid && forall j: nat :: j < k ==> ps[j].pid != pid
  }

  lemma {:induction false} KilledFirst(ps: Table, pid: nat, i: nat, k: nat)
    requires i <= k && First(ps, pid, k)
    ensures KilledFrom(ps, pid, i) == (ps[k := KillOne(ps[k])], 0)
    decreases k - i
  {
    if i < k {
      KilledFirst(ps, pid, i + 1, k);
    }
  }

  // kill() keeps free slots clean exactly if the slot it finds is in use: it does
  // not look at the state, and a free slot keeps the pid 0, or that of a fork()
  // that failed.
  lemma KillClean(ps: Table, pid: nat, k: nat)
    requires Clean(ps) && First(ps, pid, k)
    ensures Clean(Killed(ps, pid).0) <==> ps[k].state != UNUSED
  {
    KilledFirst(ps, pid, 0, k);
    var r := Killed(ps, pid).0;
    if ps[k].state == UNUSED {
      assert r[k].state == UNUSED && r[k].killed;
    }
  }

  // A process with the pid is the one that is marked.
  lemma KillMarks(ps: Table, init: nat, next: nat, h: History, pid: nat, k: nat)
    requires Inv(ps, init, next, h) && k < |ps| && ps[k].state != UNUSED && ps[k].pid == pid
    ensures Killed(ps, pid) == (ps[k := KillOne(ps[k])], 0)
  {
    assert SlotOk(ps, init, next, h, k);
    forall j: nat | j < k ensures ps[j].pid != pid {
      assert PairOk(ps, k, j);
    }
    KilledFirst(ps, pid, 0, k);
  }

  // kill(0) with only the first process and a free slot: it succeeds, and the
  // next process of fork() is born killed.
  lemma KillZero()
    ensures var free := P(UNUSED, 0, None, Nothing, false, 0, User);
      var ps := [free.(state := RUNNING, pid := 1), free];
      var r := Killed(ps, 0);
      r.1 == 0 && |r.0| == 2 && AllocStep(r.0, 0, 1, 2)[1].killed
  {
    var free := P(UNUSED, 0, None, Nothing, false, 0, User);
    var ps := [free.(state := RUNNING, pid := 1), free];
    KilledFirst(ps, 0, 0, 1);
  }

  // ----- which processes are born killed -----

  // A section under ptable.lock.  Change is any that changes one slot in use but
  // not its being killed: sleep(), yield(), dispatch, and wait() without a zombie.
  datatype Section = Alloc(cur: nat, i: nat, pid: nat) | Fail(cur: nat) | Adopt(cur: nat) | Start(cur: nat)
    | Exit(cur: nat) | Free(cur: nat, z: nat) | Change(i: nat, p: Proc) | Wake(c: Chan) | Kill(pid: nat)

  // The embryo of the forking process cur.
  ghost predicate Forks(ps: Table, cur: nat, i: nat) {
    cur < |ps| && i < |ps| && cur != i && ps[cur].at == Forking(i) && ps[i].state == EMBRYO
  }

  ghost predicate Moves(ps: Table, init: nat, s: Section, ps': Table) {
    match s
    case Alloc(cur, i, pid) => cur < |ps| && i < |ps| && cur != i && ps[i].state == UNUSED && ps' == AllocStep(ps, cur, i, pid)
    case Fail(cur) => exists i: nat :: Forks(ps, cur, i) && ps' == FailStep(ps, cur, i)
    case Adopt(cur) => exists i: nat :: Forks(ps, cur, i) && ps' == AdoptStep(ps, cur, i)
    case Start(cur) => exists i: nat :: Forks(ps, cur, i) && ps' == StartStep(ps, cur, i)
    case Exit(cur) => cur < |ps| && ps[cur].state == RUNNING && ps' == Exited(ps, cur, init)
    case Free(cur, z) => cur < |ps| && z < |ps| && cur != z && ps[z].state == ZOMBIE
      && ps' == ps[z := Freed(ps[z])][cur := ps[cur].(at := User)]
    case Change(i, p) => i < |ps| && ps[i].state != UNUSED && p.state != UNUSED && p.killed == ps[i].killed && ps' == ps[i := p]
    case Wake(c) => ps' == Woken(ps, c)
    case Kill(pid) => ps' == Killed(ps, pid).0
  }

  // The section leaves a free slot marked: kill() finds a free slot, or fork()
  // fails after kill() has found its embryo.
  ghost predicate Marks(ps: Table, s: Section) {
    match s
    case Kill(pid) => exists k: nat :: First(ps, pid, k) && ps[k].state == UNUSED
    case Fail(cur) => exists i: nat :: Forks(ps, cur, i) && ps[i].killed
    case _ => false
  }

  // A failed fork() leaves its slot clean exactly if nobody has killed the embryo.
  lemma FailClean(ps: Table, cur: nat, i: nat)
    requires Clean(ps) && Forks(ps, cur, i)
    ensures Clean(FailStep(ps, cur, i)) <==> !ps[i].killed
  {
    var r := FailStep(ps, cur, i);
    assert r[i].state == UNUSED && r[i].killed == ps[i].killed;
  }

  // Every section keeps free slots clean, but for exactly those two.
  lemma SectionClean(ps: Table, init: nat, s: Section, ps': Table)
    requires Clean(ps) && Moves(ps, init, s, ps')
    ensures Clean(ps') <==> !Marks(ps, s)
  {
    match s {
      case Kill(pid) =>
        KilledOne(ps, pid, 0);
        if k: nat :| First(ps, pid, k) {
          KillClean(ps, pid, k);
        } else {
          NoneFirst(ps, pid, |ps|);
        }
      case Fail(cur) =>
        var i: nat :| Forks(ps, cur, i) && ps' == FailStep(ps, cur, i);
        FailClean(ps, cur, i);
      case Exit(cur) =>
        forall k: nat | k < |ps| ensures ps'[k].state == UNUSED ==> !ps'[k].killed {
          ExitedFlags(ps, cur, init, k);
        }
      case _ =>
    }
  }

  lemma {:induction false} NoneFirst(ps: Table, pid: nat, n: nat)
    requires n <= |ps| && forall k: nat :: !First(ps, pid, k)
    ensures forall k: nat :: k < n ==> ps[k].pid != pid
  {
    if n > 0 {
      NoneFirst(ps, pid, n - 1);
      assert !First(ps, pid, n - 1);
    }
  }

  lemma ExitedFlags(ps: Table, cur: nat, init: nat, k: nat)
    requires cur < |ps| && k < |ps| && ps[cur].state == RUNNING
    ensures Exited(ps, cur, init)[k].killed == ps[k].killed
    ensures Exited(ps, cur, init)[k].state == UNUSED <==> ps[k].state == UNUSED
  {
  }

  ghost predicate IsRun(tables: seq<Table>, init: nat, ss: seq<Section>) {
    |tables| == |ss| + 1 && forall k: nat :: k < |ss| ==> MovesAt(tables, init, ss, k)
  }

  ghost predicate MovesAt(tables: seq<Table>, init: nat, ss: seq<Section>, k: nat)
    requires k < |ss| && |tables| == |ss| + 1
  {
    Moves(tables[k], init, ss[k], tables[k + 1])
  }

  // How a section can change the state of slot i.
  lemma StateStep(ps: Table, init: nat, s: Section, ps': Table, i: nat)
    requires Moves(ps, init, s, ps') && i < |ps|
    ensures |ps'| == |ps|
    ensures ps'[i].state == ps[i].state
      || (s.Alloc? && s.i == i && ps[i].state == UNUSED && ps'[i].state == EMBRYO)
      || (s.Fail? && ps[s.cur].at == Forking(i) && ps[i].state == EMBRYO && ps'[i].state == UNUSED)
      || (s.Start? && ps[s.cur].at == Forking(i) && ps[i].state == EMBRYO && ps'[i].state == RUNNABLE)
      || (s.Exit? && s.cur == i && ps[i].state == RUNNING && ps'[i].state == ZOMBIE)
      || (s.Free? && s.z == i && ps[i].state == ZOMBIE && ps'[i].state == UNUSED)
      || ((s.Exit? || s.Wake? || s.Kill?) && ps[i].state == SLEEPING && ps'[i].state == RUNNABLE)
      || (s.Change? && s.i == i && ps[i].state != UNUSED && ps'[i].state != UNUSED)
    // and those that have to
    ensures s.Alloc? && s.i == i ==> ps'[i].state == EMBRYO
    ensures s.Fail? && ps[s.cur].at == Forking(i) ==> ps'[i].state == UNUSED
    ensures s.Start? && ps[s.cur].at == Forking(i) ==> ps[i].state == EMBRYO && ps'[i].state == RUNNABLE
    ensures s.Exit? && s.cur == i ==> ps'[i].state == ZOMBIE
    ensures s.Free? && s.z == i ==> ps'[i].state == UNUSED
  {
    match s {
      case Kill(pid) => KilledOne(ps, pid, 0);
      case Exit(cur) => ExitedState(ps, cur, init, i);
      case _ =>
    }
  }

  lemma ExitedState(ps: Table, cur: nat, init: nat, i: nat)
    requires cur < |ps| && i < |ps| && ps[cur].state == RUNNING
    ensures var p, q := ps[i], Exited(ps, cur, init)[i];
      q.pid == p.pid && if i == cur then q.state == ZOMBIE else q.state == p.state || (p.state == SLEEPING && q.state == RUNNABLE)
  {
    ExitedAt(ps, cur, init, i);
  }

  // In every run a child that fork() has started is runnable until a section
  // dispatches it, and it keeps its pid.
  lemma {:induction false} StartedRuns(tables: seq<Table>, init: nat, ss: seq<Section>, cur: nat, i: nat, m: nat, n: nat)
    requires IsRun(tables, init, ss) && m < n <= |ss| && ss[m] == Start(cur)
    requires cur < |tables[m]| && tables[m][cur].at == Forking(i)
    requires forall k: nat :: m < k < n ==> !(ss[k].Change? && ss[k].i == i)
    ensures i < |tables[m]| == |tables[n]| && tables[n][i].state == RUNNABLE && tables[n][i].pid == tables[m][i].pid
  {
    assert MovesAt(tables, init, ss, n - 1);
    if n == m + 1 {
      StateStep(tables[m], init, ss[m], tables[n], i);
    } else {
      StartedRuns(tables, init, ss, cur, i, m, n - 1);
      StateStep(tables[n - 1], init, ss[n - 1], tables[n], i);
      PidStep(tables[n - 1], init, ss[n - 1], tables[n], i);
    }
  }

  lemma PidStep(ps: Table, init: nat, s: Section, ps': Table, i: nat)
    requires Moves(ps, init, s, ps') && i < |ps| == |ps'| && ps[i].state == RUNNABLE && !(s.Change? && s.i == i)
    ensures ps'[i].pid == ps[i].pid
  {
    match s {
      case Kill(pid) => KilledOne(ps, pid, 0);
      case Exit(cur) => ExitedState(ps, cur, init, i);
      case _ =>
    }
  }

  // Free slots are clean throughout a run exactly if no section of it marks one.
  lemma {:induction false} RunClean(tables: seq<Table>, init: nat, ss: seq<Section>, n: nat)
    requires IsRun(tables, init, ss) && Clean(tables[0]) && n <= |ss|
    ensures (forall k: nat :: k <= n ==> Clean(tables[k])) <==> forall k: nat :: k < n ==> !Marks(tables[k], ss[k])
  {
    if n > 0 {
      RunClean(tables, init, ss, n - 1);
      assert MovesAt(tables, init, ss, n - 1);
      if Clean(tables[n - 1]) {
        SectionClean(tables[n - 1], init, ss[n - 1], tables[n]);
      }
    }
  }

  // Section k marks slot i, and no later one before n reaps it.
  ghost predicate LastMarked(tables: seq<Table>, ss: seq<Section>, i: nat, k: nat, n: nat)
    requires |tables| == |ss| + 1 && n <= |ss|
  {
    && k < n && ss[k].Kill? && First(tables[k], ss[k].pid, i)
    && forall m: nat :: k < m < n ==> !(ss[m].Free? && ss[m].z == i)
  }

  ghost predicate Marked(tables: seq<Table>, ss: seq<Section>, i: nat, n: nat)
    requires |tables| == |ss| + 1 && n <= |ss|
  {
    exists k: nat :: LastMarked(tables, ss, i, k, n)
  }

  // In every run a slot is marked exactly if kill() has found it since wait() last
  // freed it, whatever the slot then held.
  lemma {:induction false} MarkedIff(tables: seq<Table>, init: nat, ss: seq<Section>, i: nat, n: nat)
    requires IsRun(tables, init, ss) && n <= |ss| && i < |tables[0]| && !tables[0][i].killed
    ensures |tables[n]| == |tables[0]|
    ensures tables[n][i].killed <==> Marked(tables, ss, i, n)
  {
    if n > 0 {
      MarkedIff(tables, init, ss, i, n - 1);
      assert MovesAt(tables, init, ss, n - 1);
      FlagStep(tables[n - 1], init, ss[n - 1], tables[n], i);
      LastStep(tables, ss, i, n - 1, n);
    }
  }

  // So exactly then the process that fork() puts there is born killed.
  lemma BornKilledIff(tables: seq<Table>, init: nat, ss: seq<Section>, i: nat, n: nat)
    requires IsRun(tables, init, ss) && n < |ss| && i < |tables[0]| && !tables[0][i].killed
    requires ss[n].Alloc? && ss[n].i == i
    ensures |tables[n + 1]| == |tables[0]| && tables[n + 1][i].state == EMBRYO && tables[n + 1][i].pid == ss[n].pid
    ensures tables[n + 1][i].killed <==> Marked(tables, ss, i, n)
  {
    MarkedIff(tables, init, ss, i, n);
    assert MovesAt(tables, init, ss, n);
  }

  lemma LastStep(tables: seq<Table>, ss: seq<Section>, i: nat, m: nat, n: nat)
    requires |tables| == |ss| + 1 && n <= |ss| && n == m + 1
    ensures var s, hit := ss[m], ss[m].Kill? && First(tables[m], ss[m].pid, i);
      Marked(tables, ss, i, n) <==> hit || (!(s.Free? && s.z == i) && Marked(tables, ss, i, m))
  {
    var s, hit := ss[m], ss[m].Kill? && First(tables[m], ss[m].pid, i);
    if k: nat :| LastMarked(tables, ss, i, k, n) {
      assert k < m ==> LastMarked(tables, ss, i, k, m);
    }
    if hit {
      assert LastMarked(tables, ss, i, m, n);
    } else if !(s.Free? && s.z == i) {
      if k: nat :| LastMarked(tables, ss, i, k, m) {
        assert LastMarked(tables, ss, i, k, n);
      }
    }
  }

  // Only kill() of the slot sets its flag, and only wait() for it clears it.
  lemma FlagStep(ps: Table, init: nat, s: Section, ps': Table, i: nat)
    requires Moves(ps, init, s, ps') && i < |ps|
    ensures |ps'| == |ps|
    ensures ps'[i].killed <==>
      (s.Kill? && First(ps, s.pid, i)) || (!(s.Free? && s.z == i) && ps[i].killed)
  {
    match s {
      case Kill(pid) =>
        KilledOne(ps, pid, 0);
        if k: nat :| First(ps, pid, k) {
          KilledFirst(ps, pid, 0, k);
        } else {
          NoneFirst(ps, pid, |ps|);
        }
      case Exit(cur) => ExitedFlags(ps, cur, init, i);
      case _ =>
    }
  }

  // ----- the process table -----

  // How a scan of wait() ends.
  datatype Outcome = Reaped(pid: nat) | Failed | Asleep

  class Ptable {
    const init: nat
    var ps: Table
    var nextpid: nat
    ghost var h: History

    ghost predicate Valid()
      reads this
    {
      Inv(ps, init, nextpid, h)
    }

    // userinit(): the first process, in a table of n slots.
    constructor (n: nat)
      requires 0 < n
      ensures Valid() && |ps| == n && init == 0 && nextpid == 2
      ensures ps[0].state == RUNNABLE && ps[0].at == User && ps[0].pid == 1
      ensures (forall i :: 0 < i < n ==> ps[i].state == UNUSED) && (forall i :: 0 <= i < n ==> ps[i].parent == None) && Clean(ps)
    {
      init, nextpid, h := 0, 2, History(map[], {}, []);
      var free := P(UNUSED, 0, None, Nothing, false, 0, User);
      ps := seq(n, i => if i == 0 then free.(state := RUNNABLE, pid := 1, prio := 500) else free);
    }

    // The process of slot i runs and may make a system call.
    ghost predicate Runs(i: nat)
      reads this
    {
      i < |ps| && ps[i].state == RUNNING
    }

    // allocproc() in fork(): the first free slot, or none.
    method Allocproc(cur: nat) returns (ok: bool, i: nat)
      requires Valid() && Runs(cur) && ps[cur].at == User
      modifies this
      ensures Valid() && h == old(h)
      ensures ok <==> exists k: nat :: k < |old(ps)| && old(ps)[k].state == UNUSED
      ensures ok ==> i < |old(ps)| && old(ps)[i].state == UNUSED && forall k: nat :: k < i ==> old(ps)[k].state != UNUSED
      ensures ok ==> ps == AllocStep(old(ps), cur, i, old(nextpid)) && nextpid == old(nextpid) + 1
      ensures ok ==> |ps| == |old(ps)| && i != cur && ps[i] == old(ps)[i].(state := EMBRYO, pid := old(nextpid), prio := 500)
      ensures ok ==> ps[cur] == old(ps)[cur].(at := Forking(i))
      ensures ok ==> forall k: nat :: k < |ps| && k != i && k != cur ==> ps[k] == old(ps)[k]
      ensures !ok ==> ps == old(ps) && nextpid == old(nextpid)
      ensures ok ==> Moves(old(ps), init, Alloc(cur, i, old(nextpid)), ps)
    {
      i := 0;
      while i < |ps| && ps[i].state != UNUSED
        invariant i <= |ps| && forall k: nat :: k < i ==> ps[k].state != UNUSED
        modifies {}
      {
        i := i + 1;
      }
      if i == |ps| {
        return false, i;
      }
      AllocInv(ps, init, nextpid, h, cur, i);
      ps := ps[i := ps[i].(state := EMBRYO)];
      ps := ps[i := ps[i].(pid := nextpid, prio := 500)];
      ps := ps[cur := ps[cur].(at := Forking(i))];
      nextpid := nextpid + 1;
      ok := true;
      assert ps == AllocStep(old(ps), cur, i, old(nextpid));
    }

    // fork() when there is no memory for the kernel stack or the address space.
    method ForkFails(cur: nat)
      requires Valid() && Runs(cur) && ps[cur].at.Forking?
      requires ps[cur].at.child < |ps| ==> ps[ps[cur].at.child].parent == None
      modifies this`ps
      ensures Valid() && old(ps)[cur].at.child < |old(ps)| && ps == FailStep(old(ps), cur, old(ps)[cur].at.child)
      ensures var i := old(ps)[cur].at.child;
              |ps| == |old(ps)| && i != cur && ps[i] == old(ps)[i].(state := UNUSED)
              && ps[cur] == old(ps)[cur].(at := User)
              && forall k: nat :: k < |ps| && k != i && k != cur ==> ps[k] == old(ps)[k]
      ensures Moves(old(ps), init, Fail(cur), ps)
    {
      FailInv(ps, init, nextpid, h, cur);
      assert SlotOk(ps, init, nextpid, h, cur);
      var i := ps[cur].at.child;
      ps := ps[i := ps[i].(state := UNUSED)];
      ps := ps[cur := ps[cur].(at := User)];
    }

    // fork() sets the parent of the embryo.
    method ForkAdopts(cur: nat)
      requires Valid() && Runs(cur) && ps[cur].at.Forking?
      requires ps[cur].at.child < |ps| ==> ps[ps[cur].at.child].parent == None
      modifies this`ps, this`h
      ensures Valid() && old(ps)[cur].at.child < |old(ps)| && ps == AdoptStep(old(ps), cur, old(ps)[cur].at.child)
      ensures var i := old(ps)[cur].at.child;
              |ps| == |old(ps)| && i != cur && ps[i] == old(ps)[i].(parent := Some(cur))
              && forall k: nat :: k < |ps| && k != i ==> ps[k] == old(ps)[k]
      ensures ps[cur] == old(ps)[cur] && h == old(h).(born := old(h).born[ps[ps[cur].at.child].pid := ps[cur].pid])
      ensures Moves(old(ps), init, Adopt(cur), ps)
    {
      AdoptInv(ps, init, nextpid, h, cur);
      assert SlotOk(ps, init, nextpid, h, cur);
      var i := ps[cur].at.child;
      h := h.(born := h.born[ps[i].pid := ps[cur].pid]);
      ps := ps[i := ps[i].(parent := Some(cur))];
    }

    // The end of fork(): the child's pid.
    method ForkEnds(cur: nat) returns (pid: nat)
      requires Valid() && Runs(cur) && ps[cur].at.Forking?
      requires ps[cur].at.child < |ps| ==> ps[ps[cur].at.child].parent.Some?
      modifies this`ps
      ensures Valid() && old(ps)[cur].at.child < |old(ps)| && ps == StartStep(old(ps), cur, old(ps)[cur].at.child)
      ensures var i := old(ps)[cur].at.child;
              |ps| == |old(ps)| && i != cur && ps[i] == old(ps)[i].(state := RUNNABLE)
              && ps[cur] == old(ps)[cur].(at := User)
              && forall k: nat :: k < |ps| && k != i && k != cur ==> ps[k] == old(ps)[k]
      ensures pid == ps[old(ps)[cur].at.child].pid
      ensures Moves(old(ps), init, Start(cur), ps)
    {
      StartInv(ps, init, nextpid, h, cur);
      assert SlotOk(ps, init, nextpid, h, cur);
      var i := ps[cur].at.child;
      pid := ps[i].pid;
      ps := ps[i := ps[i].(state := RUNNABLE)];
      ps := ps[cur := ps[cur].(at := User)];
    }

    // wakeup1(): every process that sleeps on c is runnable.
    method Wakeup1(c: Chan)
      modifies this`ps
      ensures ps == Woken(old(ps), c)
      ensures |ps| == |old(ps)|
      ensures forall k: nat :: k < |ps| ==>
        (ps[k] == if old(ps)[k].state == SLEEPING && old(ps)[k].chan == c then old(ps)[k].(state := RUNNABLE) else old(ps)[k])
    {
      var i := 0;
      while i < |ps|
        invariant i <= |ps| == |old(ps)|
        invariant forall k: nat :: k < |ps| ==> ps[k] == if k < i then WakeOne(old(ps)[k], c) else old(ps)[k]
      {
        if ps[i].state == SLEEPING && ps[i].chan == c {
          ps := ps[i := ps[i].(state := RUNNABLE)];
        }
        i := i + 1;
      }
    }

    // wakeup()
    method Wakeup(c: Chan)
      requires Valid()
      modifies this`ps
      ensures Valid() && ps == Woken(old(ps), c)
      ensures Moves(old(ps), init, Wake(c), ps)
    {
      WokenInv(ps, init, nextpid, h, c);
      Wakeup1(c);
    }

    // exit(): the parent is woken and the children are init's; init is woken
    // exactly if one of them is a zombie.
    method Exit(cur: nat)
      requires Valid() && Runs(cur) && ps[cur].at == User && cur != init
      modifies this`ps, this`h
      ensures Valid() && ps == Exited(old(ps), cur, init) && h == old(h).(exited := old(h).exited + {old(ps)[cur].pid})
      ensures Moves(old(ps), init, Section.Exit(cur), ps) && old(ps)[cur].parent.Some?
    {
      ExitedInv(ps, init, nextpid, h, cur);
      assert SlotOk(ps, init, nextpid, h, cur);
      Wakeup1(if ps[cur].parent.Some? then Proc(ps[cur].parent.value) else Nothing);
      HandChildren(cur, old(ps));
      h := h.(exited := h.exited + {ps[cur].pid});
      ps := ps[cur := ps[cur].(state := ZOMBIE)];
    }

    // The loop of exit().
    method HandChildren(cur: nat, ghost ps0: Table)
      requires cur < |ps0| && ps == Woken(ps0, ParentChan(ps0[cur]))
      modifies this`ps
      ensures ps == Scanned(ps0, cur, init, |ps0|)
    {
      var i := 0;
      while i < |ps|
        invariant i <= |ps| == |ps0| && ps == Scanned(ps0, cur, init, i)
      {
        ScanStep(ps0, cur, init, i);
        if ps[i].parent == Some(cur) {
          ps := ps[i := ps[i].(parent := Some(init))];
          if ps[i].state == ZOMBIE {
            Wakeup1(Proc(init));
          }
        }
        i := i + 1;
      }
    }

    // A scan of wait(): it reaps the first zombie child; it fails exactly if there
    // is none and no child at all or the process is killed; else it sleeps.
    method Wait(cur: nat) returns (r: Outcome, z: nat)
      requires Valid() && Runs(cur) && !ps[cur].at.Forking?
      modifies this`ps, this`h
      ensures Valid()
      ensures r.Reaped? <==> exists k: nat :: k < |old(ps)| && old(ps)[k].state == ZOMBIE && old(ps)[k].parent == Some(cur)
      ensures r.Reaped? ==> z < |old(ps)| && ZombieOf(old(ps)[z], cur)
      ensures r.Reaped? ==> forall k: nat :: k < z ==> !(old(ps)[k].state == ZOMBIE && old(ps)[k].parent == Some(cur))
      ensures r.Reaped? ==> ps == old(ps)[z := Freed(old(ps)[z])][cur := old(ps)[cur].(at := User)] && r.pid == old(ps)[z].pid
      ensures r.Reaped? ==> z != cur && ps[z] == old(ps)[z].(pid := 0, parent := None, killed := false, state := UNUSED)
      ensures r.Reaped? ==> h == old(h).(reaped := old(h).reaped + [Reap(r.pid, old(ps)[cur].pid)])
      ensures r.Reaped? ==> forall x :: x in old(h).reaped ==> x.pid != r.pid
      ensures r.Failed? ==> (old(ps)[cur].killed || forall k :: 0 <= k < |old(ps)| ==> old(ps)[k].parent != Some(cur))
      ensures r.Failed? ==> ps == old(ps)[cur := old(ps)[cur].(at := User)] && h == old(h)
      ensures r.Asleep? ==> !old(ps)[cur].killed && exists k :: 0 <= k < |old(ps)| && old(ps)[k].parent == Some(cur)
      ensures r.Asleep? ==> ps == old(ps)[cur := old(ps)[cur].(chan := Proc(cur), state := SLEEPING, at := Waiting)] && h == old(h)
      ensures Moves(old(ps), init, if r.Reaped? then Free(cur, z) else Change(cur, ps[cur]), ps)
    {
      var havekids;
      havekids, z := FindZombie(cur);
      if z < |ps| {
        var pid := ps[z].pid;
        ReapSlot(cur, z);
        return Reaped(pid), z;
      }
      if !havekids || ps[cur].killed {
        StepInv(ps, init, nextpid, h, cur, ps[cur].(at := User));
        ps := ps[cur := ps[cur].(at := User)];
        return Failed, z;
      }
      StepInv(ps, init, nextpid, h, cur, ps[cur].(chan := Proc(cur), state := SLEEPING, at := Waiting));
      ps := ps[cur := ps[cur].(chan := Proc(cur), state := SLEEPING, at := Waiting)];
      r := Asleep;
    }

    // The loop of wait(): the first zombie child, or |ps|.
    method FindZombie(cur: nat) returns (havekids: bool, z: nat)
      ensures z <= |ps| && !HasZombie(ps, cur, z) && (z < |ps| ==> ZombieOf(ps[z], cur))
      ensures z == |ps| ==> (havekids <==> exists k :: 0 <= k < |ps| && ps[k].parent == Some(cur))
    {
      havekids, z := false, 0;
      while z < |ps|
        invariant z <= |ps| && !HasZombie(ps, cur, z)
        invariant havekids <==> exists k :: 0 <= k < z && ps[k].parent == Some(cur)
      {
        if ps[z].parent == Some(cur) {
          havekids := true;
          if ps[z].state == ZOMBIE {
            return;
          }
        }
        z := z + 1;
      }
    }

    method ReapSlot(cur: nat, z: nat)
      requires Valid() && Runs(cur) && z < |ps| && ZombieOf(ps[z], cur)
      modifies this`ps, this`h
      ensures Valid() && ps == old(ps)[z := Freed(old(ps)[z])][cur := old(ps)[cur].(at := User)]
      ensures h == old(h).(reaped := old(h).reaped + [Reap(old(ps)[z].pid, old(ps)[cur].pid)])
      ensures forall x :: x in old(h).reaped ==> x.pid != old(ps)[z].pid
    {
      ReapInv(ps, init, nextpid, h, cur, z);
      h := h.(reaped := h.reaped + [Reap(ps[z].pid, ps[cur].pid)]);
      ps := ps[z := ps[z].(pid := 0, parent := None, killed := false, state := UNUSED)];
      StepInv(ps, init, nextpid, h, cur, ps[cur].(at := User));
      ps := ps[cur := ps[cur].(at := User)];
    }

    // sleep() on anything but a process, from any system call.
    method Sleep(cur: nat, c: nat)
      requires Valid() && Runs(cur)
      modifies this`ps
      ensures Valid() && ps == old(ps)[cur := old(ps)[cur].(chan := Other(c), state := SLEEPING)]
      ensures Moves(old(ps), init, Change(cur, ps[cur]), ps)
    {
      StepInv(ps, init, nextpid, h, cur, ps[cur].(chan := Other(c), state := SLEEPING));
      ps := ps[cur := ps[cur].(chan := Other(c), state := SLEEPING)];
    }

    // yield()
    method Yield(cur: nat)
      requires Valid() && Runs(cur)
      modifies this`ps
      ensures Valid() && ps == old(ps)[cur := old(ps)[cur].(state := RUNNABLE)]
      ensures Moves(old(ps), init, Change(cur, ps[cur]), ps)
    {
      StepInv(ps, init, nextpid, h, cur, ps[cur].(state := RUNNABLE));
      ps := ps[cur := ps[cur].(state := RUNNABLE)];
    }

    // scheduler() switches to a process, which leaves sleep() if it was in it.
    method Dispatch(i: nat)
      requires Valid() && i < |ps| && ps[i].state == RUNNABLE
      modifies this`ps
      ensures Valid() && ps == old(ps)[i := old(ps)[i].(state := RUNNING, chan := Nothing)]
      ensures Moves(old(ps), init, Change(i, ps[i]), ps)
    {
      StepInv(ps, init, nextpid, h, i, ps[i].(state := RUNNING, chan := Nothing));
      ps := ps[i := ps[i].(state := RUNNING, chan := Nothing)];
    }

    // kill(): the first slot with this pid, whatever its state.
    method Kill(pid: nat) returns (r: int)
      requires Valid()
      modifies this`ps
      ensures Valid() && ps == Killed(old(ps), pid).0 && r == Killed(old(ps), pid).1
      ensures r == 0 || r == -1
      ensures r == -1 <==> forall k: nat :: k < |old(ps)| ==> old(ps)[k].pid != pid
      ensures r == -1 ==> ps == old(ps)
      ensures r == 0 ==> |ps| == |old(ps)| && exists k: nat ::
        && k < |ps| && old(ps)[k].pid == pid && (forall j: nat :: j < |ps| && j != k ==> ps[j] == old(ps)[j] && (j < k ==> ps[j].pid != pid))
        && ps[k] == old(ps)[k].(killed := true, state := if old(ps)[k].state == SLEEPING then RUNNABLE else old(ps)[k].state)
      ensures Moves(old(ps), init, Section.Kill(pid), ps)
    {
      var i := 0;
      while i < |ps| && ps[i].pid != pid
        invariant i <= |ps| && KilledFrom(ps, pid, i) == Killed(ps, pid)
        invariant forall k: nat :: k < i ==> ps[k].pid != pid
        modifies {}
      {
        i := i + 1;
      }
      if i == |ps| {
        return -1;
      }
      StepInv(ps, init, nextpid, h, i, KillOne(ps[i]));
      ps := ps[i := ps[i].(killed := true)];
      if ps[i].state == SLEEPING {
        ps := ps[i := ps[i].(state := RUNNABLE)];
      }
      assert ps == old(ps)[i := KillOne(old(ps)[i])];
      r := 0;
    }
  }

  // A process that is killed while it is an embryo, and whose fork() then fails,
  // passes the flag on to the next process in its slot.
  method KillEmbryo() returns (t: Ptable, i: nat)
    ensures t.Valid() && i < |t.ps| && t.ps[i].state == EMBRYO && t.ps[i].killed && t.ps[i].pid == 3
  {
    t := new Ptable(2);
    t.Dispatch(0);
    var ok;
    ok, i := t.Allocproc(0);
    KilledFirst(t.ps, 2, 0, 1);
    var r := t.Kill(2);
    t.ForkFails(0);
    assert t.ps[1].state == UNUSED;
    ok, i := t.Allocproc(0);
  }
}
