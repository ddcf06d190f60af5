// scheduler() of proc.c on one CPU: a table scan with a threshold that falls by
// ten after each scan, and how long a runnable process can be passed over.
module Scheduler {
  import opened Processes

  const TOP: int := 1000
  const DECAY: int := 10

  // prio_threshold after a scan
  function Lower(t: int): (r: int) {
    if t - DECAY < 0 then TOP else t - DECAY
  }

  ghost predicate ThresholdOk(t: int) {
    0 <= t <= TOP && t % DECAY == 0
  }

  // The CPU between two steps: the next slot to look at, and the threshold.
  datatype Cpu = Cpu(ps: Table, pos: nat, threshold: int)

  // A slot is passed over, or its process runs; a scan ends; or the table is
  // changed by an interrupt while the lock is free.
  datatype Event = Skip | Run(slot: nat) | EndScan | Outside

  predicate Eligible(p: Proc, t: int) {
    p.state == RUNNABLE && p.prio >= t
  }

  ghost predicate Next(c: Cpu, e: Event, c': Cpu) {
    && |c'.ps| == |c.ps|
    && match e
       case Skip => c.pos < |c.ps| && !Eligible(c.ps[c.pos], c.threshold) && c' == c.(pos := c.pos + 1)
       case Run(i) => i == c.pos < |c.ps| && Eligible(c.ps[i], c.threshold) && c' == Cpu(c'.ps, c.pos + 1, c.threshold)
       case EndScan => c.pos >= |c.ps| && c' == Cpu(c.ps, 0, Lower(c.threshold))
       case Outside => c' == c.(ps := c'.ps)
  }

  ghost predicate IsRun(cs: seq<Cpu>, es: seq<Event>) {
    |cs| == |es| + 1 && forall k: nat :: k < |es| ==> NextAt(cs, es, k)
  }

  ghost predicate NextAt(cs: seq<Cpu>, es: seq<Event>, k: nat)
    requires k < |es| && |cs| == |es| + 1
  {
    Next(cs[k], es[k], cs[k + 1])
  }

  ghost predicate CpuOk(c: Cpu) {
    c.pos <= |c.ps| && ThresholdOk(c.threshold)
  }

  // prio_threshold is one of 0, 10, ..., 1000 in every run.
  lemma {:induction false} ThresholdKept(cs: seq<Cpu>, es: seq<Event>, k: nat)
    requires IsRun(cs, es) && CpuOk(cs[0]) && k < |cs|
    ensures CpuOk(cs[k]) && |cs[k].ps| == |cs[0].ps|
  {
    if k > 0 {
      ThresholdKept(cs, es, k - 1);
      assert NextAt(cs, es, k - 1);
    }
  }

  // ----- how long a process waits -----

  // The scans from threshold t on whose threshold is above prio.
  function Scans(prio: int, t: int): (n: nat)
    requires 0 <= prio
    decreases if t > prio then t - prio else 0
  {
    if t <= prio then 0 else 1 + Scans(prio, t - DECAY)
  }

  lemma {:induction false} ScansExact(prio: int, t: int)
    requires 0 <= prio
    ensures Scans(prio, t) == if t <= prio then 0 else (t - prio + DECAY - 1) / DECAY
    decreases if t > prio then t - prio else 0
  {
    if t > prio {
      ScansExact(prio, t - DECAY);
    }
  }

  // The ends of scans that a runnable process in slot p can wait for.
  function EndsLeft(p: nat, prio: int, pos: nat, t: int): (n: nat)
    requires 0 <= prio
  {
    if pos <= p && t <= prio then 0 else 1 + Scans(prio, Lower(t))
  }

  // The times that another process can run before it.
  function OthersLeft(n: nat, p: nat, prio: int, pos: nat, t: int): (r: int)
    requires p < n && 0 <= prio
  {
    if pos <= p && t <= prio then p - pos
    else n - pos - (if pos <= p then 1 else 0) + Scans(prio, Lower(t)) * (n - 1) + p
  }

  lemma LeftBounds(n: nat, p: nat, prio: int, pos: nat, t: int)
    requires p < n && 0 <= prio && pos <= n && ThresholdOk(t)
    ensures EndsLeft(p, prio, pos, t) <= 1 + Scans(prio, TOP) <= 101
    ensures 0 <= OthersLeft(n, p, prio, pos, t) <= 101 * (n - 1)
  {
    ScansExact(prio, Lower(t));
    ScansExact(prio, TOP);
    var s := Scans(prio, Lower(t));
    assert s <= if pos <= p && t > prio then 99 else 100;
    Multiply(s, if pos <= p && t > prio then 99 else 100, n - 1);
  }

  lemma Multiply(a: int, b: int, c: int)
    requires 0 <= a <= b && 0 <= c
    ensures 0 <= a * c <= b * c
  {
  }

  // Process p waits in a state: it is runnable, with this priority.
  ghost predicate Waits(c: Cpu, p: nat, prio: int) {
    p < |c.ps| && c.ps[p].state == RUNNABLE && c.ps[p].prio == prio
  }

  function Ends(e: Event): nat { if e.EndScan? then 1 else 0 }

  function Others(e: Event, p: nat): nat { if e.Run? && e.slot != p then 1 else 0 }

  // A step that does not run process p uses up what it can wait for.
  lemma WaitStep(c: Cpu, e: Event, c': Cpu, p: nat, prio: int)
    requires Next(c, e, c') && CpuOk(c) && Waits(c, p, prio) && 0 <= prio && e != Run(p)
    ensures CpuOk(c')
    ensures EndsLeft(p, prio, c'.pos, c'.threshold) + Ends(e) <= EndsLeft(p, prio, c.pos, c.threshold)
    ensures var n := |c.ps|; OthersLeft(n, p, prio, c'.pos, c'.threshold) + Others(e, p) <= OthersLeft(n, p, prio, c.pos, c.threshold)
  {
    var n := |c.ps|;
    if e.EndScan? && Lower(c.threshold) > prio {
      assert Lower(Lower(c.threshold)) == Lower(c.threshold) - DECAY;
      var s := Scans(prio, Lower(Lower(c.threshold)));
      assert Scans(prio, Lower(c.threshold)) == 1 + s;
      assert (1 + s) * (n - 1) == s * (n - 1) + (n - 1);
    }
  }

  function CountEnds(es: seq<Event>, k: nat): (n: nat)
    requires k <= |es|
  {
    if k == 0 then 0 else CountEnds(es, k - 1) + Ends(es[k - 1])
  }

  function CountOthers(es: seq<Event>, p: nat, k: nat): (n: nat)
    requires k <= |es|
  {
    if k == 0 then 0 else CountOthers(es, p, k - 1) + Others(es[k - 1], p)
  }

  lemma {:induction false} WaitRun(cs: seq<Cpu>, es: seq<Event>, p: nat, prio: int, k: nat)
    requires IsRun(cs, es) && CpuOk(cs[0]) && 0 <= prio && k <= |es|
    requires forall j: nat :: j < |cs| ==> Waits(cs[j], p, prio)
    requires forall j: nat :: j < |es| ==> es[j] != Run(p)
    ensures CpuOk(cs[k]) && |cs[k].ps| == |cs[0].ps|
    ensures CountEnds(es, k) + EndsLeft(p, prio, cs[k].pos, cs[k].threshold) <= EndsLeft(p, prio, cs[0].pos, cs[0].threshold)
    ensures p < |cs[0].ps|
    ensures CountOthers(es, p, k) + OthersLeft(|cs[0].ps|, p, prio, cs[k].pos, cs[k].threshold)
      <= OthersLeft(|cs[0].ps|, p, prio, cs[0].pos, cs[0].threshold)
  {
    assert Waits(cs[0], p, prio);
    if k > 0 {
      WaitRun(cs, es, p, prio, k - 1);
      assert NextAt(cs, es, k - 1) && Waits(cs[k - 1], p, prio);
      WaitStep(cs[k - 1], es[k - 1], cs[k], p, prio);
    }
  }

  // A process that stays runnable, with a priority that is not negative, waits for
  // at most 101 scans to end, fewer if its priority is high, and others run at
  // most 101 * (NPROC - 1) times.
  lemma BoundedBypass(cs: seq<Cpu>, es: seq<Event>, p: nat, prio: int)
    requires IsRun(cs, es) && CpuOk(cs[0]) && 0 <= prio
    requires forall j: nat :: j < |cs| ==> Waits(cs[j], p, prio)
    requires forall j: nat :: j < |es| ==> es[j] != Run(p)
    ensures CountEnds(es, |es|) <= 1 + Scans(prio, TOP) <= 101 && CountOthers(es, p, |es|) <= 101 * (|cs[0].ps| - 1)
  {
    assert Waits(cs[0], p, prio);
    WaitRun(cs, es, p, prio, |es|);
    LeftBounds(|cs[0].ps|, p, prio, cs[0].pos, cs[0].threshold);
    LeftBounds(|cs[0].ps|, p, prio, cs[|es|].pos, cs[|es|].threshold);
  }

  // ----- the bound is attained -----

  // All processes are always runnable, and all but p always eligible.
  ghost predicate Crowded(ps: Table, p: nat, prio: int) {
    && p < |ps| && (forall i :: 0 <= i < |ps| ==> ps[i].state == RUNNABLE)
    && ps[p].prio == prio && forall i :: 0 <= i < |ps| && i != p ==> ps[i].prio >= TOP
  }

  // What happens next if every process that runs is runnable again afterwards.
  function CrowdedEvent(c: Cpu, p: nat): Event {
    if c.pos >= |c.ps| then EndScan else if c.pos == p then Skip else Run(c.pos)
  }

  function CrowdedNext(c: Cpu): Cpu {
    if c.pos >= |c.ps| then Cpu(c.ps, 0, Lower(c.threshold)) else c.(pos := c.pos + 1)
  }

  // Unless it is the turn of p, the step uses up exactly what it counts.
  lemma CrowdedStep(c: Cpu, p: nat, prio: int)
    requires CpuOk(c) && Crowded(c.ps, p, prio) && 0 <= prio && !(c.pos == p && c.threshold <= prio)
    ensures Next(c, CrowdedEvent(c, p), CrowdedNext(c)) && CpuOk(CrowdedNext(c)) && CrowdedEvent(c, p) != Run(p)
    ensures var e, c' := CrowdedEvent(c, p), CrowdedNext(c);
      && EndsLeft(p, prio, c'.pos, c'.threshold) + Ends(e) == EndsLeft(p, prio, c.pos, c.threshold)
      && OthersLeft(|c.ps|, p, prio, c'.pos, c'.threshold) + Others(e, p) == OthersLeft(|c.ps|, p, prio, c.pos, c.threshold)
  {
    var n := |c.ps|;
    if c.pos >= n && Lower(c.threshold) > prio {
      assert Lower(Lower(c.threshold)) == Lower(c.threshold) - DECAY;
      var s := Scans(prio, Lower(Lower(c.threshold)));
      assert Scans(prio, Lower(c.threshold)) == 1 + s;
      assert (1 + s) * (n - 1) == s * (n - 1) + (n - 1);
    }
  }

  // From any state of a crowded table, process p waits as long as it can.
  lemma CrowdedRun(c: Cpu, p: nat, prio: int) returns (cs: seq<Cpu>, es: seq<Event>)
    requires CpuOk(c) && Crowded(c.ps, p, prio) && 0 <= prio
    ensures IsRun(cs, es) && cs[0] == c && cs[|es|].pos == p && cs[|es|].threshold <= prio
    ensures (forall j :: 0 <= j < |cs| ==> cs[j].ps == c.ps) && forall j :: 0 <= j < |es| ==> es[j] != Run(p)
    ensures CountEnds(es, |es|) == EndsLeft(p, prio, c.pos, c.threshold)
    ensures CountOthers(es, p, |es|) == OthersLeft(|c.ps|, p, prio, c.pos, c.threshold)
  {
    var x := c;
    cs, es := [c], [];
    while !(x.pos == p && x.threshold <= prio)
      invariant IsRun(cs, es) && cs[0] == c && x == cs[|es|] && CpuOk(x)
      invariant (forall j :: 0 <= j < |cs| ==> cs[j].ps == c.ps) && forall j :: 0 <= j < |es| ==> es[j] != Run(p)
      invariant CountEnds(es, |es|) + EndsLeft(p, prio, x.pos, x.threshold) == EndsLeft(p, prio, c.pos, c.threshold)
      invariant CountOthers(es, p, |es|) + OthersLeft(|c.ps|, p, prio, x.pos, x.threshold)
        == OthersLeft(|c.ps|, p, prio, c.pos, c.threshold)
      decreases EndsLeft(p, prio, x.pos, x.threshold), |c.ps| - x.pos
    {
      var e := CrowdedEvent(x, p);
      CrowdedStep(x, p, prio);
      x := CrowdedNext(x);
      Extend(cs, es, e, x);
      OthersPrefix(es, e, p, |es|);
      cs, es := cs + [x], es + [e];
    }
  }

  // The bounds of BoundedBypass are reached, for a table of any size.
  lemma BypassAttained(ps: Table, p: nat) returns (cs: seq<Cpu>, es: seq<Event>)
    requires Crowded(ps, p, 0)
    ensures IsRun(cs, es) && CpuOk(cs[0]) && cs[0].ps == ps
    ensures (forall j: nat :: j < |cs| ==> Waits(cs[j], p, 0)) && forall j: nat :: j < |es| ==> es[j] != Run(p)
    ensures CountEnds(es, |es|) == 101 && CountOthers(es, p, |es|) == 101 * (|ps| - 1)
  {
    ScansExact(0, TOP);
    cs, es := CrowdedRun(Cpu(ps, p + 1, 0), p, 0);
  }

  lemma {:induction false} OthersPrefix(es: seq<Event>, e: Event, p: nat, k: nat)
    requires k <= |es|
    ensures CountOthers(es + [e], p, k) == CountOthers(es, p, k)
  {
    if k > 0 {
      OthersPrefix(es, e, p, k - 1);
    }
  }

  // A process of negative priority never runs.
  lemma {:induction false} NegativeNeverRuns(cs: seq<Cpu>, es: seq<Event>, p: nat, k: nat)
    requires IsRun(cs, es) && CpuOk(cs[0]) && k < |es| && p < |cs[0].ps|
    requires forall j: nat :: j < |cs| && p < |cs[j].ps| ==> cs[j].ps[p].prio < 0
    ensures es[k] != Run(p)
  {
    ThresholdKept(cs, es, k);
    assert NextAt(cs, es, k);
  }

  // What a scan does at slot i, from the table cs[i].ps to cs[i + 1].ps.
  ghost predicate TurnAt(threshold: int, after: seq<Table>, cs: seq<Cpu>, es: seq<Event>, i: nat)
    requires i < |after| && i < |es| && i + 1 < |cs|
  {
    i < |cs[i].ps| &&
    var p := cs[i].ps[i];
    if p.state == RUNNABLE && p.prio >= threshold then es[i] == Run(i) && cs[i + 1].ps == after[i]
    else es[i] == Skip && cs[i + 1].ps == cs[i].ps
  }

  // One scan of scheduler(): after[i] is the table when the process of slot i
  // gives the CPU back.  The trace of the scan is a run.
  method Scan(c: Cpu, after: seq<Table>) returns (r: Cpu, ghost cs: seq<Cpu>, ghost es: seq<Event>)
    requires c.pos == 0 && |after| == |c.ps| && forall i :: 0 <= i < |after| ==> |after[i]| == |c.ps|
    ensures IsRun(cs, es) && cs[0] == c && cs[|es|] == r && r.pos == 0 && r.threshold == Lower(c.threshold)
    ensures CountEnds(es, |es|) == 1
    // the process of a slot runs exactly if it is runnable and not below the threshold
    ensures |es| == |c.ps| + 1 && (forall i: nat :: i < |c.ps| ==> TurnAt(c.threshold, after, cs, es, i))
    ensures r.ps == cs[|c.ps|].ps && r.threshold == if c.threshold >= 10 then c.threshold - 10 else 1000
  {
    var ps, p := c.ps, 0;
    cs, es := [c], [];
    while p < |ps|
      invariant p <= |ps| == |c.ps| && IsRun(cs, es) && cs[0] == c && cs[|es|] == Cpu(ps, p, c.threshold)
      invariant CountEnds(es, |es|) == 0
      invariant |es| == p && (forall i: nat :: i < p ==> TurnAt(c.threshold, after, cs, es, i))
    {
      ghost var e := if Eligible(ps[p], c.threshold) then Run(p) else Skip;
      if ps[p].state != RUNNABLE || ps[p].prio < c.threshold {
      } else {
        ps := after[p];
      }
      p := p + 1;
      Extend(cs, es, e, Cpu(ps, p, c.threshold));
      TurnsKept(c.threshold, after, cs, es, Cpu(ps, p, c.threshold), e);
      cs, es := cs + [Cpu(ps, p, c.threshold)], es + [e];
    }
    var threshold := c.threshold - DECAY;
    if threshold < 0 {
      threshold := TOP;
    }
    r := Cpu(ps, 0, threshold);
    Extend(cs, es, EndScan, r);
    TurnsKept(c.threshold, after, cs, es, r, EndScan);
    cs, es := cs + [r], es + [EndScan];
  }

  lemma TurnsKept(threshold: int, after: seq<Table>, cs: seq<Cpu>, es: seq<Event>, c: Cpu, e: Event)
    requires |es| <= |after| && |cs| == |es| + 1 && forall i: nat :: i < |es| ==> TurnAt(threshold, after, cs, es, i)
    ensures forall i: nat :: i < |es| ==> TurnAt(threshold, after, cs + [c], es + [e], i)
  {
    forall i: nat | i < |es| ensures TurnAt(threshold, after, cs + [c], es + [e], i) {
      assert TurnAt(threshold, after, cs, es, i);
    }
  }

  lemma Extend(cs: seq<Cpu>, es: seq<Event>, e: Event, c: Cpu)
    requires IsRun(cs, es) && Next(cs[|es|], e, c)
    ensures IsRun(cs + [c], es + [e]) && (cs + [c])[|es + [e]|] == c
    ensures CountEnds(es + [e], |es + [e]|) == CountEnds(es, |es|) + Ends(e)
  {
    var cs', es' := cs + [c], es + [e];
    forall k: nat | k < |es'| ensures NextAt(cs', es', k) {
      if k < |es| { assert NextAt(cs, es, k); }
    }
    CountPrefix(es, e, |es|);
  }

  lemma {:induction false} CountPrefix(es: seq<Event>, e: Event, k: nat)
    requires k <= |es|
    ensures CountEnds(es + [e], k) == CountEnds(es, k)
  {
    if k > 0 {
      CountPrefix(es, e, k - 1);
    }
  }
}
