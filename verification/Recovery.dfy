// The disk side of the redo log of log.c: what recovery makes of a disk, and
// what any number of interrupted recoveries make of it.
module Recovery {
  import opened BufferCache

  type Disk = seq<Block>

  // The log occupies `size` blocks from `start`: a header, then logged blocks.
  // The header has room for `cap` of them.
  datatype Layout = Layout(start: nat, size: nat, cap: nat) {
    predicate IsLog(bn: int) { start <= bn < start + size }
  }

  // The header block holds the number of logged blocks and their home blocks.
  ghost function Count(d: Disk, l: Layout): int
    requires l.start < |d| && |d[l.start]| > 0
  {
    d[l.start][0]
  }

  ghost predicate HeaderFits(d: Disk, l: Layout) {
    && l.size > 0 && l.start + l.size <= |d|
    && |d[l.start]| > l.cap && 0 <= Count(d, l) <= l.cap && Count(d, l) < l.size
  }

  ghost predicate HomeBlock(d: Disk, l: Layout, bn: int) {
    0 <= bn < |d| && !l.IsLog(bn)
  }

  ghost function Entry(d: Disk, l: Layout, i: int): int
    requires HeaderFits(d, l) && 0 <= i < Count(d, l)
  {
    d[l.start][1 + i]
  }

  // A header that recovery can follow: its targets are home blocks.
  ghost predicate LogOk(d: Disk, l: Layout) {
    HeaderFits(d, l) && forall i :: 0 <= i < Count(d, l) ==> HomeBlock(d, l, Entry(d, l, i))
  }

  ghost function Target(d: Disk, l: Layout, i: nat): (r: nat)
    requires LogOk(d, l) && i < Count(d, l)
    ensures HomeBlock(d, l, r)
  {
    assert HomeBlock(d, l, Entry(d, l, i));
    Entry(d, l, i)
  }

  // The disk after install_trans() has copied the first t logged blocks home.
  ghost function Install(d: Disk, l: Layout, t: nat): (r: Disk)
    requires LogOk(d, l) && t <= Count(d, l)
    ensures |r| == |d|
    ensures forall bn :: 0 <= bn < |d| && l.IsLog(bn) ==> r[bn] == d[bn]
  {
    if t == 0 then d else Install(d, l, t - 1)[Target(d, l, t - 1) := d[l.start + t]]
  }

  // The last of the first t entries whose home is bn, or -1.
  ghost function LastEntry(d: Disk, l: Layout, t: nat, bn: nat): (r: int)
    requires LogOk(d, l) && t <= Count(d, l)
    ensures -1 <= r < t
  {
    if t == 0 then -1 else if Target(d, l, t - 1) == bn then t - 1 else LastEntry(d, l, t - 1, bn)
  }

  // The disk after a complete recovery, up to the log itself.
  ghost function Recovered(d: Disk, l: Layout): (r: Disk)
    requires LogOk(d, l)
    ensures |r| == |d|
  {
    Install(d, l, Count(d, l))
  }

  // write_head() with an empty log.
  ghost function Cleared(d: Disk, l: Layout): (r: Disk)
    requires HeaderFits(d, l)
    ensures |r| == |d|
  {
    d[l.start := d[l.start][0 := 0]]
  }

  // The disk when recovery is cut off after k writes, the last of which clears
  // the header.
  ghost function CutOff(d: Disk, l: Layout, k: nat): (r: Disk)
    requires LogOk(d, l)
    ensures |r| == |d|
  {
    if k <= Count(d, l) then Install(d, l, k) else Cleared(Recovered(d, l), l)
  }

  // The same contents outside the log.
  ghost predicate HomeEq(a: Disk, b: Disk, l: Layout) {
    |a| == |b| && forall bn :: 0 <= bn < |a| && !l.IsLog(bn) ==> a[bn] == b[bn]
  }

  lemma {:induction false} InstallAt(d: Disk, l: Layout, t: nat, bn: nat)
    requires LogOk(d, l) && t <= Count(d, l) && HomeBlock(d, l, bn)
    ensures var e := LastEntry(d, l, t, bn);
      Install(d, l, t)[bn] == if e >= 0 then d[l.start + 1 + e] else d[bn]
  {
    if t > 0 {
      InstallAt(d, l, t - 1, bn);
    }
  }

  // In terms of the words of the header block and of the blocks behind it: a home
  // block that the header names gets the log block of the last place that names
  // it, and any other stays.
  lemma RecoveredAt(d: Disk, l: Layout, bn: nat, e: int)
    requires LogOk(d, l) && HomeBlock(d, l, bn) && -1 <= e < d[l.start][0]
    requires e >= 0 ==> d[l.start][1 + e] == bn
    requires forall j :: 1 + e < j <= d[l.start][0] ==> d[l.start][j] != bn
    ensures Recovered(d, l)[bn] == if e >= 0 then d[l.start + 1 + e] else d[bn]
  {
    InstallAt(d, l, Count(d, l), bn);
    LastIs(d, l, Count(d, l), bn, e);
  }

  lemma {:induction false} LastIs(d: Disk, l: Layout, t: nat, bn: nat, e: int)
    requires LogOk(d, l) && t <= Count(d, l) && -1 <= e < t && (e >= 0 ==> d[l.start][1 + e] == bn)
    requires forall j :: 1 + e < j <= t ==> d[l.start][j] != bn
    ensures LastEntry(d, l, t, bn) == e
  {
    if t > 0 && e < t - 1 {
      assert d[l.start][t] != bn;
      LastIs(d, l, t - 1, bn, e);
    }
  }

  lemma {:induction false} LastEntryGrows(d: Disk, l: Layout, s: nat, t: nat, bn: nat)
    requires LogOk(d, l) && s <= t <= Count(d, l)
    ensures LastEntry(d, l, s, bn) >= 0 ==> LastEntry(d, l, t, bn) >= 0
    decreases t
  {
    if s < t {
      LastEntryGrows(d, l, s, t - 1, bn);
    }
  }

  lemma InstallLogOk(d: Disk, l: Layout, s: nat)
    requires LogOk(d, l) && s <= Count(d, l)
    ensures LogOk(Install(d, l, s), l) && Count(Install(d, l, s), l) == Count(d, l)
    ensures Install(d, l, s)[l.start] == d[l.start]
  {
    assert l.IsLog(l.start);
    var e := Install(d, l, s);
    assert e[l.start] == d[l.start];
    forall i | 0 <= i < Count(e, l) ensures HomeBlock(e, l, Entry(e, l, i)) {
      assert HomeBlock(d, l, Entry(d, l, i));
    }
  }

  lemma {:induction false} SameEntries(d: Disk, e: Disk, l: Layout, t: nat, bn: nat)
    requires LogOk(d, l) && LogOk(e, l) && e[l.start] == d[l.start] && t <= Count(d, l)
    ensures LastEntry(e, l, t, bn) == LastEntry(d, l, t, bn)
  {
    if t > 0 {
      SameEntries(d, e, l, t - 1, bn);
    }
  }

  // Redoing the log over a partly installed one gives the same disk, whether
  // or not a block is logged twice.
  lemma Redo(d: Disk, l: Layout, s: nat)
    requires LogOk(d, l) && s <= Count(d, l)
    ensures LogOk(Install(d, l, s), l)
    ensures Recovered(Install(d, l, s), l) == Recovered(d, l)
  {
    InstallLogOk(d, l, s);
    var x, y := Recovered(Install(d, l, s), l), Recovered(d, l);
    forall bn: nat | bn < |d| ensures x[bn] == y[bn] {
      RedoAt(d, l, s, bn);
    }
    assert x == y;
  }

  lemma RedoAt(d: Disk, l: Layout, s: nat, bn: nat)
    requires LogOk(d, l) && s <= Count(d, l) && bn < |d|
    requires LogOk(Install(d, l, s), l)
    ensures Recovered(Install(d, l, s), l)[bn] == Recovered(d, l)[bn]
  {
    var e, n := Install(d, l, s), Count(d, l);
    InstallLogOk(d, l, s);
    if !l.IsLog(bn) {
      InstallAt(d, l, n, bn);
      InstallAt(e, l, n, bn);
      InstallAt(d, l, s, bn);
      SameEntries(d, e, l, n, bn);
      LastEntryGrows(d, l, s, n, bn);
      var k := LastEntry(d, l, n, bn);
      assert k >= 0 ==> l.IsLog(l.start + 1 + k);
    }
  }

  lemma ClearedOk(d: Disk, l: Layout)
    requires HeaderFits(d, l)
    ensures LogOk(Cleared(d, l), l) && Count(Cleared(d, l), l) == 0
    ensures Recovered(Cleared(d, l), l) == Cleared(d, l) && HomeEq(Cleared(d, l), d, l)
  {
    assert l.IsLog(l.start);
  }

  // Cutting recovery off anywhere keeps what a complete recovery would give.
  lemma CutOffKeeps(d: Disk, l: Layout, k: nat)
    requires LogOk(d, l)
    ensures LogOk(CutOff(d, l, k), l)
    ensures HomeEq(Recovered(CutOff(d, l, k), l), Recovered(d, l), l)
  {
    if k <= Count(d, l) {
      Redo(d, l, k);
    } else {
      InstallLogOk(d, l, Count(d, l));
      ClearedOk(Recovered(d, l), l);
    }
  }

  // The disk after a reboot for each of `cuts`, each of whose recoveries is
  // cut off after that many writes.
  ghost function Reboots(d: Disk, l: Layout, cuts: seq<nat>): (r: Disk)
    requires LogOk(d, l)
    ensures LogOk(r, l)
    decreases |cuts|
  {
    if cuts == [] then d else
      CutOffKeeps(d, l, cuts[0]);
      Reboots(CutOff(d, l, cuts[0]), l, cuts[1..])
  }

  // However often recovery crashes before it completes, the home blocks end up
  // the same.
  lemma {:induction false} RebootsKeep(d: Disk, l: Layout, cuts: seq<nat>)
    requires LogOk(d, l)
    ensures HomeEq(Recovered(Reboots(d, l, cuts), l), Recovered(d, l), l)
    decreases |cuts|
  {
    if cuts != [] {
      CutOffKeeps(d, l, cuts[0]);
      RebootsKeep(CutOff(d, l, cuts[0]), l, cuts[1..]);
    }
  }

  // A disk whose home blocks a complete recovery makes equal to those of img.
  ghost predicate RecoversTo(d: Disk, img: Disk, l: Layout) {
    LogOk(d, l) && HomeEq(Recovered(d, l), img, l)
  }

  // Crash atomicity: after a crash that leaves disk d, any number of
  // interrupted recoveries and a complete one restore the home blocks of img.
  lemma CrashRecovery(d: Disk, img: Disk, l: Layout, cuts: seq<nat>)
    requires RecoversTo(d, img, l)
    ensures RecoversTo(Reboots(d, l, cuts), img, l)
  {
    RebootsKeep(d, l, cuts);
  }
}
