// The redo log of log.c over the buffer cache.
module Log {
  import opened BufferCache
  import opened Recovery

  // The buffers of `held` are held by others and stay as they are; no process
  // holds any other buffer.
  ghost predicate Calm(bufs: seq<Buf>, held: map<int, Buf>) {
    forall i :: 0 <= i < |bufs| ==> if i in held then bufs[i] == held[i] else bufs[i].refcnt == 0 && !bufs[i].locked
  }

  // No process holds a buffer.
  ghost predicate Quiet(bufs: seq<Buf>) {
    Calm(bufs, map[])
  }

  // None of the held buffers is of block bn.
  ghost predicate Aside(held: map<int, Buf>, bn: nat) {
    forall i :: i in held ==> held[i].refcnt > 0 && held[i].blockno != bn
  }

  // Only pinned blocks have contents that the disk does not have: whoever holds
  // a buffer has not changed it, or has logged the change.
  ghost predicate Settled(bufs: seq<Buf>, disk: seq<Block>, view: seq<Block>) {
    |view| == |disk| && forall bn: nat :: bn < |disk| && !PinnedBlock(bufs, bn) ==> view[bn] == disk[bn]
  }

  ghost predicate Still(bufs: seq<Buf>, disk: seq<Block>, view: seq<Block>, held: map<int, Buf>) {
    Calm(bufs, held) && Settled(bufs, disk, view)
  }

  ghost function Pinned(bufs: seq<Buf>): set<int> {
    set i | 0 <= i < |bufs| && bufs[i].dirty
  }

  // The block has contents that only its pinned buffer holds.
  ghost predicate PinnedBlock(bufs: seq<Buf>, bn: nat) {
    exists i :: 0 <= i < |bufs| && bufs[i].dirty && bufs[i].Is(DISK, bn)
  }

  lemma {:induction false} Indices(n: nat) returns (s: set<int>)
    ensures (forall i :: i in s <==> 0 <= i < n) && |s| == n
  {
    if n == 0 {
      s := {};
    } else {
      s := Indices(n - 1);
      s := s + {n - 1};
    }
  }

  // Fewer busy buffers than buffers: bget() finds an idle one.
  lemma IdleExists(bufs: seq<Buf>, busy: set<int>)
    requires forall i :: 0 <= i < |bufs| && !bufs[i].Idle() ==> i in busy
    requires |busy| < |bufs|
    ensures exists i :: 0 <= i < |bufs| && bufs[i].Idle()
  {
    var all := Indices(|bufs|);
    if forall i :: 0 <= i < |bufs| ==> !bufs[i].Idle() {
      forall i | i in all ensures i in busy {
        assert !bufs[i].Idle();
      }
      SubsetSize(all, busy);
      assert false;
    }
  }

  lemma {:induction false} SubsetSize<T>(a: set<T>, b: set<T>)
    requires a <= b
    ensures |a| <= |b|
  {
    if a != {} {
      var x :| x in a;
      SubsetSize(a - {x}, b - {x});
    }
  }

  // Enough idle buffers to copy one block to another.
  ghost predicate RoomToCopy(bufs: seq<Buf>, held: map<int, Buf>, x: nat, y: nat) {
    || |Pinned(bufs)| + |held| + 1 < |bufs|
    || (|Pinned(bufs)| + |held| < |bufs| && (PinnedBlock(bufs, x) || PinnedBlock(bufs, y)))
  }

  // The body that write_log() and install_trans() share: read both blocks,
  // copy, write the target to the disk, release both.
  method Copy(c: Cache, src: nat, dst: nat, dstFirst: bool, ghost held: map<int, Buf>)
    requires c.Valid() && Still(c.bufs, c.disk, c.view, held) && src != dst && src < |c.disk| && dst < |c.disk|
    requires RoomToCopy(c.bufs, held, src, dst) && Aside(held, src) && Aside(held, dst)
    modifies c
    ensures c.Valid() && Still(c.bufs, c.disk, c.view, held)
    ensures |old(c.view)| == |old(c.disk)|
    ensures c.view == old(c.view)[dst := old(c.view)[src]]
    ensures c.disk == old(c.disk)[dst := old(c.view)[src]] && c.hist == old(c.hist) + [c.disk]
    ensures Pinned(c.bufs) <= Pinned(old(c.bufs))
    ensures forall bn: nat :: PinnedBlock(c.bufs, bn) <==> PinnedBlock(old(c.bufs), bn) && bn != dst
  {
    ghost var bufs0, disk0, view0 := c.bufs, c.disk, c.view;
    var from, to := ReadBoth(c, src, dst, dstFirst, held);
    CopyOut(c, from, to, src, dst);
    PinnedAfterCopy(bufs0, c.bufs, from, to, src, dst);
    SameSettled(bufs0, c.bufs, disk0, view0, dst, view0[src]);
  }

  // The two buffers are read in either order.
  method ReadBoth(c: Cache, src: nat, dst: nat, dstFirst: bool, ghost held: map<int, Buf>) returns (from: nat, to: nat)
    requires c.Valid() && Calm(c.bufs, held) && src != dst && src < |c.disk| && dst < |c.disk|
    requires RoomToCopy(c.bufs, held, src, dst) && Aside(held, src) && Aside(held, dst)
    modifies c
    ensures c.Valid() && c.disk == old(c.disk) && c.view == old(c.view) && c.hist == old(c.hist)
    ensures from < |c.bufs| && to < |c.bufs| && from != to && from !in held && to !in held
    ensures Taken(old(c.bufs)[from], c.bufs[from], src) && Taken(old(c.bufs)[to], c.bufs[to], dst)
    ensures c.bufs == old(c.bufs)[from := c.bufs[from]][to := c.bufs[to]]
    ensures src < |c.view| == |c.disk| && (!c.bufs[from].dirty ==> c.view[src] == c.disk[src])
  {
    ghost var bufs0 := c.bufs;
    var first, second := if dstFirst then dst else src, if dstFirst then src else dst;
    FoundFirst(c.bufs, held, first);
    var r1 := Read(c, first, held);
    FoundSecond(bufs0, c.bufs, held, r1, first, second);
    var r2 := Read(c, second, held[r1 := c.bufs[r1]]);
    from, to := if dstFirst then r2 else r1, if dstFirst then r1 else r2;
  }

  method CopyOut(c: Cache, from: nat, to: nat, src: nat, dst: nat)
    requires c.Valid() && from < |c.bufs| && to < |c.bufs| && from != to && src != dst
    requires var b := c.bufs[from]; b.Is(DISK, src) && b.valid && b.locked && b.refcnt == 1
    requires var b := c.bufs[to]; b.Is(DISK, dst) && b.valid && b.locked && b.refcnt == 1
    requires src < |c.view| == |c.disk| && (!c.bufs[from].dirty ==> c.view[src] == c.disk[src])
    modifies c
    ensures c.Valid() && dst < |old(c.view)| == |old(c.disk)|
    ensures c.view == old(c.view)[dst := old(c.view)[src]]
    ensures c.disk == old(c.disk)[dst := old(c.view)[src]] && c.hist == old(c.hist) + [c.disk]
    ensures |c.bufs| == |old(c.bufs)|
    ensures c.bufs[from] == old(c.bufs)[from].(locked := false, refcnt := 0)
    ensures c.bufs[to] == old(c.bufs)[to].(locked := false, refcnt := 0, dirty := false, data := old(c.view)[src])
    ensures forall i :: 0 <= i < |c.bufs| && i != from && i != to ==> c.bufs[i] == old(c.bufs)[i]
  {
    c.SetData(to, c.bufs[from].data);
    c.Bwrite(to);
    c.Brelse(from);
    c.Brelse(to);
  }

  lemma SameBuffer(bufs0: seq<Buf>, bufs: seq<Buf>, r: nat, i: nat, bn: nat)
    requires r < |bufs| == |bufs0| && i < |bufs| && bufs == bufs0[r := bufs[r]] && Unique(bufs)
    requires bufs[r].Is(DISK, bn) && bufs0[i].Is(DISK, bn)
    ensures i == r
  {
    assert i != r ==> bufs[i] == bufs0[i];
  }

  lemma PinnedAfterCopy(bufs0: seq<Buf>, bufs: seq<Buf>, from: nat, to: nat, src: nat, dst: nat)
    requires from < |bufs| == |bufs0| && to < |bufs| && from != to && src != dst && Unique(bufs)
    requires bufs[from].Is(DISK, src) && bufs[from].dirty == bufs0[from].dirty
    requires bufs0[from].dirty ==> bufs0[from].Is(DISK, src)
    requires bufs[to].Is(DISK, dst) && !bufs[to].dirty && (bufs0[to].dirty ==> bufs0[to].Is(DISK, dst))
    requires forall i :: 0 <= i < |bufs| && i != from && i != to ==> bufs[i] == bufs0[i]
    ensures Pinned(bufs) <= Pinned(bufs0)
    ensures forall bn: nat :: PinnedBlock(bufs, bn) <==> PinnedBlock(bufs0, bn) && bn != dst
  {
    forall bn: nat
      ensures PinnedBlock(bufs, bn) <==> PinnedBlock(bufs0, bn) && bn != dst
    {
      if PinnedBlock(bufs, bn) {
        var i :| 0 <= i < |bufs| && bufs[i].dirty && bufs[i].Is(DISK, bn);
        assert i != to && bufs0[i].dirty && bufs0[i].Is(DISK, bn);
        assert i < to || to < i;
      }
      if PinnedBlock(bufs0, bn) && bn != dst {
        var i :| 0 <= i < |bufs0| && bufs0[i].dirty && bufs0[i].Is(DISK, bn);
        assert bufs[i].dirty && bufs[i].Is(DISK, bn);
      }
    }
  }

  // A buffer is cached already, or may be recycled.
  ghost predicate Found(bufs: seq<Buf>, bn: nat) {
    exists i :: 0 <= i < |bufs| && (bufs[i].Is(DISK, bn) || bufs[i].Idle())
  }

  lemma FoundFirst(bufs: seq<Buf>, held: map<int, Buf>, bn: nat)
    requires Calm(bufs, held) && |Pinned(bufs)| + |held| < |bufs|
    ensures Found(bufs, bn)
  {
    IdleExists(bufs, Pinned(bufs) + held.Keys);
  }

  // The same once buffer r1 has been taken for block `first`.
  lemma FoundSecond(bufs0: seq<Buf>, bufs: seq<Buf>, held: map<int, Buf>, r1: nat, first: nat, bn: nat)
    requires r1 < |bufs| == |bufs0| && Calm(bufs0, held) && RoomToCopy(bufs0, held, first, bn) && Unique(bufs)
    requires bufs == bufs0[r1 := bufs[r1]] && Taken(bufs0[r1], bufs[r1], first)
    ensures Found(bufs, bn)
  {
    if |Pinned(bufs0)| + |held| + 1 < |bufs0| {
      IdleExists(bufs, Pinned(bufs0) + {r1 as int} + held.Keys);
    } else if PinnedBlock(bufs0, bn) {
      var i :| 0 <= i < |bufs0| && bufs0[i].dirty && bufs0[i].Is(DISK, bn);
      assert i != r1 ==> bufs[i].Is(DISK, bn);
      assert i == r1 ==> bufs[i].Is(DISK, bn);
    } else {
      var i :| 0 <= i < |bufs0| && bufs0[i].dirty && bufs0[i].Is(DISK, first);
      SameBuffer(bufs0, bufs, r1, i, first);
      IdleExists(bufs, Pinned(bufs0) + held.Keys);
    }
  }

  // bread() has taken the buffer for block bn, and locked it.
  ghost predicate Taken(b0: Buf, b: Buf, bn: nat) {
    && b.Is(DISK, bn) && b.valid && b.locked && b.refcnt == 1
    && b.dirty == b0.dirty && (b0.dirty ==> b0.Is(DISK, bn))
  }

  method Read(c: Cache, bn: nat, ghost held: map<int, Buf>) returns (r: nat)
    requires c.Valid() && Calm(c.bufs, held) && bn < |c.disk| && Found(c.bufs, bn) && Aside(held, bn)
    modifies c
    ensures c.Valid() && c.disk == old(c.disk) && c.view == old(c.view) && c.hist == old(c.hist)
    ensures r < |c.bufs| && r !in held && c.bufs == old(c.bufs)[r := c.bufs[r]] && Taken(old(c.bufs)[r], c.bufs[r], bn)
    ensures bn < |c.view| && c.bufs[r].data == c.view[bn] && (!c.bufs[r].dirty ==> c.view[bn] == c.disk[bn])
  {
    var x := c.Bread(bn);
    r := x;
  }

  // The loop of write_head() over the words of the header block.
  method FillHeader(w0: Block, n: nat, block: seq<nat>) returns (w: Block)
    requires n <= |block| && n < |w0|
    ensures IsHeader(w, w0, n, block)
  {
    w := w0[0 := n];
    var i := 0;
    while i < n
      invariant i <= n && |w| == |w0| && w[0] == n
      invariant forall k :: 0 <= k < i ==> w[1 + k] == block[k]
      invariant forall k :: i < k < |w| ==> w[k] == w0[k]
    {
      w := w[1 + i := block[i]];
      i := i + 1;
    }
  }

  // write_head(): read the header block, fill it in, write it, release it.
  method PutHeader(c: Cache, bn: nat, n: nat, block: seq<nat>, ghost held: map<int, Buf>)
    requires c.Valid() && Still(c.bufs, c.disk, c.view, held) && bn < |c.disk| && !PinnedBlock(c.bufs, bn)
    requires |Pinned(c.bufs)| + |held| < |c.bufs| && Aside(held, bn)
    requires n <= |block| && n < |c.disk[bn]|
    modifies c
    ensures c.Valid() && Still(c.bufs, c.disk, c.view, held) && |c.view| == |old(c.view)| == |old(c.disk)| == |c.disk|
    ensures IsHeader(c.disk[bn], old(c.disk)[bn], n, block)
    ensures c.disk == old(c.disk)[bn := c.disk[bn]] && c.view == old(c.view)[bn := c.disk[bn]]
    ensures c.hist == old(c.hist) + [c.disk]
    ensures Pinned(c.bufs) == Pinned(old(c.bufs))
    ensures forall b: nat :: PinnedBlock(c.bufs, b) <==> PinnedBlock(old(c.bufs), b)
  {
    ghost var bufs0 := c.bufs;
    FoundFirst(c.bufs, held, bn);
    var r := Read(c, bn, held);
    var w := FillHeader(c.bufs[r].data, n, block);
    c.SetData(r, w);
    c.Bwrite(r);
    c.Brelse(r);
    assert !bufs0[r].dirty;
    SamePins(bufs0, c.bufs, r);
  }

  lemma SamePins(bufs0: seq<Buf>, bufs: seq<Buf>, r: nat)
    requires r < |bufs| == |bufs0| && bufs == bufs0[r := bufs[r]] && bufs[r].dirty == bufs0[r].dirty
    requires bufs[r].dirty ==> bufs[r].dev == bufs0[r].dev && bufs[r].blockno == bufs0[r].blockno
    ensures Pinned(bufs) == Pinned(bufs0)
    ensures forall b: nat :: PinnedBlock(bufs, b) <==> PinnedBlock(bufs0, b)
  {
    assert forall i :: 0 <= i < |bufs| ==> bufs[i].dirty == bufs0[i].dirty;
    forall b: nat ensures PinnedBlock(bufs, b) <==> PinnedBlock(bufs0, b) {
      if PinnedBlock(bufs, b) {
        var i :| 0 <= i < |bufs| && bufs[i].dirty && bufs[i].Is(DISK, b);
        assert bufs0[i].dirty && bufs0[i].Is(DISK, b);
      }
      if PinnedBlock(bufs0, b) {
        var i :| 0 <= i < |bufs| && bufs0[i].dirty && bufs0[i].Is(DISK, b);
        assert bufs[i].dirty && bufs[i].Is(DISK, b);
      }
    }
  }

  // bread() pins nothing and unpins nothing.
  lemma HoldSettled(bufs0: seq<Buf>, bufs: seq<Buf>, disk: seq<Block>, view: seq<Block>, bn: nat, r: int)
    requires Settled(bufs0, disk, view) && -2 <= r < |bufs| == |bufs0|
    requires r == -1 ==> bufs == bufs0
    requires r == -2 ==> exists i: nat :: Waits(bufs0, bufs, i)
    requires r >= 0 ==> bufs == bufs0[r := bufs[r]] && bufs[r].dirty == bufs0[r].dirty && bufs[r].Is(DISK, bn)
    requires r >= 0 ==> bufs0[r].Is(DISK, bn) || bufs0[r].Idle()
    ensures Settled(bufs, disk, view) && Pinned(bufs) == Pinned(bufs0)
    ensures forall b: nat :: PinnedBlock(bufs, b) <==> PinnedBlock(bufs0, b)
  {
    if r == -2 {
      var i: nat :| Waits(bufs0, bufs, i);
      SamePins(bufs0, bufs, i);
    } else if r >= 0 {
      SamePins(bufs0, bufs, r);
    }
  }

  lemma PutLogged(bufs0: seq<Buf>, bufs: seq<Buf>, disk: Disk, n0: nat, block0: seq<nat>, n: nat, block: seq<nat>, l: Layout, bn: nat)
    requires LoggedOn(bufs0, disk, n0, block0, l) && Loggable(block, n, disk, l) && |block| == l.cap
    requires n == if bn in block0[..n0] then n0 else n0 + 1
    requires forall b: nat :: b in block[..n] <==> b in block0[..n0] || b == bn
    requires |Pinned(bufs)| <= |Pinned(bufs0)| + (if PinnedBlock(bufs0, bn) then 0 else 1)
    requires forall b: nat :: PinnedBlock(bufs, b) <==> PinnedBlock(bufs0, b) || b == bn
    ensures LoggedOn(bufs, disk, n, block, l)
  {
  }

  lemma PutSettled(bufs0: seq<Buf>, bufs: seq<Buf>, disk: seq<Block>, view: seq<Block>, bn: nat, data: Block)
    requires Settled(bufs0, disk, view) && bn < |disk|
    requires forall b: nat :: PinnedBlock(bufs, b) <==> PinnedBlock(bufs0, b) || b == bn
    ensures Settled(bufs, disk, view[bn := data])
  {
  }

  lemma MorePins(bufs0: seq<Buf>, bufs: seq<Buf>, r: nat, bn: nat)
    requires r < |bufs| == |bufs0| && bufs == bufs0[r := bufs[r]] && bufs[r].dirty && bufs[r].Is(DISK, bn) && Unique(bufs)
    requires bufs0[r].dirty ==> bufs0[r].Is(DISK, bn)
    ensures |Pinned(bufs)| <= |Pinned(bufs0)| + (if PinnedBlock(bufs0, bn) then 0 else 1)
    ensures forall b: nat :: PinnedBlock(bufs, b) <==> PinnedBlock(bufs0, b) || b == bn
  {
    assert Pinned(bufs) == Pinned(bufs0) + {r as int};
    if PinnedBlock(bufs0, bn) {
      var i :| 0 <= i < |bufs0| && bufs0[i].dirty && bufs0[i].Is(DISK, bn);
      SameBuffer(bufs0, bufs, r, i, bn);
      assert i in Pinned(bufs0);
      assert Pinned(bufs) == Pinned(bufs0);
    }
    forall b: nat ensures PinnedBlock(bufs, b) <==> PinnedBlock(bufs0, b) || b == bn {
      if PinnedBlock(bufs, b) {
        var i :| 0 <= i < |bufs| && bufs[i].dirty && bufs[i].Is(DISK, b);
        assert i != r ==> bufs0[i] == bufs[i];
      }
      if PinnedBlock(bufs0, b) {
        var i :| 0 <= i < |bufs| && bufs0[i].dirty && bufs0[i].Is(DISK, b);
        assert i != r ==> bufs0[i] == bufs[i];
        assert bufs[i].dirty && bufs[i].Is(DISK, b);
      }
      if b == bn { assert bufs[r].dirty && bufs[r].Is(DISK, b); }
    }
  }

  // A block gets the same contents on disk and in the view.
  lemma SameSettled(bufs0: seq<Buf>, bufs: seq<Buf>, disk: seq<Block>, view: seq<Block>, bn: nat, data: Block)
    requires Settled(bufs0, disk, view) && bn < |disk|
    requires forall b: nat :: b != bn && PinnedBlock(bufs0, b) ==> PinnedBlock(bufs, b)
    ensures Settled(bufs, disk[bn := data], view[bn := data])
  {
  }

  // A held buffer whose block is not pinned may be released.
  lemma HeldClean(bufs: seq<Buf>, disk: seq<Block>, view: seq<Block>, r: nat)
    requires Coherent(bufs, disk, view) && Settled(bufs, disk, view) && r < |bufs| && bufs[r].valid && !bufs[r].dirty
    ensures bufs[r].blockno < |disk| && bufs[r].data == disk[bufs[r].blockno]
  {
    assert BufOk(bufs[r], disk, view);
    forall i: nat | i < |bufs| && bufs[i].Is(DISK, bufs[r].blockno) ensures i == r {
      SameBuffer(bufs, bufs, r, i, bufs[r].blockno);
    }
  }

  lemma NoPins(bufs: seq<Buf>, disk: seq<Block>, view: seq<Block>)
    requires Coherent(bufs, disk, view) && forall bn: nat :: !PinnedBlock(bufs, bn)
    ensures Pinned(bufs) == {}
  {
    forall i | 0 <= i < |bufs| ensures !bufs[i].dirty {
      assert BufOk(bufs[i], disk, view);
      assert bufs[i].dirty ==> bufs[i].Is(DISK, bufs[i].blockno);
      assert !PinnedBlock(bufs, bufs[i].blockno);
    }
  }

  // ----- what the phases of commit() leave on the disk -----

  // Block bn once write_log() has copied the first t logged blocks.
  ghost predicate FilledAt(d: Disk, d0: Disk, v0: Disk, block: seq<nat>, t: nat, l: Layout, bn: nat)
    requires bn < |d| == |d0| && t <= |block|
  {
    if l.start < bn <= l.start + t then
      block[bn - l.start - 1] < |v0| && d[bn] == v0[block[bn - l.start - 1]]
    else
      d[bn] == d0[bn]
  }

  ghost predicate LogFilled(d: Disk, d0: Disk, v0: Disk, block: seq<nat>, t: nat, l: Layout) {
    && |d| == |d0| && t <= |block|
    && forall bn: nat :: bn < |d| ==> FilledAt(d, d0, v0, block, t, l, bn)
  }

  // The disks that write_log() leaves one after another.
  ghost predicate FilledSteps(more: seq<Disk>, d0: Disk, v0: Disk, block: seq<nat>, l: Layout) {
    forall k: nat :: k < |more| ==> FilledStep(more, d0, v0, block, l, k)
  }

  ghost predicate FilledStep(more: seq<Disk>, d0: Disk, v0: Disk, block: seq<nat>, l: Layout, k: nat)
    requires k < |more|
  {
    LogFilled(more[k], d0, v0, block, k + 1, l)
  }

  lemma FilledMore(more: seq<Disk>, d: Disk, d0: Disk, v0: Disk, block: seq<nat>, l: Layout)
    requires FilledSteps(more, d0, v0, block, l) && LogFilled(d, d0, v0, block, |more| + 1, l)
    ensures FilledSteps(more + [d], d0, v0, block, l)
  {
    var r := more + [d];
    forall k: nat | k < |r| ensures FilledStep(r, d0, v0, block, l, k) {
      if k < |more| { assert FilledStep(more, d0, v0, block, l, k); }
    }
  }

  // The home blocks of a view are unchanged.
  ghost predicate SameHome(view: Disk, v0: Disk, l: Layout) {
    |view| == |v0| && forall bn: nat :: bn < |v0| && !l.IsLog(bn) ==> view[bn] == v0[bn]
  }

  // The words of a header block for the first n entries of `block`, over old words.
  ghost predicate IsHeader(w: Block, w0: Block, n: nat, block: seq<nat>)
  {
    && n <= |block| && |w| == |w0| && n < |w|
    && w[0] == n
    && (forall i :: 0 <= i < n ==> w[1 + i] == block[i])
    && (forall i :: n < i < |w| ==> w[i] == w0[i])
  }

  ghost predicate Loggable(block: seq<nat>, n: nat, d: Disk, l: Layout) {
    && n <= |block| && n <= l.cap && n < l.size
    && (forall i :: 0 <= i < n ==> HomeBlock(d, l, block[i]))
    && (forall i, j :: 0 <= i < j < n ==> block[i] != block[j])
  }

  lemma FillStep(d: Disk, d0: Disk, v0: Disk, block: seq<nat>, t: nat, l: Layout)
    requires LogFilled(d, d0, v0, block, t, l) && t < |block| && block[t] < |v0| && l.start + t + 1 < |d|
    ensures LogFilled(d[l.start + t + 1 := v0[block[t]]], d0, v0, block, t + 1, l)
  {
    var e, t' := d[l.start + t + 1 := v0[block[t]]], t + 1;
    forall bn: nat | bn < |e| ensures FilledAt(e, d0, v0, block, t', l, bn) {
      assert FilledAt(d, d0, v0, block, t, l, bn);
    }
  }

  lemma NotLogged(block: seq<nat>, n: nat, d: Disk, l: Layout, bn: nat)
    requires Loggable(block, n, d, l) && l.IsLog(bn)
    ensures bn !in block[..n]
  {
    forall i | 0 <= i < n ensures block[i] != bn {
      assert HomeBlock(d, l, block[i]);
    }
  }

  lemma SameLoggable(block: seq<nat>, n: nat, d: Disk, e: Disk, l: Layout)
    requires Loggable(block, n, d, l) && |e| == |d|
    ensures Loggable(block, n, e, l)
  {
    forall i | 0 <= i < n ensures HomeBlock(e, l, block[i]) {
      assert HomeBlock(d, l, block[i]);
    }
  }

  // The disks that t steps of install_trans() leave one after another.
  ghost function InstallTrace(d: Disk, l: Layout, t: nat): (r: seq<Disk>)
    requires LogOk(d, l) && t <= Count(d, l)
    ensures |r| == t
  {
    if t == 0 then [] else InstallTrace(d, l, t - 1) + [Install(d, l, t)]
  }

  lemma {:induction false} InstallTraceAt(d: Disk, l: Layout, t: nat, k: nat)
    requires LogOk(d, l) && k < t <= Count(d, l)
    ensures InstallTrace(d, l, t)[k] == Install(d, l, k + 1)
  {
    if k < t - 1 {
      InstallTraceAt(d, l, t - 1, k);
    }
  }

  // Enough idle buffers for install_trans(): two, or one when every target is
  // pinned and so cached.
  ghost predicate RoomToInstall(bufs: seq<Buf>, held: map<int, Buf>, block: seq<nat>, n: nat)
    requires n <= |block|
  {
    || |Pinned(bufs)| + |held| + 1 < |bufs|
    || (|Pinned(bufs)| + |held| < |bufs|
        && (forall i :: 0 <= i < n ==> PinnedBlock(bufs, block[i]))
        && (forall i, j :: 0 <= i < j < n ==> block[i] != block[j]))
  }

  // Installing the first t blocks unpins them.
  ghost predicate PinsAfter(bufs0: seq<Buf>, bufs: seq<Buf>, block: seq<nat>, t: nat)
    requires t <= |block|
  {
    forall bn: nat :: PinnedBlock(bufs, bn) <==> PinnedBlock(bufs0, bn) && bn !in block[..t]
  }

  lemma RoomAt(bufs0: seq<Buf>, bufs: seq<Buf>, held: map<int, Buf>, block: seq<nat>, n: nat, t: nat, x: nat)
    requires t < n <= |block| && RoomToInstall(bufs0, held, block, n)
    requires |bufs| == |bufs0| && Pinned(bufs) <= Pinned(bufs0)
    requires PinsAfter(bufs0, bufs, block, t)
    ensures RoomToCopy(bufs, held, x, block[t])
  {
    SubsetSize(Pinned(bufs), Pinned(bufs0));
    if |Pinned(bufs0)| + |held| + 1 >= |bufs0| {
      assert PinnedBlock(bufs0, block[t]) && block[t] !in block[..t];
    }
  }

  lemma TakeOne(block: seq<nat>, t: nat)
    requires t < |block|
    ensures forall bn: nat :: bn in block[..t + 1] <==> bn in block[..t] || bn == block[t]
  {
    assert block[..t + 1] == block[..t] + [block[t]];
  }

  // Filling the log does not change what recovery gives.
  lemma FilledRecovers(d: Disk, d0: Disk, v0: Disk, img: Disk, block: seq<nat>, t: nat, l: Layout)
    requires RecoversTo(d0, img, l) && Count(d0, l) == 0 && t < l.size
    requires LogFilled(d, d0, v0, block, t, l)
    ensures RecoversTo(d, img, l) && Count(d, l) == 0
  {
    forall bn: nat | bn < |d| && (bn == l.start || !l.IsLog(bn)) ensures d[bn] == d0[bn] {
      assert FilledAt(d, d0, v0, block, t, l, bn);
    }
  }

  lemma {:induction false} LastEntryFinds(d: Disk, l: Layout, t: nat, bn: nat, i: nat)
    requires LogOk(d, l) && t <= Count(d, l) && i < t && Target(d, l, i) == bn
    ensures LastEntry(d, l, t, bn) >= 0
  {
    if t - 1 != i {
      LastEntryFinds(d, l, t - 1, bn, i);
    }
  }

  lemma {:induction false} LastEntryTarget(d: Disk, l: Layout, t: nat, bn: nat)
    requires LogOk(d, l) && t <= Count(d, l) && LastEntry(d, l, t, bn) >= 0
    ensures Target(d, l, LastEntry(d, l, t, bn)) == bn
  {
    if t > 0 && Target(d, l, t - 1) != bn {
      LastEntryTarget(d, l, t - 1, bn);
    }
  }

  lemma HeaderEntries(h: Disk, w0: Block, block: seq<nat>, n: nat, l: Layout)
    requires l.size > 0 && l.start + l.size <= |h| && |w0| > l.cap
    requires IsHeader(h[l.start], w0, n, block) && Loggable(block, n, h, l)
    ensures LogOk(h, l) && Count(h, l) == n
    ensures forall i :: 0 <= i < n ==> Target(h, l, i) == block[i]
  {
    forall i | 0 <= i < Count(h, l) ensures HomeBlock(h, l, Entry(h, l, i)) && Entry(h, l, i) == block[i] {
      assert HomeBlock(h, l, block[i]);
    }
  }

  // Writing the header is the commit: recovery now gives the view.
  lemma HeaderCommits(h: Disk, d: Disk, d0: Disk, v0: Disk, w0: Block, block: seq<nat>, n: nat, l: Layout)
    requires l.size > 0 && l.start + l.size <= |h| && |w0| > l.cap
    requires |h| == |d| == |d0| == |v0| && LogFilled(d, d0, v0, block, n, l)
    requires forall bn :: 0 <= bn < |h| && bn != l.start ==> h[bn] == d[bn]
    requires IsHeader(h[l.start], w0, n, block) && Loggable(block, n, h, l)
    requires forall bn: nat :: bn < |d0| && !l.IsLog(bn) && bn !in block[..n] ==> d0[bn] == v0[bn]
    ensures RecoversTo(h, v0, l) && Count(h, l) == n
    ensures forall i :: 0 <= i < n ==> Target(h, l, i) == block[i]
  {
    HeaderEntries(h, w0, block, n, l);
    var r := Recovered(h, l);
    forall bn: nat | bn < |h| && !l.IsLog(bn) ensures r[bn] == v0[bn] {
      InstallAt(h, l, n, bn);
      var e := LastEntry(h, l, n, bn);
      if e >= 0 {
        LastEntryTarget(h, l, n, bn);
        assert FilledAt(d, d0, v0, block, n, l, l.start + 1 + e);
        assert h[l.start + 1 + e] == d[l.start + 1 + e] == v0[block[e]];
      } else {
        forall i | 0 <= i < n ensures block[i] != bn {
          if block[i] == bn { LastEntryFinds(h, l, n, bn, i); }
        }
        assert bn !in block[..n];
        assert FilledAt(d, d0, v0, block, n, l, bn);
      }
    }
  }

  lemma BootStart(bufs: seq<Buf>, disk: seq<Block>, view: seq<Block>)
    requires forall i :: 0 <= i < |bufs| ==> bufs[i] == Buf(0, 0, false, false, 0, false, [])
    ensures Quiet(bufs) && Pinned(bufs) == {}
  {
    assert forall i :: 0 <= i < |bufs| ==> !bufs[i].dirty;
  }

  lemma Unpinned(bufs: seq<Buf>)
    requires Pinned(bufs) == {}
    ensures forall bn: nat :: !PinnedBlock(bufs, bn)
  {
    assert forall i :: 0 <= i < |bufs| && bufs[i].dirty ==> i in Pinned(bufs);
  }

  lemma ClearedIs(d: Disk, e: Disk, block: seq<nat>, l: Layout)
    requires HeaderFits(d, l) && |e| == |d| && e == d[l.start := e[l.start]] && IsHeader(e[l.start], d[l.start], 0, block)
    ensures e == Cleared(d, l)
  {
    assert e[l.start] == d[l.start][0 := 0];
  }

  // ----- reservations -----

  // A process is outside any operation, or inside operation `id`, which may
  // still add `left` blocks to the log.
  datatype Op = Out | In(id: nat, left: nat)

  ghost function Active(ops: seq<Op>): nat {
    if ops == [] then 0 else (if ops[0].In? then 1 else 0) + Active(ops[1..])
  }

  ghost function Unused(ops: seq<Op>): nat {
    if ops == [] then 0 else (if ops[0].In? then ops[0].left else 0) + Unused(ops[1..])
  }

  lemma {:induction false} SetOp(ops: seq<Op>, p: nat, o: Op)
    requires p < |ops|
    ensures Active(ops[p := o]) == Active(ops) - (if ops[p].In? then 1 else 0) + (if o.In? then 1 else 0)
    ensures Unused(ops[p := o]) == Unused(ops) - (if ops[p].In? then ops[p].left else 0) + (if o.In? then o.left else 0)
    ensures ops[p].In? ==> Active(ops) > 0 && Unused(ops) >= ops[p].left
  {
    if p == 0 {
      assert ops[0 := o][1..] == ops[1..];
    } else {
      assert ops[p := o][1..] == ops[1..][p - 1 := o];
      SetOp(ops[1..], p - 1, o);
    }
  }

  lemma {:induction false} UnusedBound(ops: seq<Op>, m: nat)
    requires forall p :: 0 <= p < |ops| && ops[p].In? ==> ops[p].left <= m
    ensures Unused(ops) <= Active(ops) * m
  {
    if ops != [] {
      UnusedBound(ops[1..], m);
      assert (1 + Active(ops[1..])) * m == m + Active(ops[1..]) * m;
    }
  }

  // The space that operations in flight may still use is reserved for them.
  ghost predicate Reserved(outstanding: nat, committing: bool, n: nat, ops: seq<Op>, maxop: nat, cap: nat) {
    && outstanding == Active(ops)
    && n + Unused(ops) <= cap
    && (committing ==> outstanding == 0)
    && forall p :: 0 <= p < |ops| && ops[p].In? ==> ops[p].left <= maxop
  }

  // Operations in flight have begun after the last snapshot.
  ghost predicate Current(ops: seq<Op>, since: nat, nextId: nat) {
    since <= nextId && forall p :: 0 <= p < |ops| && ops[p].In? ==> since <= ops[p].id < nextId
  }

  // A commit empties the log; no operation is in flight.
  lemma CommitReserved(outstanding: nat, n: nat, ops: seq<Op>, maxop: nat, cap: nat, since: nat, nextId: nat)
    requires Reserved(outstanding, true, n, ops, maxop, cap) && Current(ops, since, nextId)
    ensures Reserved(outstanding, false, 0, ops, maxop, cap)
    ensures Current(ops, nextId, nextId) && since <= nextId
  {
    NoneActive(ops);
  }

  lemma BeginReserved(outstanding: nat, n: nat, ops: seq<Op>, maxop: nat, cap: nat, p: nat, id: nat)
    requires Reserved(outstanding, false, n, ops, maxop, cap) && p < |ops| && ops[p].Out?
    requires n + (outstanding + 1) * maxop <= cap
    ensures Reserved(outstanding + 1, false, n, ops[p := In(id, maxop)], maxop, cap)
  {
    SetOp(ops, p, In(id, maxop));
    UnusedBound(ops, maxop);
    assert (outstanding + 1) * maxop == outstanding * maxop + maxop;
  }

  // The operations after one of them has logged a block.
  ghost function AfterWrite(ops: seq<Op>, p: nat, absorbed: bool): (r: seq<Op>)
    requires p < |ops| && ops[p].In? && (absorbed || ops[p].left > 0)
  {
    if absorbed then ops else ops[p := In(ops[p].id, ops[p].left - 1)]
  }

  lemma WriteOps(outstanding: nat, committing: bool, n: nat, ops: seq<Op>, maxop: nat, cap: nat,
      since: nat, nextId: nat, p: nat, absorbed: bool)
    requires Reserved(outstanding, committing, n, ops, maxop, cap) && Current(ops, since, nextId)
    requires p < |ops| && ops[p].In? && (absorbed || ops[p].left > 0)
    ensures !absorbed ==> n < cap
    ensures var ops' := AfterWrite(ops, p, absorbed);
      && Reserved(outstanding, committing, if absorbed then n else n + 1, ops', maxop, cap)
      && Current(ops', since, nextId)
  {
    if !absorbed {
      WriteReserved(outstanding, committing, n, ops, maxop, cap, p);
    }
  }

  // A new block uses up a reserved one; an absorbed block does not.
  lemma WriteReserved(outstanding: nat, committing: bool, n: nat, ops: seq<Op>, maxop: nat, cap: nat, p: nat)
    requires Reserved(outstanding, committing, n, ops, maxop, cap) && p < |ops| && ops[p].In? && ops[p].left > 0
    ensures n < cap
    ensures Reserved(outstanding, committing, n + 1, ops[p := In(ops[p].id, ops[p].left - 1)], maxop, cap)
  {
    SetOp(ops, p, In(ops[p].id, ops[p].left - 1));
  }

  // The entries after log_write() has put bn at position i: at its old place,
  // or at the end.
  lemma LogEntry(block: seq<nat>, n: nat, d: Disk, l: Layout, i: nat, bn: nat)
    requires Loggable(block, n, d, l) && i <= n < |block| && n < l.cap && n < l.size - 1 && HomeBlock(d, l, bn)
    requires bn !in block[..i] && (i < n ==> block[i] == bn)
    ensures var n' := if i == n then n + 1 else n;
      && Loggable(block[i := bn], n', d, l)
      && (forall b: nat :: b in block[i := bn][..n'] <==> b in block[..n] || b == bn)
    ensures i < n <==> bn in block[..n]
  {
    var block' := block[i := bn];
    if i == n {
      assert block'[..n + 1] == block[..n] + [bn];
      forall a, b | 0 <= a < b < n + 1 ensures block'[a] != block'[b] {
        if b == n { assert block[..n][a] == block'[a]; }
      }
    } else {
      assert block' == block;
      assert block[..n][i] == bn;
    }
  }

  // Every disk in the history recovers to a snapshot, and later disks never
  // recover to an earlier snapshot.
  ghost predicate History(hist: seq<Disk>, stage: seq<nat>, snaps: seq<Disk>, l: Layout)
    decreases |hist|
  {
    && |stage| == |hist|
    && (hist != [] ==>
      var k := |hist| - 1;
      && stage[k] < |snaps| && RecoversTo(hist[k], snaps[stage[k]], l)
      && (k > 0 ==> stage[k - 1] <= stage[k])
      && History(hist[..k], stage[..k], snaps, l))
  }

  lemma {:induction false} HistoryAt(hist: seq<Disk>, stage: seq<nat>, snaps: seq<Disk>, l: Layout, j: nat, k: nat)
    requires History(hist, stage, snaps, l) && j <= k < |hist|
    ensures |stage| == |hist| && stage[j] <= stage[k] < |snaps| && RecoversTo(hist[k], snaps[stage[k]], l)
    decreases |hist|
  {
    var m := |hist| - 1;
    if k < m {
      HistoryAt(hist[..m], stage[..m], snaps, l, j, k);
    } else if j < m {
      HistoryAt(hist[..m], stage[..m], snaps, l, j, m - 1);
    }
  }

  lemma BootDisks(hist: seq<Disk>, image: Disk, l: Layout)
    requires LogOk(image, l) && hist == [image] + FinishTrace(image, l)
    ensures forall k :: 0 <= k < |hist| ==> hist[k] == CutOff(image, l, k)
    ensures forall k :: 0 <= k < |hist| ==> RecoversTo(hist[k], Recovered(image, l), l)
  {
    FinishCuts(image, l);
    forall k: nat | k < |hist| ensures hist[k] == CutOff(image, l, k) && RecoversTo(hist[k], Recovered(image, l), l) {
      CutOffKeeps(image, l, k);
      if k > 0 { assert hist[k] == FinishTrace(image, l)[k - 1]; }
    }
  }

  lemma BootHistory(hist: seq<Disk>, image: Disk, l: Layout)
    requires LogOk(image, l) && hist == [image] + FinishTrace(image, l)
    ensures History(hist, Times(|hist|, 0), [Recovered(image, l)], l)
    ensures var d := Cleared(Recovered(image, l), l);
      HeaderFits(d, l) && Count(d, l) == 0 && HomeEq(d, Recovered(image, l), l)
  {
    BootDisks(hist, image, l);
    MoreHistory([], [], [Recovered(image, l)], l, hist);
    assert [] + hist == hist && [] + Times(|hist|, 0) == Times(|hist|, 0);
    InstallLogOk(image, l, Count(image, l));
    ClearedOk(Recovered(image, l), l);
  }

  ghost function Times(n: nat, s: nat): (r: seq<nat>)
    ensures |r| == n && forall k :: 0 <= k < n ==> r[k] == s
  {
    seq(n, _ => s)
  }

  lemma TimesSnoc(x: seq<nat>, m: nat, s: nat)
    ensures x + Times(m + 1, s) == x + Times(m, s) + [s]
  {
  }

  lemma SnocAssoc<T>(x: seq<T>, y: seq<T>)
    requires y != []
    ensures x + y == x + y[..|y| - 1] + [y[|y| - 1]]
  {
  }

  lemma HistorySnoc(hist: seq<Disk>, stage: seq<nat>, snaps: seq<Disk>, l: Layout, d: Disk)
    requires History(hist, stage, snaps, l) && snaps != [] && RecoversTo(d, snaps[|snaps| - 1], l)
    ensures History(hist + [d], stage + [|snaps| - 1], snaps, l)
  {
    var h, s := hist + [d], stage + [|snaps| - 1];
    assert h[..|hist|] == hist && s[..|hist|] == stage;
    if hist != [] {
      HistoryAt(hist, stage, snaps, l, |hist| - 1, |hist| - 1);
    }
  }

  lemma {:induction false} MoreHistory(hist: seq<Disk>, stage: seq<nat>, snaps: seq<Disk>, l: Layout, more: seq<Disk>)
    requires History(hist, stage, snaps, l) && snaps != []
    requires forall k :: 0 <= k < |more| ==> RecoversTo(more[k], snaps[|snaps| - 1], l)
    ensures History(hist + more, stage + Times(|more|, |snaps| - 1), snaps, l)
    decreases |more|
  {
    var top := |snaps| - 1;
    if more == [] {
      assert hist + more == hist && stage + Times(0, top) == stage;
    } else {
      var m := |more| - 1;
      var h, s := hist + more[..m], stage + Times(m, top);
      MoreHistory(hist, stage, snaps, l, more[..m]);
      HistorySnoc(h, s, snaps, l, more[m]);
      SnocAssoc(hist, more);
      TimesSnoc(stage, m, top);
    }
  }

  lemma {:induction false} MoreSnaps(hist: seq<Disk>, stage: seq<nat>, snaps: seq<Disk>, l: Layout, img: Disk)
    requires History(hist, stage, snaps, l)
    ensures History(hist, stage, snaps + [img], l)
    decreases |hist|
  {
    if hist != [] {
      var k := |hist| - 1;
      MoreSnaps(hist[..k], stage[..k], snaps, l, img);
      assert (snaps + [img])[stage[k]] == snaps[stage[k]];
    }
  }

  lemma {:induction false} AllOut(ops: seq<Op>)
    requires forall p :: 0 <= p < |ops| ==> ops[p] == Out
    ensures Active(ops) == 0 && Unused(ops) == 0
  {
    if ops != [] { AllOut(ops[1..]); }
  }

  lemma NoPinsView(bufs: seq<Buf>, disk: seq<Block>, view: seq<Block>)
    requires Settled(bufs, disk, view) && forall bn: nat :: !PinnedBlock(bufs, bn)
    ensures view == disk
  {
  }

  // ----- operations -----

  // One logged write of operation `id`.
  datatype Write = Write(id: nat, bn: nat, data: Block)

  ghost function Replay(d: Disk, ws: seq<Write>): (r: Disk)
    ensures |r| == |d|
  {
    if ws == [] then d else
      var p, w := Replay(d, ws[..|ws| - 1]), ws[|ws| - 1];
      if w.bn < |p| then p[w.bn := w.data] else p
  }

  // A snapshot: the number of writes it contains, and the first operation that
  // was begun after it.
  datatype Mark = Mark(len: nat, id: nat)

  // No operation has writes on both sides of a mark.
  // A block holds what was last written to it.
  lemma {:induction false} ReplayAt(d: Disk, ws: seq<Write>, bn: nat, e: int)
    requires bn < |d| && -1 <= e < |ws| && (e >= 0 ==> ws[e].bn == bn) && forall i :: e < i < |ws| ==> ws[i].bn != bn
    ensures Replay(d, ws)[bn] == if e >= 0 then ws[e].data else d[bn]
  {
    if ws != [] && e < |ws| - 1 {
      ReplayAt(d, ws[..|ws| - 1], bn, e);
    }
  }

  ghost predicate Unsplit(trace: seq<Write>, m: Mark) {
    && m.len <= |trace|
    && (forall i :: 0 <= i < m.len ==> trace[i].id < m.id)
    && (forall i :: m.len <= i < |trace| ==> trace[i].id >= m.id)
  }

  ghost predicate Whole(base: Disk, trace: seq<Write>, marks: seq<Mark>, snaps: seq<Disk>, l: Layout)
    decreases |marks|
  {
    && |marks| == |snaps|
    && (marks != [] ==>
      var k := |marks| - 1;
      && Unsplit(trace, marks[k]) && HomeEq(snaps[k], Replay(base, trace[..marks[k].len]), l)
      && Whole(base, trace, marks[..k], snaps[..k], l))
  }

  lemma {:induction false} WholeAt(base: Disk, trace: seq<Write>, marks: seq<Mark>, snaps: seq<Disk>, l: Layout, k: nat)
    requires Whole(base, trace, marks, snaps, l) && k < |snaps|
    ensures |marks| == |snaps| && Unsplit(trace, marks[k])
    ensures HomeEq(snaps[k], Replay(base, trace[..marks[k].len]), l)
    decreases |marks|
  {
    var m := |marks| - 1;
    if k < m {
      WholeAt(base, trace, marks[..m], snaps[..m], l, k);
    }
  }

  ghost predicate Numbered(trace: seq<Write>, marks: seq<Mark>, since: nat, nextId: nat) {
    && (forall i :: 0 <= i < |trace| ==> trace[i].id < nextId)
    && (forall k :: 0 <= k < |marks| ==> marks[k].id <= since)
    && (forall j, k :: 0 <= j <= k < |marks| ==> marks[j].id <= marks[k].id)
  }

  lemma {:induction false} WholeWrite(base: Disk, trace: seq<Write>, marks: seq<Mark>, snaps: seq<Disk>, l: Layout, w: Write)
    requires Whole(base, trace, marks, snaps, l) && forall k :: 0 <= k < |marks| ==> w.id >= marks[k].id
    ensures Whole(base, trace + [w], marks, snaps, l)
    decreases |marks|
  {
    if marks != [] {
      var k := |marks| - 1;
      WholeWrite(base, trace, marks[..k], snaps[..k], l, w);
      assert Unsplit(trace, marks[k]);
      assert (trace + [w])[..marks[k].len] == trace[..marks[k].len];
    }
  }

  lemma WholeMark(base: Disk, trace: seq<Write>, marks: seq<Mark>, snaps: seq<Disk>, l: Layout, id: nat, img: Disk)
    requires Whole(base, trace, marks, snaps, l) && (forall i :: 0 <= i < |trace| ==> trace[i].id < id)
    requires HomeEq(img, Replay(base, trace), l)
    ensures Whole(base, trace, marks + [Mark(|trace|, id)], snaps + [img], l)
  {
    assert trace[..|trace|] == trace;
    assert (marks + [Mark(|trace|, id)])[..|marks|] == marks && (snaps + [img])[..|marks|] == snaps;
  }

  // A commit does not touch the held buffers.
  ghost predicate Untouched(held: map<int, Buf>, block: seq<nat>, n: nat, l: Layout)
    requires n <= |block|
  {
    forall bn: nat :: l.IsLog(bn) || bn in block[..n] ==> Aside(held, bn)
  }

  ghost predicate LoggedOn(bufs: seq<Buf>, disk: Disk, n: nat, block: seq<nat>, l: Layout) {
    && |block| == l.cap && Loggable(block, n, disk, l)
    && |Pinned(bufs)| <= n
    && (forall bn: nat :: PinnedBlock(bufs, bn) <==> bn in block[..n])
  }

  lemma EmptyLog(bufs: seq<Buf>, disk: Disk, block: seq<nat>, l: Layout)
    requires Pinned(bufs) == {} && |block| == l.cap && l.size > 0
    ensures LoggedOn(bufs, disk, 0, block, l)
  {
    Unpinned(bufs);
    assert block[..0] == [];
  }

  // Every disk recovers to a snapshot, and the last one to the last.
  ghost predicate StagedOn(hist: seq<Disk>, stage: seq<nat>, snaps: seq<Disk>, l: Layout) {
    && snaps != [] && stage != [] && stage[|stage| - 1] == |snaps| - 1
    && History(hist, stage, snaps, l)
  }

  ghost predicate DurableOn(disk: Disk, hist: seq<Disk>, stage: seq<nat>, snaps: seq<Disk>, l: Layout) {
    HeaderFits(disk, l) && Count(disk, l) == 0 && StagedOn(hist, stage, snaps, l)
  }

  ghost predicate TracedBy(view: Disk, base: Disk, trace: seq<Write>, marks: seq<Mark>, snaps: seq<Disk>,
      since: nat, nextId: nat, l: Layout)
  {
    && Whole(base, trace, marks, snaps, l)
    && HomeEq(view, Replay(base, trace), l)
    && Numbered(trace, marks, since, nextId)
  }

  lemma KeepTraced(view: Disk, view': Disk, base: Disk, trace: seq<Write>, marks: seq<Mark>, snaps: seq<Disk>,
      since: nat, nextId: nat, l: Layout)
    requires TracedBy(view, base, trace, marks, snaps, since, nextId, l) && HomeEq(view', view, l)
    ensures TracedBy(view', base, trace, marks, snaps, since, nextId, l)
  {
  }

  lemma CommitTraced(view: Disk, view': Disk, base: Disk, trace: seq<Write>, marks: seq<Mark>, snaps: seq<Disk>,
      since: nat, nextId: nat, l: Layout)
    requires TracedBy(view, base, trace, marks, snaps, since, nextId, l) && since <= nextId
    requires HomeEq(view', view, l)
    ensures TracedBy(view', base, trace, marks + [Mark(|trace|, nextId)], snaps + [view], nextId, nextId, l)
  {
    WholeMark(base, trace, marks, snaps, l, nextId, view);
    NumberedMark(trace, marks, since, nextId);
  }

  lemma NumberedMark(trace: seq<Write>, marks: seq<Mark>, since: nat, nextId: nat)
    requires Numbered(trace, marks, since, nextId) && since <= nextId
    ensures Numbered(trace, marks + [Mark(|trace|, nextId)], nextId, nextId)
  {
  }

  lemma WriteTraced(view: Disk, base: Disk, trace: seq<Write>, marks: seq<Mark>, snaps: seq<Disk>,
      since: nat, nextId: nat, l: Layout, w: Write)
    requires TracedBy(view, base, trace, marks, snaps, since, nextId, l)
    requires since <= w.id < nextId && w.bn < |view|
    ensures TracedBy(view[w.bn := w.data], base, trace + [w], marks, snaps, since, nextId, l)
  {
    WholeWrite(base, trace, marks, snaps, l, w);
    assert (trace + [w])[..|trace|] == trace;
  }

  lemma BootTraced(view: Disk, img: Disk, l: Layout)
    requires HomeEq(view, img, l)
    ensures TracedBy(view, view, [], [Mark(0, 0)], [img], 0, 0, l)
  {
    var t: seq<Write> := [];
    assert t[..0] == [];
  }

  class LogState {
    const c: Cache
    const l: Layout
    const maxop: nat
    var outstanding: nat
    var committing: bool
    var n: nat                     // lh.n
    var block: seq<nat>            // lh.block

    ghost var ops: seq<Op>         // the operation of each process
    ghost var snaps: seq<Disk>     // the view at each moment without operations that was committed
    ghost var stage: seq<nat>      // the snapshot that each disk in the history recovers to

    ghost var base: Disk           // the disk after boot
    ghost var trace: seq<Write>    // all logged writes since
    ghost var marks: seq<Mark>     // where the snapshots lie in the trace
    ghost var nextId: nat
    ghost var since: nat           // the first operation begun after the last snapshot

    // The pinned buffers are those of the logged blocks.
    ghost predicate Logged()
      reads this`n, this`block, c
    {
      LoggedOn(c.bufs, c.disk, n, block, l)
    }

    ghost predicate OnDisk()
      reads c
    {
      && l.size > 0 && l.start + l.size <= |c.disk|
      && (l.cap < c.nbuf || l.size <= c.nbuf)
    }

    // Readers hold these buffers, of blocks that a commit does not touch, and leave
    // enough of them.
    ghost predicate Readers(held: map<int, Buf>)
      reads this`n, this`block
    {
      n <= |block| && n + |held| < c.nbuf && Untouched(held, block, n, l)
    }

    // The view is the replay of all writes; the snapshots split no operation.
    ghost predicate Traced()
      reads this`base, this`trace, this`marks, this`snaps, this`since, this`nextId, c
    {
      TracedBy(c.view, base, trace, marks, snaps, since, nextId, l)
    }

    // The log on disk is empty and the home blocks are those of the last snapshot.
    ghost predicate Durable()
      reads this`snaps, this`stage, c
    {
      DurableOn(c.disk, c.hist, stage, snaps, l)
    }

    ghost predicate Core()
      reads this`n, this`block, this`snaps, this`stage, c
    {
      c.Valid() && Settled(c.bufs, c.disk, c.view) && OnDisk() && Logged() && Durable()
    }

    ghost predicate Valid()
      reads this, c
    {
      && Core()
      && Traced()
      && Reserved(outstanding, committing, n, ops, maxop, l.cap) && Current(ops, since, nextId)
    }

    // A machine that has just been switched on, with whatever a crash has left
    // on the disk.
    constructor Boot(image: Disk, nbuf: nat, layout: Layout, maxOps: nat, procs: nat)
      ensures c.Valid() && Quiet(c.bufs) && Pinned(c.bufs) == {} && fresh(c)
      ensures c.nbuf == nbuf && c.disk == c.view == image && c.hist == [image] && l == layout && maxop == maxOps
      ensures n == outstanding == 0 && !committing && |block| == layout.cap && ops == seq(procs, _ => Out)
    {
      c := new Cache(nbuf, image);
      l := layout;
      maxop := maxOps;
      outstanding, committing := 0, false;
      n := 0;
      block := seq(layout.cap, _ => 0);
      ops := seq(procs, _ => Out);
      new;
      BootStart(c.bufs, c.disk, c.view);
    }

    // initlog(): recover.
    method InitLog(ghost image: Disk)
      requires c.Valid() && Quiet(c.bufs) && Pinned(c.bufs) == {} && c.disk == image && c.hist == [image]
      requires LogOk(image, l) && c.nbuf >= 2 && (l.cap < c.nbuf || l.size <= c.nbuf) && |block| == l.cap
      requires outstanding == 0 && !committing && forall p :: 0 <= p < |ops| ==> ops[p] == Out
      modifies this`n, this`block, c, this`snaps, this`stage, this`base, this`trace, this`marks, this`nextId, this`since
      ensures Valid() && Quiet(c.bufs) && n == 0 && c.view == c.disk && HomeEq(c.disk, Recovered(image, l), l)
      ensures base == c.disk && trace == [] && nextId == 0
      // the disk after k writes is that of a recovery cut off after k writes
      ensures forall k :: 0 <= k < |c.hist| ==> c.hist[k] == CutOff(image, l, k)
    {
      RecoverFromLog(image);
      StartRecords(image);
      AllOut(ops);
      EmptyLog(c.bufs, c.disk, block, l);
    }

    // After boot the one snapshot is what recovery made of the image.
    ghost method StartRecords(image: Disk)
      requires LogOk(image, l) && c.hist == [image] + FinishTrace(image, l) && c.view == c.disk == Cleared(Recovered(image, l), l)
      modifies this`snaps, this`stage, this`base, this`trace, this`marks, this`nextId, this`since
      ensures Durable() && Traced() && since == nextId == 0 && base == c.disk && trace == []
      ensures HomeEq(c.disk, Recovered(image, l), l)
      ensures forall k :: 0 <= k < |c.hist| ==> c.hist[k] == CutOff(image, l, k)
    {
      BootHistory(c.hist, image, l);
      BootDisks(c.hist, image, l);
      snaps, stage := [Recovered(image, l)], Times(|c.hist|, 0);
      base, trace, marks, nextId, since := c.disk, [], [Mark(0, 0)], 0, 0;
      BootTraced(c.view, snaps[0], l);
    }

    // recover_from_log()
    method RecoverFromLog(ghost image: Disk)
      requires c.Valid() && Quiet(c.bufs) && Pinned(c.bufs) == {} && c.nbuf > 1
      requires LogOk(image, l) && |block| == l.cap && c.disk == image
      modifies this`n, this`block, c
      ensures c.Valid() && Quiet(c.bufs) && Pinned(c.bufs) == {} && n == 0 && |block| == l.cap
      ensures c.view == c.disk == Cleared(Recovered(image, l), l)
      ensures c.hist == old(c.hist) + FinishTrace(image, l)
    {
      ReadHead();
      Unpinned(c.bufs);
      InstallAndClear(image, map[]);
    }

    // read_head()
    method ReadHead()
      requires c.Valid() && Quiet(c.bufs) && Pinned(c.bufs) == {} && c.nbuf > 0
      requires LogOk(c.disk, l) && |block| == l.cap
      modifies this`n, this`block, c
      ensures c.Valid() && Quiet(c.bufs) && Pinned(c.bufs) == {}
      ensures c.disk == old(c.disk) && c.hist == old(c.hist) && c.view == old(c.view)
      ensures n == Count(c.disk, l) && |block| == l.cap
      ensures forall i :: 0 <= i < n ==> block[i] == Target(c.disk, l, i)
    {
      ghost var bufs0 := c.bufs;
      Unpinned(c.bufs);
      FoundFirst(c.bufs, map[], l.start);
      var r := Read(c, l.start, map[]);
      var hb := c.bufs[r].data;
      n := hb[0];
      var i := 0;
      while i < n
        invariant i <= n && |block| == l.cap
        invariant forall k :: 0 <= k < i ==> block[k] == Target(c.disk, l, k)
        modifies this`block
      {
        assert HomeBlock(c.disk, l, Entry(c.disk, l, i));
        block := block[i := hb[1 + i]];
        i := i + 1;
      }
      c.Brelse(r);
      assert !bufs0[r].dirty;
      SamePins(bufs0, c.bufs, r);
    }

    // What recover_from_log(), after read_head(), and commit(), after the
    // header, both do: install the blocks, then clear the log.
    method InstallAndClear(ghost h: Disk, ghost held: map<int, Buf>)
      requires c.Valid() && Still(c.bufs, c.disk, c.view, held) && n <= |block| && RoomToInstall(c.bufs, held, block, n)
      requires |held| < c.nbuf && Untouched(held, block, n, l)
      requires LogOk(c.disk, l) && h == c.disk && Count(h, l) == n
      requires forall i :: 0 <= i < n ==> block[i] == Target(h, l, i)
      requires forall bn: nat :: PinnedBlock(c.bufs, bn) ==> bn in block[..n] && !l.IsLog(bn)
      modifies this`n, c
      ensures c.Valid() && Still(c.bufs, c.disk, c.view, held) && Pinned(c.bufs) == {} && n == 0
      ensures c.view == c.disk == Cleared(Recovered(h, l), l)
      ensures c.hist == old(c.hist) + FinishTrace(h, l)
    {
      InstallTrans(held);
      n := 0;
      InstallLogOk(h, l, Count(h, l));
      NoPins(c.bufs, c.disk, c.view);
      PutHeader(c, l.start, n, block, held);
      ClearedIs(Recovered(h, l), c.disk, block, l);
      NoPinsView(c.bufs, c.disk, c.view);
    }

    // write_log()
    method WriteLog(ghost held: map<int, Buf>)
      requires c.Valid() && Still(c.bufs, c.disk, c.view, held) && OnDisk() && Logged()
      requires Readers(held)
      modifies c
      ensures c.Valid() && Still(c.bufs, c.disk, c.view, held) && OnDisk() && Logged() && |c.disk| == |old(c.disk)| == |old(c.view)|
      ensures LogFilled(c.disk, old(c.disk), old(c.view), block, n, l)
      ensures |c.hist| == |old(c.hist)| + n && c.hist[..|old(c.hist)|] == old(c.hist)
      ensures FilledSteps(c.hist[|old(c.hist)|..], old(c.disk), old(c.view), block, l)
    {
      ghost var d0, v0, h0 := c.disk, c.view, c.hist;
      var tail := 0;
      while tail < n
        invariant FillState(tail, d0, v0, h0, held)
      {
        FillOne(tail, d0, v0, h0, held);
        tail := tail + 1;
      }
      SameLoggable(block, n, d0, c.disk, l);
    }

    // write_log() after `tail` blocks.
    ghost predicate FillState(tail: nat, d0: Disk, v0: Disk, h0: seq<Disk>, held: map<int, Buf>)
      reads this`n, this`block, c
    {
      && c.Valid() && Still(c.bufs, c.disk, c.view, held) && |c.disk| == |d0| == |v0| && |c.bufs| == c.nbuf
      && tail <= n && OnDisk() && Loggable(block, n, d0, l) && |block| == l.cap
      && |Pinned(c.bufs)| <= n && (forall bn: nat :: PinnedBlock(c.bufs, bn) <==> bn in block[..n])
      && LogFilled(c.disk, d0, v0, block, tail, l) && SameHome(c.view, v0, l)
      && |c.hist| == |h0| + tail && c.hist[..|h0|] == h0
      && FilledSteps(c.hist[|h0|..], d0, v0, block, l)
    }

    // The loop body of write_log().
    method FillOne(tail: nat, ghost d0: Disk, ghost v0: Disk, ghost h0: seq<Disk>, ghost held: map<int, Buf>)
      requires tail < n && FillState(tail, d0, v0, h0, held) && Readers(held)
      modifies c
      ensures FillState(tail + 1, d0, v0, h0, held)
    {
      FillBlock(tail, d0, v0, held);
      assert c.hist[|h0|..] == old(c.hist)[|h0|..] + [c.disk];
      FilledMore(old(c.hist)[|h0|..], c.disk, d0, v0, block, l);
    }

    method FillBlock(tail: nat, ghost d0: Disk, ghost v0: Disk, ghost held: map<int, Buf>)
      requires c.Valid() && Still(c.bufs, c.disk, c.view, held) && |c.disk| == |d0| == |v0| && |c.bufs| == c.nbuf && OnDisk()
      requires tail < n && Loggable(block, n, d0, l) && |block| == l.cap
      requires |Pinned(c.bufs)| <= n && forall bn: nat :: PinnedBlock(c.bufs, bn) <==> bn in block[..n]
      requires LogFilled(c.disk, d0, v0, block, tail, l) && SameHome(c.view, v0, l) && Readers(held)
      modifies c
      ensures c.Valid() && Still(c.bufs, c.disk, c.view, held) && |c.disk| == |d0| && |c.bufs| == c.nbuf
      ensures |Pinned(c.bufs)| <= n && forall bn: nat :: PinnedBlock(c.bufs, bn) <==> bn in block[..n]
      ensures LogFilled(c.disk, d0, v0, block, tail + 1, l) && c.hist == old(c.hist) + [c.disk]
      ensures SameHome(c.view, v0, l)
    {
      assert HomeBlock(d0, l, block[tail]) && PinnedBlock(c.bufs, block[tail]);
      FillStep(c.disk, d0, v0, block, tail, l);
      NotLogged(block, n, d0, l, l.start + tail + 1);
      ghost var pins := Pinned(c.bufs);
      Copy(c, block[tail], l.start + tail + 1, true, held);
      SubsetSize(Pinned(c.bufs), pins);
    }

    // install_trans()
    method InstallTrans(ghost held: map<int, Buf>)
      requires c.Valid() && Still(c.bufs, c.disk, c.view, held) && n <= |block| && RoomToInstall(c.bufs, held, block, n)
      requires LogOk(c.disk, l) && Count(c.disk, l) == n && n <= |block|
      requires forall i :: 0 <= i < n ==> block[i] == Target(c.disk, l, i)
      requires forall bn: nat :: l.IsLog(bn) ==> !PinnedBlock(c.bufs, bn)
      requires Untouched(held, block, n, l)
      modifies c
      ensures c.Valid() && Still(c.bufs, c.disk, c.view, held) && |c.disk| == |old(c.disk)|
      ensures c.disk == Install(old(c.disk), l, n)
      ensures Pinned(c.bufs) <= Pinned(old(c.bufs))
      ensures PinsAfter(old(c.bufs), c.bufs, block, n)
      ensures c.hist == old(c.hist) + InstallTrace(old(c.disk), l, n)
    {
      ghost var d0, h0, bufs0 := c.disk, c.hist, c.bufs;
      var tail := 0;
      while tail < n
        invariant InstallState(tail, d0, h0, bufs0, held)
      {
        InstallOne(tail, d0, h0, bufs0, held);
        tail := tail + 1;
      }
    }

    // install_trans() after `tail` blocks.
    ghost predicate InstallState(tail: nat, d0: Disk, h0: seq<Disk>, bufs0: seq<Buf>, held: map<int, Buf>)
      reads this`n, this`block, c
    {
      && c.Valid() && Still(c.bufs, c.disk, c.view, held) && LogOk(d0, l) && Count(d0, l) == n && tail <= n <= |block|
      && c.disk == Install(d0, l, tail) && c.hist == h0 + InstallTrace(d0, l, tail)
      && |c.bufs| == |bufs0| && Pinned(c.bufs) <= Pinned(bufs0) && PinsAfter(bufs0, c.bufs, block, tail)
    }

    // The loop body of install_trans().
    method InstallOne(tail: nat, ghost d0: Disk, ghost h0: seq<Disk>, ghost bufs0: seq<Buf>, ghost held: map<int, Buf>)
      requires tail < n && InstallState(tail, d0, h0, bufs0, held)
      requires block[tail] == Target(d0, l, tail) && RoomToInstall(bufs0, held, block, n)
      requires !PinnedBlock(bufs0, l.start + tail + 1) && Untouched(held, block, n, l)
      modifies c
      ensures InstallState(tail + 1, d0, h0, bufs0, held)
    {
      assert HomeBlock(d0, l, Target(d0, l, tail)) && l.IsLog(l.start + tail + 1);
      RoomAt(bufs0, c.bufs, held, block, n, tail, l.start + tail + 1);
      TakeOne(block, tail);
      CopyHome(tail, d0, held);
    }

    method CopyHome(tail: nat, ghost d0: Disk, ghost held: map<int, Buf>)
      requires c.Valid() && Still(c.bufs, c.disk, c.view, held) && LogOk(d0, l) && Count(d0, l) == n && tail < n <= |block|
      requires block[tail] == Target(d0, l, tail) && c.disk == Install(d0, l, tail)
      requires RoomToCopy(c.bufs, held, l.start + tail + 1, block[tail])
      requires !PinnedBlock(c.bufs, l.start + tail + 1) && Untouched(held, block, n, l)
      modifies c
      ensures c.Valid() && Still(c.bufs, c.disk, c.view, held) && |c.bufs| == |old(c.bufs)|
      ensures c.disk == Install(d0, l, tail + 1) && c.hist == old(c.hist) + [c.disk]
      ensures Pinned(c.bufs) <= Pinned(old(c.bufs))
      ensures forall bn: nat :: PinnedBlock(c.bufs, bn) <==> PinnedBlock(old(c.bufs), bn) && bn != block[tail]
    {
      assert HomeBlock(d0, l, Target(d0, l, tail)) && l.IsLog(l.start + tail + 1);
      Copy(c, l.start + tail + 1, block[tail], false, held);
    }

    // commit(), write_log(): disks still recover to the last snapshot.
    method FillLog(ghost held: map<int, Buf>)
      requires Core() && Calm(c.bufs, held) && n > 0
      requires Readers(held)
      modifies c, this`stage
      ensures Core() && Calm(c.bufs, held) && |c.disk| == |old(c.disk)| == |old(c.view)|
      ensures LogFilled(c.disk, old(c.disk), old(c.view), block, n, l)
      ensures old(c.hist) <= c.hist
    {
      ghost var d0, v0, h0, snap := c.disk, c.view, c.hist, snaps[|snaps| - 1];
      HistoryAt(h0, stage, snaps, l, |h0| - 1, |h0| - 1);
      WriteLog(held);
      ghost var more := c.hist[|h0|..];
      FilledHistory(more, d0, v0, snap, block, n, l);
      FilledRecovers(c.disk, d0, v0, snap, block, n, l);
      assert h0 + more == c.hist;
      RecordDisks(h0, more);
    }

    // More disks that recover to the last snapshot, the log ending up empty.
    ghost method RecordDisks(h0: seq<Disk>, more: seq<Disk>)
      requires c.Valid() && Settled(c.bufs, c.disk, c.view) && OnDisk() && Logged() && c.hist == h0 + more
      requires HeaderFits(c.disk, l) && Count(c.disk, l) == 0
      requires StagedOn(h0, stage, snaps, l)
      requires forall k :: 0 <= k < |more| ==> RecoversTo(more[k], snaps[|snaps| - 1], l)
      modifies this`stage
      ensures Core()
    {
      MoreHistory(h0, stage, snaps, l, more);
      stage := stage + Times(|more|, |snaps| - 1);
    }

    // commit(), up to the header: this write is the commit.  The header's disk
    // and all later ones recover to the view, a new snapshot.
    method Publish(ghost held: map<int, Buf>)
      requires Core() && Calm(c.bufs, held) && n > 0
      requires Readers(held)
      modifies c, this`snaps, this`stage
      ensures c.Valid() && Still(c.bufs, c.disk, c.view, held) && OnDisk() && Logged() && |c.disk| == |old(c.disk)|
      ensures LogOk(c.disk, l) && Count(c.disk, l) == n && forall i :: 0 <= i < n ==> block[i] == Target(c.disk, l, i)
      ensures snaps == old(snaps) + [old(c.view)] && StagedOn(c.hist, stage, snaps, l) && old(c.hist) <= c.hist
    {
      ghost var d0, v0 := c.disk, c.view;
      HomeDiffers(c.bufs, c.disk, c.view, block, n);
      FillLog(held);
      ghost var h1 := c.hist;
      assert StagedOn(h1, stage, snaps, l);
      WriteHeader(d0, v0, held);
      RecordHeader(h1, v0);
    }

    // The header's disk recovers to the new snapshot v0.
    ghost method RecordHeader(h1: seq<Disk>, v0: Disk)
      requires StagedOn(h1, stage, snaps, l)
      requires RecoversTo(c.disk, v0, l) && c.hist == h1 + [c.disk]
      modifies this`snaps, this`stage
      ensures snaps == old(snaps) + [v0] && StagedOn(c.hist, stage, snaps, l)
    {
      MoreSnaps(h1, stage, snaps, l, v0);
      snaps := snaps + [v0];
      MoreHistory(h1, stage, snaps, l, [c.disk]);
      stage := stage + Times(1, |snaps| - 1);
    }

    method WriteHeader(ghost d0: Disk, ghost v0: Disk, ghost held: map<int, Buf>)
      requires c.Valid() && Still(c.bufs, c.disk, c.view, held) && OnDisk() && Logged() && n > 0
      requires |c.disk| == |d0| == |v0| && LogFilled(c.disk, d0, v0, block, n, l) && HeaderFits(c.disk, l)
      requires OnlyLogged(d0, v0, block, n)
      requires Readers(held)
      modifies c
      ensures c.Valid() && Still(c.bufs, c.disk, c.view, held) && OnDisk() && Logged() && |c.disk| == |old(c.disk)|
      ensures LogOk(c.disk, l) && Count(c.disk, l) == n && forall i :: 0 <= i < n ==> block[i] == Target(c.disk, l, i)
      ensures RecoversTo(c.disk, v0, l) && c.hist == old(c.hist) + [c.disk]
    {
      ghost var d1 := c.disk;
      NotLogged(block, n, d1, l, l.start);
      PutHeader(c, l.start, n, block, held);
      SameLoggable(block, n, d1, c.disk, l);
      HeaderCommits(c.disk, d1, d0, v0, d1[l.start], block, n, l);
    }

    // commit(), after the header: every disk recovers to the new snapshot.
    method Finish(ghost held: map<int, Buf>)
      requires c.Valid() && Still(c.bufs, c.disk, c.view, held) && OnDisk() && Logged()
      requires LogOk(c.disk, l) && Count(c.disk, l) == n && forall i :: 0 <= i < n ==> block[i] == Target(c.disk, l, i)
      requires StagedOn(c.hist, stage, snaps, l)
      requires Readers(held)
      modifies c, this`stage, this`n
      ensures Core() && Calm(c.bufs, held) && n == 0 && c.view == c.disk && HomeEq(c.view, snaps[|snaps| - 1], l) && old(c.hist) <= c.hist
    {
      ghost var h, h0 := c.disk, c.hist;
      FinishReady(c.bufs, held, h, block, n, l);
      assert StagedOn(h0, stage, snaps, l);
      InstallAndClear(h, held);
      RecordFinish(h, h0, held);
    }

    // The disks of the second half of commit() recover to the last snapshot.
    ghost method RecordFinish(h: Disk, h0: seq<Disk>, held: map<int, Buf>)
      requires c.Valid() && Still(c.bufs, c.disk, c.view, held) && OnDisk() && Pinned(c.bufs) == {} && n == 0 && |block| == l.cap
      requires LogOk(h, l) && c.view == c.disk == Cleared(Recovered(h, l), l) && c.hist == h0 + FinishTrace(h, l)
      requires StagedOn(h0, stage, snaps, l)
      requires h0 != [] && h0[|h0| - 1] == h
      modifies this`stage
      ensures Core() && HomeEq(c.view, snaps[|snaps| - 1], l)
    {
      EmptyLog(c.bufs, c.disk, block, l);
      HistoryAt(h0, stage, snaps, l, |h0| - 1, |h0| - 1);
      FinishHistory(h, snaps[|snaps| - 1], l);
      RecordDisks(h0, FinishTrace(h, l));
    }

    // commit()
    method CommitLog(ghost held: map<int, Buf>)
      requires Core() && Calm(c.bufs, held)
      requires Readers(held)
      modifies c, this`snaps, this`stage, this`n
      ensures Core() && Calm(c.bufs, held) && n == 0
      ensures HomeEq(c.view, old(c.view), l) && c.view == c.disk
      ensures HomeEq(c.view, snaps[|snaps| - 1], l)
      ensures snaps == if old(n) > 0 then old(snaps) + [old(c.view)] else old(snaps)
      ensures old(c.hist) <= c.hist
    {
      if n > 0 {
        Publish(held);
        Finish(held);
      } else {
        assert block[..n] == [];
        NoPinsView(c.bufs, c.disk, c.view);
        HistoryAt(c.hist, stage, snaps, l, |c.hist| - 1, |c.hist| - 1);
        ClearedHome(c.disk, snaps[|snaps| - 1], l);
      }
    }

    // commit() and the end of end_op(): the operations that have ended become
    // durable as a whole, and the log is empty again.
    method Commit(ghost held: map<int, Buf>)
      requires Valid() && committing && Calm(c.bufs, held)
      requires Readers(held)
      modifies c, this`snaps, this`stage, this`n, this`committing, this`marks, this`since
      ensures Valid() && !committing && n == 0 && Calm(c.bufs, held)
      ensures HomeEq(c.view, old(c.view), l) && c.disk == c.view && HomeEq(c.view, snaps[|snaps| - 1], l)
      ensures old(snaps) <= snaps && old(c.hist) <= c.hist && old(marks) <= marks
    {
      CommitReserved(outstanding, n, ops, maxop, l.cap, since, nextId);
      CommitRecorded(held);
      EndCommit();
    }

    // log.committing = 0
    method EndCommit()
      requires Core() && Traced() && Reserved(outstanding, false, n, ops, maxop, l.cap) && Current(ops, since, nextId)
      modifies this`committing
      ensures Valid() && !committing
    {
      committing := false;
    }

    // commit(), and what the histories gain by it.
    method CommitRecorded(ghost held: map<int, Buf>)
      requires Core() && Traced() && since <= nextId && Calm(c.bufs, held)
      requires Readers(held)
      modifies c, this`snaps, this`stage, this`n, this`marks, this`since
      ensures Core() && Traced() && n == 0 && Calm(c.bufs, held) && (since == old(since) || since == nextId)
      ensures HomeEq(c.view, old(c.view), l) && c.disk == c.view && HomeEq(c.view, snaps[|snaps| - 1], l)
      ensures old(snaps) <= snaps && old(c.hist) <= c.hist && old(marks) <= marks
    {
      ghost var view0, snaps0 := c.view, snaps;
      CommitLog(held);
      RecordCommit(view0, snaps0);
    }

    // What the history of transactions gains.
    ghost method RecordCommit(view0: Disk, snaps0: seq<Disk>)
      requires TracedBy(view0, base, trace, marks, snaps0, since, nextId, l) && since <= nextId
      requires HomeEq(c.view, view0, l) && (snaps == snaps0 || snaps == snaps0 + [view0])
      modifies this`marks, this`since
      ensures Traced() && old(marks) <= marks && (since == old(since) || since == nextId)
    {
      if snaps == snaps0 {
        KeepTraced(view0, c.view, base, trace, marks, snaps0, since, nextId, l);
      } else {
        CommitTraced(view0, c.view, base, trace, marks, snaps0, since, nextId, l);
        marks, since := marks + [Mark(|trace|, nextId)], nextId;
      }
    }

    // begin_op(): false means that the caller sleeps until the next wakeup.
    method BeginOp(p: nat) returns (ok: bool)
      requires Valid() && p < |ops| && ops[p].Out?
      modifies this`outstanding, this`ops, this`nextId
      ensures Valid()
      ensures ok <==> !committing && n + (old(outstanding) + 1) * maxop <= l.cap
      ensures ok ==> ops == old(ops)[p := In(old(nextId), maxop)] && nextId == old(nextId) + 1
      ensures !ok ==> ops == old(ops) && nextId == old(nextId) && outstanding == old(outstanding)
    {
      if committing {
        return false;
      }
      if n + (outstanding + 1) * maxop > l.cap {
        return false;
      }
      BeginReserved(outstanding, n, ops, maxop, l.cap, p, nextId);
      outstanding := outstanding + 1;
      ops := ops[p := In(nextId, maxop)];
      nextId := nextId + 1;
      return true;
    }

    // end_op(), up to releasing log.lock.  Its panic, that a commit is under
    // way, cannot happen.  true means that the caller has to commit.
    method EndOp(p: nat) returns (doCommit: bool)
      requires Valid() && p < |ops| && ops[p].In?
      modifies this`outstanding, this`ops, this`committing
      ensures Valid() && ops == old(ops)[p := Out]
      ensures doCommit == committing && (doCommit <==> Active(ops) == 0)
    {
      SetOp(ops, p, Out);
      outstanding := outstanding - 1;
      ops := ops[p := Out];
      assert !committing;
      if outstanding == 0 {
        doCommit := true;
        committing := true;
      } else {
        doCommit := false;
      }
    }
  
    // The block is in the transaction already: its next write is absorbed.
    ghost predicate Absorbs(bn: nat)
      reads this`n, this`block
    {
      n <= |block| && bn in block[..n]
    }

    // log_write()'s panic "too big a transaction", tested before it looks
    // whether the block would be absorbed.
    predicate TooBig()
      reads this`n
    {
      n >= l.cap || n >= l.size - 1
    }

    // bread() by a process that goes on to use the block: -1 stands for the panic
    // of bget(), -2 for having to wait for the holder.
    method Hold(bn: nat) returns (r: int)
      requires Valid() && bn < |c.disk|
      modifies c
      ensures Valid() && c.disk == old(c.disk) && c.hist == old(c.hist) && c.view == old(c.view)
      ensures -2 <= r < |c.bufs| == |old(c.bufs)|
      ensures r == -1 <==> forall i :: 0 <= i < |c.bufs| ==> !old(c.bufs)[i].Is(DISK, bn) && !old(c.bufs)[i].Idle()
      ensures r == -2 <==> exists i :: 0 <= i < |c.bufs| && old(c.bufs)[i].Is(DISK, bn) && old(c.bufs)[i].locked
      ensures r >= 0 ==> c.bufs == old(c.bufs)[r := c.bufs[r]] && bn < |c.view| && c.bufs[r].data == c.view[bn]
      ensures r >= 0 ==> c.bufs[r].Is(DISK, bn) && c.bufs[r].valid && c.bufs[r].locked
      ensures r >= 0 && Quiet(old(c.bufs)) ==> c.bufs[r].refcnt == 1
      ensures n < l.cap && n < l.size && Quiet(old(c.bufs)) ==> r >= 0
    {
      ghost var bufs0, disk0, view0 := c.bufs, c.disk, c.view;
      if n < l.cap && n < l.size && Quiet(c.bufs) {
        IdleExists(c.bufs, Pinned(c.bufs));
      }
      r := c.Bread(bn);
      HoldSettled(bufs0, c.bufs, c.disk, c.view, bn, r);
    }

    // The rest of bread() for a process that had to wait: false means that it has
    // to wait on.
    method Resume(bn: nat, r: nat) returns (ok: bool)
      requires Valid() && bn < |c.disk| && r < |c.bufs| && c.bufs[r].Is(DISK, bn) && c.bufs[r].refcnt > 0
      modifies c
      ensures Valid() && c.disk == old(c.disk) && c.hist == old(c.hist) && c.view == old(c.view)
      ensures ok == !old(c.bufs)[r].locked && |c.bufs| == |old(c.bufs)|
      ensures !ok ==> c.bufs == old(c.bufs)
      ensures ok ==> c.bufs == old(c.bufs)[r := c.bufs[r]] && c.bufs[r].refcnt == old(c.bufs)[r].refcnt
      ensures ok ==> bn < |c.view| && c.bufs[r].Is(DISK, bn) && c.bufs[r].valid && c.bufs[r].locked && c.bufs[r].data == c.view[bn]
    {
      ghost var bufs0 := c.bufs;
      ok := c.Relock(bn, r);
      SamePins(bufs0, c.bufs, r);
    }

    // Changing the data of a held buffer and log_write(), by the operation of
    // process p, which logs a new block only within its allowance.  false stands
    // for the panic "too big a transaction".
    method LogWrite(p: nat, r: nat, data: Block) returns (ok: bool)
      requires Valid() && p < |ops| && ops[p].In? && r < |c.bufs| && c.bufs[r].valid && c.bufs[r].locked
      requires HomeBlock(c.disk, l, c.bufs[r].blockno) && (Absorbs(c.bufs[r].blockno) || ops[p].left > 0)
      modifies c, this`n, this`block, this`ops, this`trace
      ensures c.disk == old(c.disk) && c.hist == old(c.hist) && (ok <==> !old(TooBig()))
      ensures !ok ==> n == old(n) && block == old(block) && ops == old(ops) && trace == old(trace) && Durable()
      ensures ok ==> Valid() && Logs(old(c.bufs)[r].blockno, data, old(c.view), old(trace), old(n), old(ops), p, old(Absorbs(c.bufs[r].blockno)))
      ensures ok ==> c.bufs == old(c.bufs)[r := old(c.bufs)[r].(data := data, dirty := true)]
    {
      ghost var bn := c.bufs[r].blockno;
      ghost var w, absorbed, view, count := Write(ops[p].id, bn, data), Absorbs(bn), c.view, n;
      ok := Enter(r, data);
      if ok {
        RecordWrite(p, w, absorbed, view, count);
      }
    }

    // brelse() of a held buffer.
    method Release(r: nat)
      requires Valid() && r < |c.bufs| && c.bufs[r].valid && c.bufs[r].locked
      modifies c
      ensures Valid() && c.disk == old(c.disk) && c.hist == old(c.hist) && c.view == old(c.view)
      ensures c.bufs == old(c.bufs)[r := old(c.bufs)[r].(locked := false, refcnt := old(c.bufs)[r].refcnt - 1)]
    {
      ghost var bufs0 := c.bufs;
      if !c.bufs[r].dirty {
        HeldClean(c.bufs, c.disk, c.view, r);
      }
      c.Brelse(r);
      SamePins(bufs0, c.bufs, r);
    }

    // The operation of process p has logged data for block bn.
    ghost predicate Logs(bn: nat, data: Block, view0: Disk, trace0: seq<Write>, n0: nat, ops0: seq<Op>, p: nat, absorbed: bool)
      reads this`n, this`block, this`ops, this`trace, c
    {
      && bn < |view0| && c.view == view0[bn := data]
      && p < |ops0| && ops0[p].In? && trace == trace0 + [Write(ops0[p].id, bn, data)] && Absorbs(bn)
      && n == (if absorbed then n0 else n0 + 1)
      && (absorbed || ops0[p].left > 0) && ops == AfterWrite(ops0, p, absorbed)
    }

    ghost method RecordWrite(p: nat, w: Write, absorbed: bool, view: Disk, count: nat)
      requires Core()
      requires TracedBy(view, base, trace, marks, snaps, since, nextId, l)
      requires Reserved(outstanding, committing, count, ops, maxop, l.cap) && Current(ops, since, nextId)
      requires p < |ops| && ops[p].In? && w.id == ops[p].id && (absorbed || ops[p].left > 0)
      requires w.bn < |view| && c.view == view[w.bn := w.data]
      requires n == if absorbed then count else count + 1
      modifies this`trace, this`ops
      ensures Valid()
      ensures trace == old(trace) + [w] && ops == AfterWrite(old(ops), p, absorbed)
    {
      WriteOps(outstanding, committing, count, ops, maxop, l.cap, since, nextId, p, absorbed);
      WriteTraced(view, base, trace, marks, snaps, since, nextId, l, w);
      trace, ops := trace + [w], AfterWrite(ops, p, absorbed);
    }

    // When log_write() panics for an operation within its allowance.  With room
    // for `cap` blocks and the header, exactly when the transaction is full, and
    // then only for a block that it would absorb; with less, one block earlier.
    lemma TooBigIff(p: nat, bn: nat)
      requires Valid() && p < |ops| && ops[p].In? && (Absorbs(bn) || ops[p].left > 0)
      ensures l.size > l.cap ==> (TooBig() <==> n == l.cap) && (TooBig() ==> Absorbs(bn) && Unused(ops) == 0)
      ensures l.size <= l.cap ==> (TooBig() <==> n == l.size - 1)
    {
      SetOp(ops, p, Out);
    }

    // A crash that leaves any disk of the history, then any number of recoveries
    // that are themselves cut off, then one that completes: the home blocks are
    // those of a moment between operations, which no later crash undoes.
    lemma CrashKeepsWholeOperations(j: nat, k: nat, cuts: seq<nat>)
      requires Valid() && j <= k < |c.hist|
      ensures |stage| == |c.hist| && stage[j] <= stage[k] < |marks|
      ensures var m := marks[stage[k]];
        && Unsplit(trace, m)
        && LogOk(c.hist[k], l) && RecoversTo(Reboots(c.hist[k], l, cuts), Replay(base, trace[..m.len]), l)
      ensures stage[|stage| - 1] == |marks| - 1
    {
      CrashAtomicity(c.hist, stage, snaps, base, trace, marks, l, j, k, cuts);
    }

    // So a property P of the home blocks that holds at every moment that splits no
    // operation, such as the ownership of blocks by inodes, holds after every crash.
    lemma CrashConsistent(P: Disk -> bool, k: nat, cuts: seq<nat>)
      requires Valid() && k < |c.hist|
      requires forall d: Disk, e: Disk :: P(d) && HomeEq(e, d, l) ==> P(e)
      requires forall m: Mark :: Unsplit(trace, m) ==> P(Replay(base, trace[..m.len]))
      ensures LogOk(c.hist[k], l) && P(Recovered(Reboots(c.hist[k], l, cuts), l))
    {
      CrashKeepsWholeOperations(k, k, cuts);
      var m := marks[stage[k]];
      assert Unsplit(trace, m);
    }

    // The caller's change of the buffer, and log_write().
    method Enter(r: nat, data: Block) returns (ok: bool)
      requires Core() && r < |c.bufs| && c.bufs[r].valid && c.bufs[r].locked && HomeBlock(c.disk, l, c.bufs[r].blockno)
      modifies c, this`n, this`block
      ensures c.disk == old(c.disk) && c.hist == old(c.hist) && (ok <==> !old(TooBig()))
      ensures !ok ==> n == old(n) && block == old(block) && Durable()
      ensures ok ==> Core() && c.bufs == old(c.bufs)[r := old(c.bufs)[r].(data := data, dirty := true)]
      ensures var bn := old(c.bufs)[r].blockno; ok ==>
        && bn < |old(c.view)| && c.view == old(c.view)[bn := data] && Absorbs(bn)
        && n == if old(Absorbs(bn)) then old(n) else old(n) + 1
    {
      ghost var bufs0, view0, n0, block0 := c.bufs, c.view, n, block;
      var bn := c.bufs[r].blockno;
      c.SetData(r, data);
      if n >= l.cap || n >= l.size - 1 {
        return false;
      }
      AddEntry(bn);
      c.Pin(r);
      MorePins(bufs0, c.bufs, r, bn);
      PutLogged(bufs0, c.bufs, c.disk, n0, block0, n, block, l, bn);
      PutSettled(bufs0, c.bufs, c.disk, view0, bn, data);
      ok := true;
    }

    // log_write()'s loop, and a new entry unless the block has one.
    method AddEntry(bn: nat)
      requires Loggable(block, n, c.disk, l) && |block| == l.cap && n < l.cap && n < l.size - 1 && HomeBlock(c.disk, l, bn)
      modifies this`n, this`block
      ensures Loggable(block, n, c.disk, l) && |block| == l.cap
      ensures n == if bn in old(block[..n]) then old(n) else old(n) + 1
      ensures forall b: nat :: b in block[..n] <==> b in old(block[..n]) || b == bn
    {
      var i := 0;
      while i < n && block[i] != bn
        invariant i <= n && bn !in block[..i]
        modifies {}
      {
        TakeOne(block, i);
        i := i + 1;
      }
      LogEntry(block, n, c.disk, l, i, bn);
      block := block[i := bn];
      if i == n {
        n := n + 1;
      }
    }
  }

  lemma ClearedHome(d: Disk, img: Disk, l: Layout)
    requires RecoversTo(d, img, l) && Count(d, l) == 0
    ensures HomeEq(d, img, l)
  {
  }

  lemma {:induction false} NoneActive(ops: seq<Op>)
    ensures Active(ops) == 0 ==> forall p :: 0 <= p < |ops| ==> ops[p].Out?
  {
    if ops != [] {
      NoneActive(ops[1..]);
      assert ops == [ops[0]] + ops[1..];
    }
  }

  // The disks after each write of the second half of commit().
  ghost function FinishTrace(h: Disk, l: Layout): (r: seq<Disk>)
    requires LogOk(h, l)
  {
    InstallTrace(h, l, Count(h, l)) + [CutOff(h, l, Count(h, l) + 1)]
  }

  lemma FinishCuts(h: Disk, l: Layout)
    requires LogOk(h, l)
    ensures |FinishTrace(h, l)| == Count(h, l) + 1
    ensures forall k :: 0 <= k < |FinishTrace(h, l)| ==> FinishTrace(h, l)[k] == CutOff(h, l, k + 1)
  {
    forall k: nat | k < |FinishTrace(h, l)| ensures FinishTrace(h, l)[k] == CutOff(h, l, k + 1) {
      if k < Count(h, l) { InstallTraceAt(h, l, Count(h, l), k); }
    }
  }

  lemma FinishHistory(h: Disk, img: Disk, l: Layout)
    requires RecoversTo(h, img, l)
    ensures forall k :: 0 <= k < |FinishTrace(h, l)| ==> RecoversTo(FinishTrace(h, l)[k], img, l)
    ensures HeaderFits(Cleared(Recovered(h, l), l), l) && Count(Cleared(Recovered(h, l), l), l) == 0
    ensures HomeEq(Cleared(Recovered(h, l), l), img, l)
  {
    var t := FinishTrace(h, l);
    FinishCuts(h, l);
    forall k: nat | k < |t| ensures RecoversTo(t[k], img, l) {
      CutOffKeeps(h, l, k + 1);
    }
    CutOffKeeps(h, l, Count(h, l) + 1);
    InstallLogOk(h, l, Count(h, l));
    ClearedOk(Recovered(h, l), l);
  }

  lemma PinsAreHome(bufs: seq<Buf>, block: seq<nat>, n: nat, d: Disk, l: Layout)
    requires Loggable(block, n, d, l)
    requires forall bn: nat :: PinnedBlock(bufs, bn) <==> bn in block[..n]
    ensures forall bn: nat :: PinnedBlock(bufs, bn) ==> bn in block[..n] && !l.IsLog(bn)
  {
    forall bn: nat | PinnedBlock(bufs, bn) ensures !l.IsLog(bn) {
      if l.IsLog(bn) { NotLogged(block, n, d, l, bn); }
    }
  }

  // What install_trans() needs.
  lemma FinishReady(bufs: seq<Buf>, held: map<int, Buf>, d: Disk, block: seq<nat>, n: nat, l: Layout)
    requires LoggedOn(bufs, d, n, block, l) && n + |held| < |bufs|
    ensures RoomToInstall(bufs, held, block, n) && |held| < |bufs|
    ensures forall bn: nat :: PinnedBlock(bufs, bn) ==> bn in block[..n] && !l.IsLog(bn)
  {
    PinsAreHome(bufs, block, n, d, l);
    LoggedRoom(bufs, held, block, n, d, l);
  }

  lemma LoggedRoom(bufs: seq<Buf>, held: map<int, Buf>, block: seq<nat>, n: nat, d: Disk, l: Layout)
    requires Loggable(block, n, d, l) && |Pinned(bufs)| <= n && n + |held| < |bufs|
    requires forall bn: nat :: PinnedBlock(bufs, bn) <==> bn in block[..n]
    ensures RoomToInstall(bufs, held, block, n)
  {
    forall i | 0 <= i < n ensures PinnedBlock(bufs, block[i]) {
      assert block[..n][i] == block[i];
    }
  }

  // Where the disk and the view differ, the block is logged.
  lemma HomeDiffers(bufs: seq<Buf>, disk: seq<Block>, view: seq<Block>, block: seq<nat>, n: nat)
    requires Settled(bufs, disk, view) && n <= |block|
    requires forall bn: nat :: PinnedBlock(bufs, bn) <==> bn in block[..n]
    ensures OnlyLogged(disk, view, block, n)
  {
  }

  ghost predicate OnlyLogged(disk: Disk, view: Disk, block: seq<nat>, n: nat)
    requires n <= |block|
  {
    |view| == |disk| && forall bn: nat :: bn < |disk| && bn !in block[..n] ==> disk[bn] == view[bn]
  }

  lemma FilledHistory(more: seq<Disk>, d0: Disk, v0: Disk, snap: Disk, block: seq<nat>, n: nat, l: Layout)
    requires |more| == n && RecoversTo(d0, snap, l) && Count(d0, l) == 0 && n < l.size && n <= |block|
    requires FilledSteps(more, d0, v0, block, l)
    ensures forall k :: 0 <= k < n ==> RecoversTo(more[k], snap, l)
  {
    forall k | 0 <= k < n ensures RecoversTo(more[k], snap, l) {
      assert FilledStep(more, d0, v0, block, l, k);
      FilledRecovers(more[k], d0, v0, snap, block, k + 1, l);
    }
  }

  lemma CrashAtomicity(hist: seq<Disk>, stage: seq<nat>, snaps: seq<Disk>, base: Disk, trace: seq<Write>, marks: seq<Mark>,
      l: Layout, j: nat, k: nat, cuts: seq<nat>)
    requires History(hist, stage, snaps, l) && Whole(base, trace, marks, snaps, l) && j <= k < |hist|
    ensures |stage| == |hist| && stage[j] <= stage[k] < |marks|
    ensures var m := marks[stage[k]];
      && Unsplit(trace, m)
      && LogOk(hist[k], l) && RecoversTo(Reboots(hist[k], l, cuts), Replay(base, trace[..m.len]), l)
  {
    HistoryAt(hist, stage, snaps, l, j, k);
    WholeAt(base, trace, marks, snaps, l, stage[k]);
    CrashRecovery(hist[k], snaps[stage[k]], l, cuts);
  }

  // A machine with six blocks, whose one operation has logged block 3.
  method OneLogged(size: nat, cap: nat) returns (log: LogState)
    requires 0 < cap <= 2 && 2 <= size <= 3
    ensures log.Valid() && log.l == Layout(0, size, cap) && log.n == 1 && log.Absorbs(3) && !log.Absorbs(5)
    ensures |log.ops| == 1 && log.ops[0].In? && log.ops[0].left == cap - 1
  {
    log := OneBegun(size, cap);
    var r := log.Hold(3);
    var ok := log.LogWrite(0, r, [7, 7, 7]);
  }

  method OneBegun(size: nat, cap: nat) returns (log: LogState)
    requires 0 < cap <= 2 && 2 <= size <= 3
    ensures log.Valid() && Quiet(log.c.bufs) && fresh(log) && fresh(log.c) && log.l == Layout(0, size, cap) && |log.c.disk| == 6
    ensures log.n == 0 && |log.ops| == 1 && log.ops[0].In? && log.ops[0].left == cap
  {
    log := SmallLog(size, cap);
    var ok := log.BeginOp(0);
  }

  method SmallLog(size: nat, cap: nat) returns (log: LogState)
    requires 0 < cap <= 2 && 2 <= size <= 3
    ensures log.Valid() && Quiet(log.c.bufs) && fresh(log) && fresh(log.c) && log.l == Layout(0, size, cap) && log.maxop == cap
    ensures log.n == log.outstanding == 0 && !log.committing && |log.ops| == 1 && log.ops[0].Out?
    ensures |log.c.disk| == 6
  {
    var zero := [0, 0, 0];
    var image := [zero, zero, zero, zero, zero, zero];
    log := new LogState.Boot(image, 3, Layout(0, size, cap), cap, 1);
    log.InitLog(image);
  }

  // log_write() can panic for a block that it would absorb: an operation that
  // has filled the log writes its block again.
  method AbsorbedWriteCanPanic() returns (log: LogState)
    ensures log.Valid() && |log.ops| == 1 && log.ops[0].In? && log.l.size > log.l.cap
    ensures log.Absorbs(3) && log.TooBig()
  {
    log := OneLogged(3, 1);
  }

  // With as many log blocks as LOGSIZE, the header among them, log_write() can
  // panic for a new block of an operation within its allowance.
  method NewBlockCanPanic() returns (log: LogState)
    ensures log.Valid() && |log.ops| == 1 && log.ops[0].In? && log.l.size == log.l.cap
    ensures !log.Absorbs(5) && log.ops[0].left > 0 && log.TooBig()
  {
    log := OneLogged(2, 2);
  }
}
