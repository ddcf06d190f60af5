// The buffer cache of bio.c over the memory disk of memide.c.
//
// A pointer to a buffer is its index in the array; index `nbuf` is the list
// head.  A block is a sequence of machine words.
module BufferCache {

  type Block = seq<int>

  // Device number of the disk that iderw accepts.
  const DISK: nat := 1

  datatype Buf = Buf(dev: nat, blockno: nat, valid: bool, dirty: bool, refcnt: nat, locked: bool, data: Block) {
    // bget() may recycle the buffer.
    predicate Idle() { refcnt == 0 && !dirty }

    predicate Is(d: nat, b: nat) { dev == d && blockno == b }
  }

  // ----- the ring of buffers -----

  ghost predicate Joined(next: seq<nat>, prev: seq<nat>, a: nat, b: nat) {
    a < |next| && b < |prev| && next[a] == b && prev[b] == a
  }

  ghost predicate StepAt(next: seq<nat>, prev: seq<nat>, s: seq<nat>, i: int)
    requires 0 <= i < |s| - 1
  {
    Joined(next, prev, s[i], s[i + 1])
  }

  // The nodes of s are linked both ways, each to the one after it.
  ghost predicate Path(next: seq<nat>, prev: seq<nat>, s: seq<nat>) {
    forall i :: 0 <= i < |s| - 1 ==> StepAt(next, prev, s, i)
  }

  ghost predicate Distinct(s: seq<nat>) {
    forall i, j :: 0 <= i < j < |s| ==> s[i] != s[j]
  }

  // The ring from the head n through the buffers of `order` and back.
  ghost predicate Ring(next: seq<nat>, prev: seq<nat>, order: seq<nat>, n: nat) {
    && |next| == n + 1 && |prev| == n + 1
    && Distinct(order) && (forall b :: b in order ==> b < n)
    && Path(next, prev, [n] + order + [n])
  }

  lemma PathSplit(next: seq<nat>, prev: seq<nat>, x: seq<nat>, m: nat, y: seq<nat>)
    ensures Path(next, prev, x + [m] + y) <==> Path(next, prev, x + [m]) && Path(next, prev, [m] + y)
  {
    var s, l, r := x + [m] + y, x + [m], [m] + y;
    forall i | 0 <= i < |l| - 1
      ensures StepAt(next, prev, l, i) <==> StepAt(next, prev, s, i)
    {
      assert s[i] == l[i] && s[i + 1] == l[i + 1];
    }
    forall i | 0 <= i < |r| - 1
      ensures StepAt(next, prev, r, i) <==> StepAt(next, prev, s, |x| + i)
    {
      assert s[|x| + i] == r[i] && s[|x| + i + 1] == r[i + 1];
    }
    if Path(next, prev, l) && Path(next, prev, r) {
      forall i | 0 <= i < |s| - 1 ensures StepAt(next, prev, s, i) {
        if i < |x| {
          assert StepAt(next, prev, l, i);
        } else {
          assert StepAt(next, prev, r, i - |x|);
        }
      }
    }
  }

  lemma PathPair(next: seq<nat>, prev: seq<nat>, a: nat, b: nat)
    ensures Path(next, prev, [a, b]) <==> Joined(next, prev, a, b)
  {
    assert StepAt(next, prev, [a, b], 0) <==> Joined(next, prev, a, b);
  }

  // A path does not see other nodes' links, nor the outer links of its ends.
  lemma PathFrame(next: seq<nat>, prev: seq<nat>, next': seq<nat>, prev': seq<nat>, s: seq<nat>)
    requires Path(next, prev, s) && |next'| == |next| && |prev'| == |prev|
    requires forall i :: 0 <= i < |s| - 1 && s[i] < |next| ==> next'[s[i]] == next[s[i]]
    requires forall i :: 1 <= i < |s| && s[i] < |prev| ==> prev'[s[i]] == prev[s[i]]
    ensures Path(next', prev', s)
  {
    forall i | 0 <= i < |s| - 1 ensures StepAt(next', prev', s, i) {
      assert StepAt(next, prev, s, i);
    }
  }

  // Taking b out of a path: its two neighbours are joined.
  lemma Unlinked(next: seq<nat>, prev: seq<nat>, u: seq<nat>, p: nat, b: nat, q: nat, v: seq<nat>)
    requires Path(next, prev, u + [p] + ([b] + ([q] + v)))
    requires p < |next| && q < |prev|
    requires p !in u && (u != [] ==> q !in (u + [p])[1..]) && q !in v
    requires v != [] ==> p !in ([q] + v)[..|v|]
    ensures b < |next| && b < |prev|
    ensures next[p] == b && prev[b] == p && next[b] == q && prev[q] == b
    ensures Path(next[p := q], prev[q := p], u + [p] + ([q] + v))
  {
    var next', prev' := next[p := q], prev[q := p];
    PathSplit(next, prev, u, p, [b] + ([q] + v));
    assert [p] + ([b] + ([q] + v)) == [p] + [b] + ([q] + v);
    PathSplit(next, prev, [p], b, [q] + v);
    assert [b] + ([q] + v) == [b] + [q] + v;
    PathSplit(next, prev, [b], q, v);
    assert [p] + [b] == [p, b] && [b] + [q] == [b, q];
    PathPair(next, prev, p, b);
    PathPair(next, prev, b, q);
    PathFrame(next, prev, next', prev', u + [p]);
    PathFrame(next, prev, next', prev', [q] + v);
    PathSplit(next', prev', u, p, [q] + v);
    assert [p] + ([q] + v) == [p] + [q] + v;
    PathSplit(next', prev', [p], q, v);
    assert [p] + [q] == [p, q];
    PathPair(next', prev', p, q);
  }

  // Putting b between the head n and the node f after it.
  lemma LinkedFirst(next: seq<nat>, prev: seq<nat>, n: nat, b: nat, f: nat, w: seq<nat>)
    requires Path(next, prev, [n] + ([f] + w))
    requires n < |next| && b < |next| && b < |prev| && f < |prev| && b != n && b != f
    requires b !in w && f !in w && (w != [] ==> n !in ([f] + w)[..|w|])
    ensures Path(next[b := f][n := b], prev[b := n][f := b], [n] + ([b] + ([f] + w)))
  {
    var next', prev' := next[b := f][n := b], prev[b := n][f := b];
    assert [n] + ([f] + w) == [n] + [f] + w;
    PathSplit(next, prev, [n], f, w);
    PathFrame(next, prev, next', prev', [f] + w);
    PathPair(next', prev', b, f);
    assert [b] + [f] == [b, f] && [n] + [b] == [n, b];
    PathSplit(next', prev', [b], f, w);
    assert [b] + ([f] + w) == [b] + [f] + w;
    PathPair(next', prev', n, b);
    PathSplit(next', prev', [n], b, [f] + w);
    assert [n] + ([b] + ([f] + w)) == [n] + [b] + ([f] + w);
  }

  // The node after the head of the ring, or before it.
  function FirstOf(s: seq<nat>, head: nat): nat {
    if s == [] then head else s[0]
  }

  function LastOf(s: seq<nat>, head: nat): nat {
    if s == [] then head else s[|s| - 1]
  }

  lemma DistinctSplit(x: seq<nat>, b: nat, y: seq<nat>)
    requires Distinct(x + ([b] + y))
    ensures b !in x && b !in y && Distinct(x + y) && Distinct([b] + (x + y))
    ensures forall i :: 0 <= i < |x| ==> x[i] !in y
    ensures x != [] ==> x[|x| - 1] !in x[..|x| - 1]
    ensures y != [] ==> y[0] !in y[1..]
  {
    var s := x + ([b] + y);
    assert s[|x|] == b;
    assert forall i :: 0 <= i < |x| ==> s[i] == x[i];
    assert forall i :: 0 <= i < |y| ==> s[|x| + 1 + i] == y[i];
  }

  lemma BoundedSplit(x: seq<nat>, b: nat, y: seq<nat>, n: nat)
    requires forall c :: c in x + ([b] + y) ==> c < n
    ensures (forall c :: c in x + y ==> c < n) && n !in x && n !in y
    ensures LastOf(x, n) <= n && FirstOf(y, n) <= n
  {
    var order := x + ([b] + y);
    assert forall c :: c in x || c in y ==> c in order;
    assert x != [] ==> x[|x| - 1] in x;
    assert y != [] ==> y[0] in y;
  }

  // Around the ring: the head points to the ends of `order`.
  lemma RingEnds(next: seq<nat>, prev: seq<nat>, order: seq<nat>, n: nat)
    requires Ring(next, prev, order, n)
    ensures next[n] == FirstOf(order, n) && prev[n] == LastOf(order, n)
  {
    var s := [n] + order + [n];
    assert StepAt(next, prev, s, 0) && StepAt(next, prev, s, |order|);
  }

  lemma RingAt(next: seq<nat>, prev: seq<nat>, order: seq<nat>, n: nat, i: nat)
    requires Ring(next, prev, order, n) && i < |order|
    ensures order[i] < n
    ensures next[order[i]] == if i + 1 < |order| then order[i + 1] else n
    ensures prev[order[i]] == if i > 0 then order[i - 1] else n
  {
    var s := [n] + order + [n];
    assert s[i + 1] == order[i] && order[i] in order;
    assert StepAt(next, prev, s, i) && StepAt(next, prev, s, i + 1);
  }

  // The first half of brelse()'s list work: b leaves the ring.
  lemma RingUnlink(next: seq<nat>, prev: seq<nat>, x: seq<nat>, b: nat, y: seq<nat>, n: nat)
    requires Ring(next, prev, x + ([b] + y), n)
    ensures var p, q := LastOf(x, n), FirstOf(y, n);
      && b < n && p <= n && q <= n && prev[b] == p && next[b] == q
      && Ring(next[p := q], prev[q := p], x + y, n)
  {
    var order := x + ([b] + y);
    DistinctSplit(x, b, y);
    RingAt(next, prev, order, n, |x|);
    BoundedSplit(x, b, y, n);
    var p, q := LastOf(x, n), FirstOf(y, n);
    var u := if x == [] then [] else [n] + x[..|x| - 1];
    var v := if y == [] then [] else y[1..] + [n];
    assert u + [p] == [n] + x;
    assert [q] + v == y + [n];
    assert [n] + order + [n] == u + [p] + ([b] + ([q] + v));
    assert [n] + (x + y) + [n] == u + [p] + ([q] + v);
    assert x != [] ==> (u + [p])[1..] == x;
    assert y != [] ==> ([q] + v)[..|v|] == y;
    Unlinked(next, prev, u, p, b, q, v);
  }

  // The second half, and the body of binit()'s loop: b enters behind the head.
  lemma RingInsert(next: seq<nat>, prev: seq<nat>, z: seq<nat>, b: nat, n: nat)
    requires Ring(next, prev, z, n) && b < n && b !in z
    ensures var f := FirstOf(z, n);
      f <= n && next[n] == f && Ring(next[b := f][n := b], prev[b := n][f := b], [b] + z, n)
  {
    var f := FirstOf(z, n);
    RingEnds(next, prev, z, n);
    assert z != [] ==> z[0] in z;
    var w := if z == [] then [] else z[1..] + [n];
    assert [f] + w == z + [n];
    assert [n] + z + [n] == [n] + ([f] + w);
    assert [n] + ([b] + z) + [n] == [n] + ([b] + ([f] + w));
    assert z != [] ==> ([f] + w)[..|w|] == z;
    LinkedFirst(next, prev, n, b, f, w);
  }

  lemma RingMove(next: seq<nat>, prev: seq<nat>, x: seq<nat>, b: nat, y: seq<nat>, n: nat)
    requires Ring(next, prev, x + ([b] + y), n)
    ensures b < n && |next| == n + 1 == |prev| && prev[b] <= n && next[b] <= n && prev[b] != b && next[b] != b
    ensures var next1, prev1 := next[prev[b] := next[b]], prev[next[b] := prev[b]];
      && next1[n] <= n && next1[n] != b
      && Ring(next1[b := next1[n]][n := b], prev1[b := n][next1[n] := b], [b] + (x + y), n)
  {
    RingUnlink(next, prev, x, b, y, n);
    DistinctSplit(x, b, y);
    RingInsert(next[prev[b] := next[b]], prev[next[b] := prev[b]], x + y, b, n);
    assert x != [] ==> x[|x| - 1] in x;
    assert y != [] ==> y[0] in y;
    assert x + y != [] ==> (x + y)[0] in x + y;
  }

  // The list before and after b, and what moving b to the front keeps.
  lemma MovesFront(x: seq<nat>, b: nat, y: seq<nat>)
    requires Distinct(x + ([b] + y))
    ensures ToFront(x + ([b] + y), [b] + (x + y), b)
  {
    DistinctSplit(x, b, y);
    DroppedAt(x, b, y);
    assert ([b] + (x + y))[1..] == x + y;
  }

  lemma Around(order: seq<nat>, b: nat) returns (x: seq<nat>, y: seq<nat>)
    requires b in order
    ensures order == x + ([b] + y)
    ensures multiset([b] + (x + y)) == multiset(order)
    ensures forall c :: c in [b] + (x + y) <==> c in order
  {
    var i: nat :| i < |order| && order[i] == b;
    x, y := order[..i], order[i + 1..];
    assert order == x + ([b] + y);
    assert multiset(x + ([b] + y)) == multiset(x) + multiset([b]) + multiset(y);
    assert multiset([b] + (x + y)) == multiset([b]) + multiset(x) + multiset(y);
    forall c ensures c in [b] + (x + y) <==> c in order {
      assert c in x + ([b] + y) <==> c in x || c == b || c in y;
    }
  }

  // ----- contents -----

  // A process has taken a reference to buffer i, whose lock another one has.
  ghost predicate Waits(bufs0: seq<Buf>, bufs: seq<Buf>, i: nat) {
    i < |bufs0| && bufs0[i].locked && bufs == bufs0[i := bufs0[i].(refcnt := bufs0[i].refcnt + 1)]
  }

  ghost predicate Caches(bufs: seq<Buf>, i: nat, bn: nat) {
    i < |bufs| && bufs[i].valid && bufs[i].Is(DISK, bn)
  }

  // What the flags of one buffer promise.  `view` is the contents every block
  // was last given, on disk or in its buffer.
  ghost predicate BufOk(b: Buf, disk: seq<Block>, view: seq<Block>)
    requires |view| == |disk|
  {
    && (b.valid ==> b.dev == DISK && b.blockno < |disk| && b.data == view[b.blockno])
    && (b.dirty ==> b.valid)
    && (b.locked ==> b.refcnt > 0)
    && (b.valid && !b.dirty && !b.locked ==> b.data == disk[b.blockno])
  }

  // At most one buffer for a block.  binit() leaves all buffers at device 0,
  // block 0, so that one name may be shared.
  ghost predicate Unique(bufs: seq<Buf>) {
    forall i, j :: 0 <= i < j < |bufs| && bufs[i].dev == bufs[j].dev && bufs[i].blockno == bufs[j].blockno ==>
      bufs[i].Is(0, 0)
  }

  ghost predicate Coherent(bufs: seq<Buf>, disk: seq<Block>, view: seq<Block>) {
    && |view| == |disk|
    && (forall i :: 0 <= i < |bufs| ==> BufOk(bufs[i], disk, view))
    && Unique(bufs)
    // contents that the disk does not have are in a buffer
    && (forall bn :: 0 <= bn < |disk| && view[bn] != disk[bn] ==> exists i :: Caches(bufs, i, bn))
  }

  // Most recently released first.
  ghost predicate ByRelease(order: seq<nat>, stamp: seq<nat>, clock: nat) {
    && (forall b :: b in order ==> b < |stamp| && stamp[b] <= clock)
    && (forall i :: 0 <= i < |order| - 1 ==> Newer(order, stamp, i))
  }

  ghost predicate Newer(order: seq<nat>, stamp: seq<nat>, i: int)
    requires 0 <= i < |order| - 1
  {
    order[i] < |stamp| && order[i + 1] < |stamp| && stamp[order[i]] >= stamp[order[i + 1]]
  }

  // Buffer r is the last one of the ring that is idle.
  ghost predicate LastIdle(bufs: seq<Buf>, order: seq<nat>, r: int) {
    && order != []
    && var n := |order| - 1;
       && order[n] < |bufs|
       && if bufs[order[n]].Idle() then r == order[n] else LastIdle(bufs, order[..n], r)
  }

  lemma {:induction false} LastIdleAt(bufs: seq<Buf>, order: seq<nat>, i: nat)
    requires i < |order| && order[i] < |bufs| && bufs[order[i]].Idle()
    requires forall k :: i < k < |order| ==> order[k] < |bufs| && !bufs[order[k]].Idle()
    ensures LastIdle(bufs, order, order[i])
  {
    if i < |order| - 1 {
      LastIdleAt(bufs, order[..|order| - 1], i);
    }
  }

  // b is moved to the front of the ring, and the others stay as they are.
  ghost predicate ToFront(order: seq<nat>, order': seq<nat>, b: nat) {
    order' != [] && order'[0] == b && Dropped(order, order'[1..], b)
  }

  // The second sequence is the first without the first b of it.
  ghost predicate Dropped(s: seq<nat>, t: seq<nat>, b: nat) {
    s != [] && if s[0] == b then t == s[1..] else t != [] && t[0] == s[0] && Dropped(s[1..], t[1..], b)
  }

  lemma {:induction false} DroppedAt(x: seq<nat>, b: nat, y: seq<nat>)
    requires b !in x
    ensures Dropped(x + ([b] + y), x + y, b)
  {
    var s, t := x + ([b] + y), x + y;
    if x == [] {
      assert s[1..] == y && t == y;
    } else {
      assert s[1..] == x[1..] + ([b] + y) && t[1..] == x[1..] + y;
      DroppedAt(x[1..], b, y);
    }
  }

  lemma {:induction false} LaterIsOlder(order: seq<nat>, stamp: seq<nat>, clock: nat, i: nat, j: nat)
    requires ByRelease(order, stamp, clock) && i <= j < |order|
    ensures order[i] < |stamp| && order[j] < |stamp| && stamp[order[j]] <= stamp[order[i]]
    decreases j
  {
    assert order[i] in order;
    if i < j {
      LaterIsOlder(order, stamp, clock, i, j - 1);
      assert Newer(order, stamp, j - 1);
    }
  }

  class Cache {
    const nbuf: nat
    var bufs: seq<Buf>
    var next: seq<nat>
    var prev: seq<nat>
    var disk: seq<Block>               // the memory disk

    ghost var order: seq<nat>          // the ring from most to least recently released
    ghost var stamp: seq<nat>          // when each buffer was last released
    ghost var clock: nat
    ghost var view: seq<Block>         // the last contents of every block
    ghost var hist: seq<seq<Block>>    // the disk at first and after each write

    ghost predicate Valid()
      reads this
    {
      && |bufs| == nbuf && |stamp| == nbuf
      && Ring(next, prev, order, nbuf) && (forall b :: 0 <= b < nbuf ==> b in order)
      && ByRelease(order, stamp, clock)
      && Coherent(bufs, disk, view)
      && hist != [] && hist[|hist| - 1] == disk
    }

    constructor (n: nat, image: seq<Block>)
      ensures Valid() && nbuf == n && disk == image && view == image && hist == [image]
      ensures forall i :: 0 <= i < n ==> bufs[i] == Buf(0, 0, false, false, 0, false, [])
      ensures |order| == n && forall i :: 0 <= i < n ==> order[i] == n - 1 - i
    {
      nbuf := n;
      disk := image;
      view, hist, clock := image, [image], 0;
      bufs := seq(n, _ => Buf(0, 0, false, false, 0, false, []));
      stamp := seq(n, _ => 0);
      next := seq(n + 1, _ => n);
      prev := seq(n + 1, _ => n);
      order := [];
      new;
      assert StepAt(next, prev, [n] + order + [n], 0);
      var b := 0;
      while b < n
        invariant 0 <= b <= n == nbuf
        invariant Ring(next, prev, order, n) && (forall c :: c in order <==> 0 <= c < b)
        invariant |order| == b && forall i :: 0 <= i < b ==> order[i] == b - 1 - i
        modifies this`next, this`prev, this`order
      {
        RingInsert(next, prev, order, b, n);
        next := next[b := next[n]];
        prev := prev[b := n];
        prev := prev[next[n] := b];
        next := next[n := b];
        order := [b] + order;
        b := b + 1;
      }
      forall i | 0 <= i < |order| - 1 ensures Newer(order, stamp, i) {
        assert order[i] in order && order[i + 1] in order;
      }
    }

    // bget(), up to releasing bcache.lock: the buffer that caches the block, or
    // else the idle buffer that was released longest ago.  It panics (-1)
    // exactly when the block is not cached and no buffer is idle.
    method Bget(dev: nat, blockno: nat) returns (r: int)
      requires Valid() && (dev != 0 || blockno != 0)
      modifies this`bufs
      ensures Valid()
      ensures -1 <= r < nbuf
      ensures r == -1 <==> forall i :: 0 <= i < nbuf ==>
        !old(bufs)[i].Is(dev, blockno) && (old(bufs)[i].refcnt > 0 || old(bufs)[i].dirty)
      ensures r == -1 ==> bufs == old(bufs)
      ensures r >= 0 && old(bufs)[r].Is(dev, blockno) ==>
        bufs == old(bufs)[r := old(bufs)[r].(refcnt := old(bufs)[r].refcnt + 1)]
      ensures r >= 0 && !old(bufs)[r].Is(dev, blockno) ==>
        && (forall i :: 0 <= i < nbuf ==> !old(bufs)[i].Is(dev, blockno))
        && old(bufs)[r].Idle() && (forall i :: 0 <= i < nbuf && old(bufs)[i].Idle() ==> stamp[r] <= stamp[i])
        && LastIdle(old(bufs), order, r)
        && bufs == old(bufs)[r := Buf(dev, blockno, false, false, 1, false, old(bufs)[r].data)]
    {
      var b := next[nbuf];
      ghost var i: nat := 0;
      RingEnds(next, prev, order, nbuf);
      while b != nbuf
        invariant i <= |order| && b == if i < |order| then order[i] else nbuf
        invariant forall k :: 0 <= k < i ==> order[k] < nbuf && !bufs[order[k]].Is(dev, blockno)
        modifies {}
        decreases |order| - i
      {
        RingAt(next, prev, order, nbuf, i);
        if bufs[b].Is(dev, blockno) {
          break;
        }
        b := next[b];
        i := i + 1;
      }
      if i < |order| {
        RingAt(next, prev, order, nbuf, i);
      }
      if b != nbuf {
        KeepsCoherent(bufs, disk, view, b, bufs[b].(refcnt := bufs[b].refcnt + 1));
        bufs := bufs[b := bufs[b].(refcnt := bufs[b].refcnt + 1)];
        return b;
      }
      forall k: nat | k < nbuf ensures !bufs[k].Is(dev, blockno) {
        assert k in order;
        var p :| 0 <= p < |order| && order[p] == k;
      }
      r := Recycle(dev, blockno);
    }

    // The second loop of bget().
    method Recycle(dev: nat, blockno: nat) returns (r: int)
      requires Valid() && (dev != 0 || blockno != 0) && forall i :: 0 <= i < nbuf ==> !bufs[i].Is(dev, blockno)
      modifies this`bufs
      ensures Valid()
      ensures -1 <= r < nbuf
      ensures r == -1 <==> forall i :: 0 <= i < nbuf ==> !old(bufs)[i].Idle()
      ensures r == -1 ==> bufs == old(bufs)
      ensures r >= 0 ==>
        && old(bufs)[r].Idle() && (forall i :: 0 <= i < nbuf && old(bufs)[i].Idle() ==> stamp[r] <= stamp[i])
        && LastIdle(old(bufs), order, r)
        && bufs == old(bufs)[r := Buf(dev, blockno, false, false, 1, false, old(bufs)[r].data)]
    {
      var b := OldestIdle();
      if b == nbuf {
        return -1;
      }
      RecycleCoherent(bufs, disk, view, b, dev, blockno);
      bufs := bufs[b := Buf(dev, blockno, false, false, 1, false, bufs[b].data)];
      return b;
    }

    // The scan of that loop from the back of the ring, up to the head if there is
    // no idle buffer.
    method OldestIdle() returns (b: nat)
      requires Valid()
      ensures b <= nbuf && (b == nbuf <==> forall i :: 0 <= i < nbuf ==> !bufs[i].Idle())
      ensures b < nbuf ==> bufs[b].Idle() && LastIdle(bufs, order, b)
      ensures b < nbuf ==> forall i :: 0 <= i < nbuf && bufs[i].Idle() ==> stamp[b] <= stamp[i]
    {
      b := prev[nbuf];
      ghost var i: nat := |order|;
      RingEnds(next, prev, order, nbuf);
      while b != nbuf
        invariant i <= |order| && b == if i > 0 then order[i - 1] else nbuf
        invariant forall k :: i <= k < |order| ==> order[k] < nbuf && !bufs[order[k]].Idle()
        decreases i
      {
        RingAt(next, prev, order, nbuf, i - 1);
        if bufs[b].Idle() {
          break;
        }
        b := prev[b];
        i := i - 1;
      }
      OthersNewer(order, stamp, clock, bufs, nbuf, i);
      if b != nbuf {
        LastIdleAt(bufs, order, i - 1);
      }
    }

    // acquiresleep(): false means that the caller has to wait for the holder.
    method Acquire(b: nat) returns (ok: bool)
      requires Valid() && b < nbuf && bufs[b].refcnt > 0
      modifies this`bufs
      ensures Valid() && ok == !old(bufs)[b].locked
      ensures bufs == if ok then old(bufs)[b := old(bufs)[b].(locked := true)] else old(bufs)
    {
      ok := !bufs[b].locked;
      if ok {
        KeepsCoherent(bufs, disk, view, b, bufs[b].(locked := true));
        bufs := bufs[b := bufs[b].(locked := true)];
      }
    }

    // iderw(), whose panics are its precondition.
    method Iderw(b: nat)
      requires Valid() && b < nbuf && bufs[b].locked
      requires !bufs[b].valid || bufs[b].dirty
      requires bufs[b].dev == DISK && bufs[b].blockno < |disk|
      modifies this`bufs, this`disk, this`hist
      ensures Valid()
      ensures old(bufs[b].dirty) ==>
        && disk == old(disk)[old(bufs[b].blockno) := old(bufs[b].data)] && hist == old(hist) + [disk]
        && bufs == old(bufs)[b := old(bufs[b]).(dirty := false)]
      ensures !old(bufs[b].dirty) ==>
        && disk == old(disk) && hist == old(hist)
        && bufs == old(bufs)[b := old(bufs[b]).(data := view[old(bufs[b].blockno)], valid := true)]
    {
      if bufs[b].dirty {
        WriteCoherent(bufs, disk, view, b);
        disk := disk[bufs[b].blockno := bufs[b].data];
        bufs := bufs[b := bufs[b].(dirty := false)];
        hist := hist + [disk];
      } else {
        ReadCoherent(bufs, disk, view, b);
        bufs := bufs[b := bufs[b].(data := disk[bufs[b].blockno])];
      }
      bufs := bufs[b := bufs[b].(valid := true)];
      assert bufs == old(bufs)[b := bufs[b]];
    }

    // bread(): the locked buffer of a block, with the block's last contents,
    // wherever they were.  -1 stands for bget()'s panic, -2 for having to wait
    // for another holder; the reference taken is then kept.
    method Bread(blockno: nat) returns (r: int)
      requires Valid() && blockno < |disk|
      modifies this`bufs, this`disk, this`hist
      ensures Valid() && -2 <= r < nbuf
      ensures disk == old(disk) && hist == old(hist)
      ensures r == -1 <==> forall i :: 0 <= i < nbuf ==>
        !old(bufs)[i].Is(DISK, blockno) && (old(bufs)[i].refcnt > 0 || old(bufs)[i].dirty)
      ensures r == -2 <==> exists i :: 0 <= i < nbuf && old(bufs)[i].Is(DISK, blockno) && old(bufs)[i].locked
      ensures r == -1 ==> bufs == old(bufs)
      ensures r == -2 ==> exists i: nat :: Waits(old(bufs), bufs, i) && old(bufs)[i].Is(DISK, blockno)
      ensures r >= 0 ==>
        && (old(bufs)[r].Is(DISK, blockno) || old(bufs)[r].Idle())
        && bufs == old(bufs)[r := bufs[r]]
        && bufs[r].Is(DISK, blockno) && bufs[r].valid && bufs[r].locked && bufs[r].data == view[blockno]
        && bufs[r].dirty == old(bufs)[r].dirty && (!bufs[r].dirty ==> view[blockno] == disk[blockno])
        && bufs[r].refcnt == if old(bufs)[r].Is(DISK, blockno) then old(bufs)[r].refcnt + 1 else 1
    {
      r := GetLocked(blockno);
      if r >= 0 && !bufs[r].valid {
        Iderw(r);
      }
    }

    // bget(): the buffer of a block of the disk, locked, but perhaps not read yet.
    method GetLocked(blockno: nat) returns (r: int)
      requires Valid() && blockno < |disk|
      modifies this`bufs
      ensures Valid() && -2 <= r < nbuf
      ensures r == -1 <==> forall i :: 0 <= i < nbuf ==>
        !old(bufs)[i].Is(DISK, blockno) && (old(bufs)[i].refcnt > 0 || old(bufs)[i].dirty)
      ensures r == -2 <==> exists i :: 0 <= i < nbuf && old(bufs)[i].Is(DISK, blockno) && old(bufs)[i].locked
      ensures r == -1 ==> bufs == old(bufs)
      ensures r == -2 ==> exists i: nat :: Waits(old(bufs), bufs, i) && old(bufs)[i].Is(DISK, blockno)
      ensures r >= 0 ==>
        && (old(bufs)[r].Is(DISK, blockno) || old(bufs)[r].Idle())
        && bufs == old(bufs)[r := bufs[r]]
        && bufs[r].Is(DISK, blockno) && bufs[r].locked && bufs[r].dirty == old(bufs)[r].dirty
        && bufs[r].refcnt == if old(bufs)[r].Is(DISK, blockno) then old(bufs)[r].refcnt + 1 else 1
      ensures r >= 0 && bufs[r].valid && !bufs[r].dirty ==> view[blockno] == disk[blockno]
    {
      r := Bget(DISK, blockno);
      if r < 0 {
        return;
      }
      var ok := Acquire(r);
      if !ok {
        assert Waits(old(bufs), bufs, r);
        return -2;
      }
    }

    // bread(), once a process has a reference and has been woken.
    method Relock(blockno: nat, r: nat) returns (ok: bool)
      requires Valid() && blockno < |disk| && r < nbuf && bufs[r].Is(DISK, blockno) && bufs[r].refcnt > 0
      modifies this`bufs, this`disk, this`hist
      ensures Valid() && disk == old(disk) && hist == old(hist) && ok == !old(bufs)[r].locked
      ensures bufs == old(bufs)[r := bufs[r]] && (!ok ==> bufs == old(bufs))
      ensures bufs[r].Is(DISK, blockno) && bufs[r].dirty == old(bufs)[r].dirty && bufs[r].refcnt == old(bufs)[r].refcnt
      ensures ok ==> bufs[r].valid && bufs[r].locked && bufs[r].data == view[blockno]
    {
      ok := Acquire(r);
      if ok && !bufs[r].valid {
        Iderw(r);
      }
    }

    // The holder of a buffer changes its data.
    method SetData(b: nat, data: Block)
      requires Valid() && b < nbuf && bufs[b].locked && bufs[b].valid
      modifies this`bufs, this`view
      ensures Valid()
      ensures bufs == old(bufs)[b := old(bufs)[b].(data := data)]
      ensures old(bufs)[b].blockno < |old(view)| && view == old(view)[old(bufs)[b].blockno := data]
    {
      SetCoherent(bufs, disk, view, b, data);
      view := view[bufs[b].blockno := data];
      bufs := bufs[b := bufs[b].(data := data)];
    }

    // log_write()'s flag: keep the buffer until it is written.
    method Pin(b: nat)
      requires Valid() && b < nbuf && bufs[b].locked && bufs[b].valid
      modifies this`bufs
      ensures Valid() && bufs == old(bufs)[b := old(bufs)[b].(dirty := true)]
    {
      KeepsCoherent(bufs, disk, view, b, bufs[b].(dirty := true));
      bufs := bufs[b := bufs[b].(dirty := true)];
    }

    // bwrite()
    method Bwrite(b: nat)
      requires Valid() && b < nbuf && bufs[b].locked && bufs[b].valid
      modifies this`bufs, this`disk, this`hist
      ensures Valid() && bufs == old(bufs)[b := old(bufs)[b].(dirty := false)]
      ensures old(bufs)[b].blockno < |old(disk)|
      ensures disk == old(disk)[old(bufs)[b].blockno := old(bufs)[b].data] && hist == old(hist) + [disk]
    {
      Pin(b);
      Iderw(b);
    }

    // brelse(): whoever changed the data has written or pinned it before.  The
    // last release moves the buffer to the front of the ring.
    method Brelse(b: nat)
      requires Valid() && b < nbuf && bufs[b].locked
      requires bufs[b].valid && !bufs[b].dirty ==> bufs[b].data == disk[bufs[b].blockno]
      modifies this`bufs, this`next, this`prev, this`order, this`stamp, this`clock
      ensures Valid()
      ensures bufs == old(bufs)[b := old(bufs)[b].(locked := false, refcnt := old(bufs)[b].refcnt - 1)]
      ensures old(bufs)[b].refcnt > 1 ==> order == old(order) && stamp == old(stamp)
      ensures old(bufs)[b].refcnt == 1 ==>
        && ToFront(old(order), order, b) && order != [] && order[0] == b && multiset(order) == multiset(old(order))
        && clock == old(clock) + 1 && stamp == old(stamp)[b := clock]
    {
      var b' := bufs[b].(locked := false, refcnt := bufs[b].refcnt - 1);
      KeepsCoherent(bufs, disk, view, b, b');
      bufs := bufs[b := bufs[b].(locked := false)];
      bufs := bufs[b := bufs[b].(refcnt := bufs[b].refcnt - 1)];
      assert bufs == old(bufs)[b := b'];
      if bufs[b].refcnt == 0 {
        MoveToFront(b);
      }
    }

    // The list work of brelse().
    method MoveToFront(b: nat)
      requires Ring(next, prev, order, nbuf) && b in order && |stamp| == nbuf && ByRelease(order, stamp, clock)
      modifies this`next, this`prev, this`order, this`stamp, this`clock
      ensures Ring(next, prev, order, nbuf) && ByRelease(order, stamp, clock)
      ensures ToFront(old(order), order, b) && order != [] && order[0] == b && multiset(order) == multiset(old(order))
      ensures forall c :: c in order <==> c in old(order)
      ensures clock == old(clock) + 1 && b < |old(stamp)| && stamp == old(stamp)[b := clock]
    {
      ghost var x, y := Around(order, b);
      Restamped(x, b, y, stamp, clock);
      Relink(x, b, y);
      MovesFront(x, b, y);
      order := [b] + (x + y);
      clock := clock + 1;
      stamp := stamp[b := clock];
    }

    // The pointer writes of brelse().
    method Relink(ghost x: seq<nat>, b: nat, ghost y: seq<nat>)
      requires Ring(next, prev, x + ([b] + y), nbuf)
      modifies this`next, this`prev
      ensures Ring(next, prev, [b] + (x + y), nbuf)
    {
      RingMove(next, prev, x, b, y, nbuf);
      prev := prev[next[b] := prev[b]];
      next := next[prev[b] := next[b]];
      next := next[b := next[nbuf]];
      prev := prev[b := nbuf];
      prev := prev[next[nbuf] := b];
      next := next[nbuf := b];
    }
  }

  // Reading a block into the one buffer that caches it.
  lemma ReadCoherent(bufs: seq<Buf>, disk: seq<Block>, view: seq<Block>, i: nat)
    requires Coherent(bufs, disk, view) && i < |bufs|
    requires !bufs[i].valid && bufs[i].dev == DISK && bufs[i].blockno < |disk|
    ensures view[bufs[i].blockno] == disk[bufs[i].blockno]
    ensures Coherent(bufs[i := bufs[i].(data := disk[bufs[i].blockno], valid := true)], disk, view)
  {
    var bn := bufs[i].blockno;
    forall k: nat ensures !Caches(bufs, k, bn) {
      assert k < i || k == i || i < k;
    }
    KeepsCoherent(bufs, disk, view, i, bufs[i].(data := disk[bn], valid := true));
  }

  // Changing a locked buffer changes the view of its block alone.
  lemma SetCoherent(bufs: seq<Buf>, disk: seq<Block>, view: seq<Block>, i: nat, data: Block)
    requires Coherent(bufs, disk, view) && i < |bufs| && bufs[i].valid && bufs[i].locked
    ensures bufs[i].blockno < |view|
    ensures Coherent(bufs[i := bufs[i].(data := data)], disk, view[bufs[i].blockno := data])
  {
    var bn := bufs[i].blockno;
    var bufs', view' := bufs[i := bufs[i].(data := data)], view[bn := data];
    forall k | 0 <= k < |bufs'| ensures BufOk(bufs'[k], disk, view') {
      assert BufOk(bufs[k], disk, view);
      assert k != i && bufs[k].valid ==> bufs[k].blockno != bn;
    }
    forall b | 0 <= b < |disk| && view'[b] != disk[b]
      ensures exists k :: Caches(bufs', k, b)
    {
      if b == bn {
        assert Caches(bufs', i, b);
      } else {
        var k :| Caches(bufs, k, b);
        assert Caches(bufs', k, b);
      }
    }
  }

  // Writing a buffer to the disk brings the disk to the view of its block.
  lemma WriteCoherent(bufs: seq<Buf>, disk: seq<Block>, view: seq<Block>, i: nat)
    requires Coherent(bufs, disk, view) && i < |bufs| && bufs[i].valid && bufs[i].locked
    ensures bufs[i].blockno < |view| && view[bufs[i].blockno] == bufs[i].data
    ensures Coherent(bufs[i := bufs[i].(dirty := false)], disk[bufs[i].blockno := bufs[i].data], view)
  {
    var bn := bufs[i].blockno;
    var bufs', disk' := bufs[i := bufs[i].(dirty := false)], disk[bn := bufs[i].data];
    forall k | 0 <= k < |bufs'| ensures BufOk(bufs'[k], disk', view) {
      assert BufOk(bufs[k], disk, view);
      assert k != i && bufs[k].valid ==> bufs[k].blockno != bn;
    }
    forall b | 0 <= b < |disk'| && view[b] != disk'[b]
      ensures exists k :: Caches(bufs', k, b)
    {
      var k :| Caches(bufs, k, b);
      assert Caches(bufs', k, b);
    }
  }

  // Scanning from the back, the first idle buffer found was released no later
  // than any other; if none is found, none is idle.
  lemma OthersNewer(order: seq<nat>, stamp: seq<nat>, clock: nat, bufs: seq<Buf>, n: nat, i: nat)
    requires ByRelease(order, stamp, clock) && |bufs| == n && i <= |order|
    requires (forall b :: b in order ==> b < n) && (forall b :: 0 <= b < n ==> b in order)
    requires forall k :: i <= k < |order| ==> order[k] < n && !bufs[order[k]].Idle()
    ensures forall k :: 0 <= k < n && bufs[k].Idle() ==>
      i > 0 && order[i - 1] < |stamp| && k < |stamp| && stamp[order[i - 1]] <= stamp[k]
  {
    forall k: nat | k < n && bufs[k].Idle()
      ensures i > 0 && order[i - 1] < |stamp| && k < |stamp| && stamp[order[i - 1]] <= stamp[k]
    {
      assert k in order;
      var p :| 0 <= p < |order| && order[p] == k;
      LaterIsOlder(order, stamp, clock, p, i - 1);
    }
  }

  // Releasing b now makes it the newest, and leaves the others in order.
  lemma Restamped(x: seq<nat>, b: nat, y: seq<nat>, stamp: seq<nat>, clock: nat)
    requires ByRelease(x + ([b] + y), stamp, clock) && Distinct(x + ([b] + y))
    ensures b < |stamp| && ByRelease([b] + (x + y), stamp[b := clock + 1], clock + 1)
  {
    var order, moved := x + ([b] + y), [b] + (x + y);
    assert order[|x|] == b;
    assert b in order;
    var stamp' := stamp[b := clock + 1];
    DistinctSplit(x, b, y);
    forall c | c in moved ensures c in order {
      assert c == b || c in x || c in y;
    }
    forall i | 0 <= i < |moved| - 1 ensures Newer(moved, stamp', i) {
      var j := if i == 0 then |x| else if i <= |x| then i - 1 else i;
      var k := if i + 1 <= |x| then i else i + 1;
      assert moved[i] == order[j] && moved[i + 1] == order[k];
      assert order[k] in order;
      if i > 0 {
        LaterIsOlder(order, stamp, clock, j, k);
        assert moved[i] in x + y && moved[i + 1] in x + y;
      }
    }
  }

  // Replacing a buffer by one that caches the same block as well.
  lemma KeepsCoherent(bufs: seq<Buf>, disk: seq<Block>, view: seq<Block>, i: nat, b: Buf)
    requires Coherent(bufs, disk, view) && i < |bufs| && BufOk(b, disk, view)
    requires b.dev == bufs[i].dev && b.blockno == bufs[i].blockno && (bufs[i].valid ==> b.valid)
    ensures Coherent(bufs[i := b], disk, view)
  {
    var bufs' := bufs[i := b];
    forall bn | 0 <= bn < |disk| && view[bn] != disk[bn]
      ensures exists k :: Caches(bufs', k, bn)
    {
      var k :| Caches(bufs, k, bn);
      assert Caches(bufs', k, bn);
    }
  }

  // An idle buffer can be given to a block that is not cached: nothing is lost.
  lemma RecycleCoherent(bufs: seq<Buf>, disk: seq<Block>, view: seq<Block>, i: nat, dev: nat, blockno: nat)
    requires Coherent(bufs, disk, view) && i < |bufs| && bufs[i].Idle() && (dev != 0 || blockno != 0)
    requires forall k :: 0 <= k < |bufs| ==> !bufs[k].Is(dev, blockno)
    ensures Coherent(bufs[i := Buf(dev, blockno, false, false, 1, false, bufs[i].data)], disk, view)
  {
    var bufs' := bufs[i := Buf(dev, blockno, false, false, 1, false, bufs[i].data)];
    forall bn | 0 <= bn < |disk| && view[bn] != disk[bn]
      ensures exists k :: Caches(bufs', k, bn)
    {
      var k :| Caches(bufs, k, bn);
      assert k != i;
      assert Caches(bufs', k, bn);
    }
  }
}
