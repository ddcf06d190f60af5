// The file system on its log: transactions of filewrite() that reach the disk
// through log.c, and what a crash leaves of them.
module Storage {
  import opened Log
  import opened Recovery
  import opened BufferCache
  import opened Dinodes
  import opened Inodes
  import opened Files
  import Blocks

  // ----- stores and disks -----

  // The home blocks of a disk are those of a store.
  ghost predicate Agree(d: Disk, blk: Store, l: Layout) {
    |d| == |blk| && forall b: nat :: b < |blk| && !l.IsLog(b) ==> AgreeAt(d, blk, b)
  }

  ghost predicate AgreeAt(d: Disk, blk: Store, b: nat)
    requires b < |d| == |blk|
  {
    d[b] == blk[b]
  }

  lemma AgreeHome(d: Disk, e: Disk, blk: Store, l: Layout)
    requires HomeEq(e, d, l) && Agree(d, blk, l)
    ensures Agree(e, blk, l)
  {
    forall b: nat | b < |blk| && !l.IsLog(b) ensures AgreeAt(e, blk, b) {
      assert AgreeAt(d, blk, b);
    }
  }

  // From view0 and blk0 on, the blocks of `done` have been brought to those of blk.
  ghost predicate Mixed(view: Disk, blk0: Store, blk: Store, done: set<nat>, l: Layout) {
    |view| == |blk0| == |blk| && forall b: nat :: b < |blk| && !l.IsLog(b) ==> MixedAt(view, blk0, blk, done, b)
  }

  ghost predicate MixedAt(view: Disk, blk0: Store, blk: Store, done: set<nat>, b: nat)
    requires b < |view| == |blk0| == |blk|
  {
    view[b] == if b in done then blk[b] else blk0[b]
  }

  lemma MixedStart(view: Disk, blk0: Store, blk: Store, l: Layout)
    requires Agree(view, blk0, l) && |blk| == |blk0|
    ensures Mixed(view, blk0, blk, {}, l)
  {
    forall b: nat | b < |blk| && !l.IsLog(b) ensures MixedAt(view, blk0, blk, {}, b) {
      assert AgreeAt(view, blk0, b);
    }
  }

  lemma MixedStep(view: Disk, blk0: Store, blk: Store, done: set<nat>, l: Layout, b: nat)
    requires Mixed(view, blk0, blk, done, l) && b < |blk|
    ensures Mixed(view[b := blk[b]], blk0, blk, done + {b}, l)
  {
    var view', done' := view[b := blk[b]], done + {b};
    forall x: nat | x < |blk| && !l.IsLog(x) ensures MixedAt(view', blk0, blk, done', x) {
      assert MixedAt(view, blk0, blk, done, x);
    }
  }

  lemma MixedEnd(view: Disk, blk0: Store, blk: Store, logged: set<nat>, l: Layout, lo: nat)
    requires Mixed(view, blk0, blk, logged, l) && Inodes.Logs(blk0, {}, blk, logged, lo)
    ensures Agree(view, blk, l)
  {
    forall b: nat | b < |blk| && !l.IsLog(b) ensures AgreeAt(view, blk, b) {
      assert MixedAt(view, blk0, blk, logged, b) && ChangeOk(blk0, blk, logged, lo, b);
    }
  }

  // ----- where transactions end in the trace -----

  // The writes before the end of transaction k are those of transactions before k.
  ghost predicate EndsAt(trace: seq<Write>, ends: seq<nat>, k: nat, i: nat)
    requires k < |ends| && i < |trace|
  {
    i < ends[k] <==> trace[i].id < k
  }

  ghost predicate Ends(trace: seq<Write>, ends: seq<nat>) {
    && (forall k: nat :: k < |ends| ==> ends[k] <= |trace|)
    && (forall k: nat, i: nat :: k < |ends| && i < |trace| ==> EndsAt(trace, ends, k, i))
  }

  // The replay up to the end of transaction k gives the blocks of state k.
  ghost predicate StateAt(base: Disk, trace: seq<Write>, ends: seq<nat>, states: seq<Store>, l: Layout, k: nat)
    requires k < |ends| == |states| && ends[k] <= |trace|
  {
    Agree(Replay(base, trace[..ends[k]]), states[k], l)
  }

  ghost predicate Chained(base: Disk, trace: seq<Write>, ends: seq<nat>, states: seq<Store>, l: Layout) {
    && |ends| == |states| && Ends(trace, ends)
    && forall k: nat :: k < |ends| ==> StateAt(base, trace, ends, states, l, k)
  }

  // A mark that splits no operation is the end of a transaction.
  lemma MarkEnds(trace: seq<Write>, ends: seq<nat>, m: Mark)
    requires Ends(trace, ends) && Unsplit(trace, m) && m.id < |ends|
    ensures m.len == ends[m.id]
  {
    var e := ends[m.id];
    assert m.len < |trace| ==> EndsAt(trace, ends, m.id, m.len);
    assert e < |trace| ==> EndsAt(trace, ends, m.id, e);
  }

  // One more transaction, whose writes all have its number.
  lemma ChainMore(base: Disk, trace: seq<Write>, ends: seq<nat>, states: seq<Store>, l: Layout, trace': seq<Write>, blk: Store)
    requires Chained(base, trace, ends, states, l) && trace <= trace' && 0 < |ends|
    requires forall i :: 0 <= i < |trace| ==> trace[i].id < |ends| - 1
    requires forall i :: |trace| <= i < |trace'| ==> trace'[i].id == |ends| - 1
    requires Agree(Replay(base, trace'), blk, l)
    ensures Chained(base, trace', ends + [|trace'|], states + [blk], l)
  {
    var ends', states' := ends + [|trace'|], states + [blk];
    forall k: nat, i: nat | k < |ends'| && i < |trace'| ensures EndsAt(trace', ends', k, i) {
      if k < |ends| && i < |trace| {
        assert EndsAt(trace, ends, k, i);
      }
    }
    forall k: nat | k < |ends'| ensures StateAt(base, trace', ends', states', l, k) {
      if k < |ends| {
        assert StateAt(base, trace, ends, states, l, k);
        assert trace'[..ends[k]] == trace[..ends[k]];
      } else {
        assert trace'[..|trace'|] == trace';
      }
    }
  }

  // ----- states of the file system -----

  // What the blocks are a file system of: every block in use has one owner, the
  // inode table holds the inodes, and every file is mapped up to its size.
  ghost predicate Sound(blk: Store, sb: Super, nodes: seq<Node>, own: map<nat, Ref>) {
    Owned(blk, sb, nodes, own, {}) && Stored(blk, sb, nodes) && forall j: nat :: j < |nodes| ==> FileOk(blk, nodes[j])
  }

  datatype State = State(blk: Store, ino: seq<Node>, own: map<nat, Ref>)

  // A transaction of filewrite(): what it was given, and its result.
  datatype Tx = Tx(inum: nat, off: nat, data: seq<Blocks.byte>, r: int)

  ghost function Stores(ss: seq<State>): (r: seq<Store>)
    ensures |r| == |ss|
  {
    seq(|ss|, k requires 0 <= k < |ss| => ss[k].blk)
  }

  ghost predicate SoundAt(ss: seq<State>, sb: Super, k: nat)
    requires k < |ss|
  {
    Sound(ss[k].blk, sb, ss[k].ino, ss[k].own)
  }

  ghost predicate TxAt(ss: seq<State>, txs: seq<Tx>, k: nat)
    requires k < |txs| && |ss| == |txs| + 1
  {
    Did(ss[k], txs[k], ss[k + 1])
  }

  ghost predicate Did(s: State, x: Tx, s': State) {
    ChunkDone(s.blk, s.ino, s'.blk, s'.ino, x.inum, x.off, x.data, x.r)
  }

  // Each state is sound, and each transaction leads from one to the next.
  ghost predicate Run(ss: seq<State>, txs: seq<Tx>, sb: Super) {
    && |ss| == |txs| + 1
    && (forall k: nat :: k < |ss| ==> SoundAt(ss, sb, k))
    && (forall k: nat :: k < |txs| ==> TxAt(ss, txs, k))
  }

  lemma SoundMore(ss: seq<State>, sb: Super, s: State, k: nat)
    requires k <= |ss| && (k < |ss| ==> SoundAt(ss, sb, k)) && Sound(s.blk, sb, s.ino, s.own)
    ensures SoundAt(ss + [s], sb, k)
  {
    assert (ss + [s])[k] == if k < |ss| then ss[k] else s;
  }

  lemma StoresMore(ss: seq<State>, s: State)
    ensures Stores(ss + [s]) == Stores(ss) + [s.blk]
  {
  }

  lemma SoundAll(ss: seq<State>, sb: Super, s: State)
    requires (forall k: nat :: k < |ss| ==> SoundAt(ss, sb, k)) && Sound(s.blk, sb, s.ino, s.own)
    ensures forall k: nat :: k < |ss + [s]| ==> SoundAt(ss + [s], sb, k)
  {
    forall k: nat | k < |ss + [s]| ensures SoundAt(ss + [s], sb, k) {
      SoundMore(ss, sb, s, k);
    }
  }

  lemma TxOne(ss: seq<State>, txs: seq<Tx>, s: State, x: Tx, k: nat)
    requires |ss| == |txs| + 1 && k <= |txs|
    requires if k < |txs| then TxAt(ss, txs, k) else Did(ss[k], x, s)
    ensures TxAt(ss + [s], txs + [x], k)
  {
    var a, b, y := (ss + [s])[k], (ss + [s])[k + 1], (txs + [x])[k];
    assert a == ss[k];
    if k < |txs| {
      assert b == ss[k + 1] && y == txs[k];
    } else {
      assert b == s && y == x;
    }
  }

  lemma TxAll(ss: seq<State>, txs: seq<Tx>, s: State, x: Tx)
    requires |ss| == |txs| + 1 && forall k: nat :: k < |txs| ==> TxAt(ss, txs, k)
    requires Did(ss[|txs|], x, s)
    ensures forall k: nat :: k < |txs + [x]| ==> TxAt(ss + [s], txs + [x], k)
  {
    forall k: nat | k < |txs + [x]| ensures TxAt(ss + [s], txs + [x], k) {
      TxOne(ss, txs, s, x, k);
    }
  }

  lemma RunMore(ss: seq<State>, txs: seq<Tx>, sb: Super, s: State, x: Tx)
    requires Run(ss, txs, sb) && Sound(s.blk, sb, s.ino, s.own) && Did(ss[|txs|], x, s)
    ensures Run(ss + [s], txs + [x], sb) && Stores(ss + [s]) == Stores(ss) + [s.blk]
  {
    SoundAll(ss, sb, s);
    TxAll(ss, txs, s, x);
    StoresMore(ss, s);
  }

  // ----- the machine -----

  class Machine {
    const log: LogState
    const fs: FileSystem
    ghost var states: seq<State>     // the file system between transactions
    ghost var txs: seq<Tx>           // the transactions so far
    ghost var ends: seq<nat>         // the logged writes before each state

    // The log has room for a transaction, on blocks that are not the file system's.
    ghost predicate Sized()
    {
      && log.l.start + log.l.size <= fs.sb.inodestart && fs.sb.size <= Blocks.BPB
      && 7 <= log.maxop <= log.l.cap && 7 < log.l.size
    }

    // No operation is in flight.
    ghost predicate Resting()
      reads log, log.c
    {
      && log.Valid() && Quiet(log.c.bufs) && !log.committing && log.n == 0
      && log.ops != [] && forall p :: 0 <= p < |log.ops| ==> log.ops[p].Out?
    }

    ghost predicate Recorded()
      reads this, log, log.c, fs
    {
      && Run(states, txs, fs.sb) && states[|txs|] == State(fs.blk, fs.ino, fs.own)
      && Chained(log.base, log.trace, ends, Stores(states), log.l) && log.nextId == |txs|
    }

    ghost predicate Valid()
      reads this, log, log.c, fs
    {
      Sized() && Resting() && fs.Valid() && Agree(log.c.view, fs.blk, log.l) && Recorded()
    }

    // After recovery at boot: the home blocks of the disk are a sound file system.
    constructor (l: LogState, f: FileSystem)
      requires l.Valid() && Quiet(l.c.bufs) && !l.committing && l.n == 0 && l.ops != []
      requires forall p :: 0 <= p < |l.ops| ==> l.ops[p].Out?
      requires l.base == l.c.view && l.trace == [] && l.nextId == 0 && f.Valid() && Agree(l.c.view, f.blk, l.l)
      requires l.l.start + l.l.size <= f.sb.inodestart && f.sb.size <= Blocks.BPB
      requires 7 <= l.maxop <= l.l.cap && 7 < l.l.size
      ensures Valid() && log == l && fs == f && states == [State(f.blk, f.ino, f.own)] && txs == []
    {
      log, fs := l, f;
      states, txs, ends := [State(f.blk, f.ino, f.own)], [], [0];
      new;
      assert SoundAt(states, fs.sb, 0);
      assert StateAt(log.base, log.trace, ends, Stores(states), log.l, 0);
    }

    // The one operation in flight may log `left` more blocks; its writes follow trace0.
    ghost predicate Writing(left: nat, trace0: seq<Write>)
      reads log, log.c
    {
      && log.Valid() && Quiet(log.c.bufs) && !log.committing && 0 < log.nextId
      && Alone(log.ops, log.nextId - 1, left) && log.n + left <= 7
      && OwnWrites(trace0, log.trace, log.nextId - 1)
    }

    // bread(), log_write() and brelse() of a block; no panic is reached.
    method Use(b: nat, data: Block)
      requires log.Valid() && Quiet(log.c.bufs) && log.ops != [] && log.ops[0].In? && log.ops[0].left > 0
      requires HomeBlock(log.c.disk, log.l, b) && !log.TooBig()
      modifies log.c, log`n, log`block, log`ops, log`trace
      ensures log.Valid() && Quiet(log.c.bufs) && log.c.disk == old(log.c.disk) && log.c.hist == old(log.c.hist)
      ensures log.Logs(b, data, old(log.c.view), old(log.trace), old(log.n), old(log.ops), 0, old(log.Absorbs(b)))
    {
      ghost var bufs0 := log.c.bufs;
      var r := log.Hold(b);
      ghost var bufs1 := log.c.bufs;
      var ok := log.LogWrite(0, r, data);
      ghost var bufs2 := log.c.bufs;
      log.Release(r);
      PushQuiet(bufs0, bufs1, bufs2, log.c.bufs, r);
    }

    method Push(b: nat, data: Block, ghost left: nat, ghost trace0: seq<Write>)
      requires Sized() && Writing(left + 1, trace0) && HomeBlock(log.c.disk, log.l, b)
      modifies log.c, log`n, log`block, log`ops, log`trace
      ensures Writing(left, trace0) && b < |old(log.c.view)| && log.c.view == old(log.c.view)[b := data]
      ensures log.c.disk == old(log.c.disk) && log.c.hist == old(log.c.hist)
    {
      Use(b, data);
    }

    // The blocks of `rest` are still to be logged.
    ghost predicate PushState(rest: set<nat>, blk0: Store, trace0: seq<Write>)
      reads this, log, log.c, fs
    {
      && Sized() && rest <= fs.logged && Writing(|rest|, trace0)
      && Inodes.Logs(blk0, {}, fs.blk, fs.logged, fs.sb.inodestart)
      && Mixed(log.c.view, blk0, fs.blk, fs.logged - rest, log.l)
    }

    method PushOne(b: nat, ghost rest: set<nat>, ghost blk0: Store, ghost trace0: seq<Write>)
      requires b in rest && PushState(rest, blk0, trace0)
      modifies log.c, log`n, log`block, log`ops, log`trace
      ensures PushState(rest - {b}, blk0, trace0)
      ensures log.c.disk == old(log.c.disk) && log.c.hist == old(log.c.hist)
    {
      assert LoggedOk({}, fs.logged, fs.sb.inodestart, |blk0|, b);
      MixedStep(log.c.view, blk0, fs.blk, fs.logged - rest, log.l, b);
      assert fs.logged - (rest - {b}) == fs.logged - rest + {b};
      ghost var left := |rest - {b}|;
      Push(b, fs.blk[b], left, trace0);
    }

    // The blocks that a transaction has logged go into the log, in any order.
    method PushAll(ghost blk0: Store, ghost trace0: seq<Write>)
      requires PushState(fs.logged, blk0, trace0)
      modifies log.c, log`n, log`block, log`ops, log`trace
      ensures Writing(0, trace0) && Agree(log.c.view, fs.blk, log.l)
      ensures log.c.disk == old(log.c.disk) && log.c.hist == old(log.c.hist)
    {
      var rest := fs.logged;
      while rest != {}
        invariant PushState(rest, blk0, trace0)
        invariant log.c.disk == old(log.c.disk) && log.c.hist == old(log.c.hist)
        decreases |rest|
      {
        var b: nat :| b in rest;
        PushOne(b, rest, blk0, trace0);
        rest := rest - {b};
      }
      assert fs.logged - {} == fs.logged;
      MixedEnd(log.c.view, blk0, fs.blk, fs.logged, log.l, fs.sb.inodestart);
    }

    // begin_op(), when no operation is in flight.
    method Begin()
      requires Sized() && Resting()
      modifies log`outstanding, log`ops, log`nextId
      ensures Writing(7, log.trace) && log.nextId == old(log.nextId) + 1
    {
      AllOut(log.ops);
      var ok := log.BeginOp(0);
    }

    // end_op() and commit().
    method End(ghost trace0: seq<Write>)
      requires Sized() && Writing(0, trace0)
      modifies log, log.c
      ensures Resting() && HomeEq(log.c.view, old(log.c.view), log.l) && old(log.c.hist) <= log.c.hist
      ensures log.trace == old(log.trace) && log.base == old(log.base) && log.nextId == old(log.nextId)
    {
      var doCommit := log.EndOp(0);
      AllOut(log.ops);
      log.Commit(map[]);
    }

    // One transaction of filewrite(): begin_op(), writei() of a chunk, end_op().  No
    // panic of the log or the cache is reached; ok is false when balloc() panics,
    // and then the disk has not changed.
    method Transact(i: nat, off: nat, data: seq<Blocks.byte>) returns (ok: bool, r: int)
      requires Valid() && i < |fs.ino| && off < Blocks.WORD && |data| <= CHUNK
      modifies this, log, log.c, fs
      ensures old(log.c.hist) <= log.c.hist
      ensures ok ==> Valid() && txs == old(txs) + [Tx(i, off, data, r)] && states == old(states) + [State(fs.blk, fs.ino, fs.own)]
      ensures ok ==> ChunkDone(old(fs.blk), old(fs.ino), fs.blk, fs.ino, i, off, data, r)
      ensures !ok ==> log.Valid() && log.c.hist == old(log.c.hist) && fs.Full()
    {
      ok, r := Work(i, off, data);
      if ok {
        Finish(old(fs.blk), old(log.trace));
        Record(old(log.trace), Tx(i, off, data, r));
      }
    }

    // The transaction goes through the log to the disk.
    method Finish(ghost blk0: Store, ghost trace0: seq<Write>)
      requires PushState(fs.logged, blk0, trace0)
      modifies log, log.c
      ensures Resting() && Agree(log.c.view, fs.blk, log.l) && old(log.c.hist) <= log.c.hist
      ensures log.base == old(log.base) && log.nextId == old(log.nextId) > 0
      ensures OwnWrites(trace0, log.trace, log.nextId - 1)
    {
      PushAll(blk0, trace0);
      ghost var view := log.c.view;
      End(trace0);
      AgreeHome(view, log.c.view, fs.blk, log.l);
    }

    // The transaction on the buffers, before its blocks are in the log.
    method Work(i: nat, off: nat, data: seq<Blocks.byte>) returns (ok: bool, r: int)
      requires Sized() && Resting() && fs.Valid() && Agree(log.c.view, fs.blk, log.l)
      requires i < |fs.ino| && off < Blocks.WORD && |data| <= CHUNK
      modifies log`outstanding, log`ops, log`nextId, fs
      ensures log.nextId == old(log.nextId) + 1
      ensures ok ==> fs.Valid() && PushState(fs.logged, old(fs.blk), log.trace)
      ensures ok ==> ChunkDone(old(fs.blk), old(fs.ino), fs.blk, fs.ino, i, off, data, r)
      ensures !ok ==> log.Valid() && fs.Full()
    {
      Begin();
      fs.logged := {};
      ok, r := fs.Writei(i, data, off);
      if !ok {
        return;
      }
      ChunkBound(fs.blk, fs.sb, fs.ino[i], i, off, |data|, fs.logged);
      MixedStart(log.c.view, old(fs.blk), fs.blk, log.l);
      assert fs.logged - fs.logged == {};
    }

    // The history of the file system gains a transaction.
    ghost method Record(trace0: seq<Write>, x: Tx)
      requires Sized() && Resting() && fs.Valid() && Agree(log.c.view, fs.blk, log.l)
      requires Run(states, txs, fs.sb) && Chained(log.base, trace0, ends, Stores(states), log.l) && log.nextId == |txs| + 1
      requires OwnWrites(trace0, log.trace, |txs|) && forall k :: 0 <= k < |trace0| ==> trace0[k].id < |txs|
      requires ChunkDone(states[|txs|].blk, states[|txs|].ino, fs.blk, fs.ino, x.inum, x.off, x.data, x.r)
      modifies this
      ensures Valid() && txs == old(txs) + [x] && states == old(states) + [State(fs.blk, fs.ino, fs.own)]
    {
      ghost var s := State(fs.blk, fs.ino, fs.own);
      RunMore(states, txs, fs.sb, s, x);
      AgreeHome(log.c.view, Replay(log.base, log.trace), fs.blk, log.l);
      ChainMore(log.base, trace0, ends, Stores(states), log.l, log.trace, fs.blk);
      ends := ends + [|log.trace|];
      states, txs := states + [s], txs + [x];
    }

    // filewrite() without the file's offset: whole chunks, until all are written or
    // one is refused.  Each state on the way has whole chunks and nothing else.
    method FileWrite(i: nat, off: nat, src: seq<Blocks.byte>) returns (ok: bool, w: nat)
      requires Valid() && i < |fs.ino| && off < Blocks.WORD
      modifies this, log, log.c, fs
      ensures ok ==> Valid() && Partly(old(fs.blk), old(fs.ino), states, i, off, src, |old(txs)|)
      ensures ok ==> Progress(old(fs.blk), old(fs.ino), fs.blk, fs.ino, i, off, src, w)
      ensures ok && w < |src| ==> Refused(Contents(old(fs.blk), old(fs.ino)[i]), off, |src|, w)
      // all bytes are written exactly if they leave no gap and fit a file
      ensures ok ==> w <= |src| && (w == |src| <==>
        |src| == 0 || (off <= |Contents(old(fs.blk), old(fs.ino)[i])| && off + |src| <= MAXFILE * Blocks.BSIZE))
      ensures ok && w == |src| > 0 ==>
        && off <= |Contents(old(fs.blk), old(fs.ino)[i])| && i < |fs.ino|
        && Contents(fs.blk, fs.ino[i]) == Overwrite(Contents(old(fs.blk), old(fs.ino)[i]), off, src)
      ensures !ok ==> log.Valid() && fs.Full()
    {
      ProgressStart(fs.blk, fs.ino, i, off, src);
      PartlyStart(fs.blk, fs.ino, states, i, off, src, |txs|);
      ok, w := FileLoop(i, off, src, fs.blk, fs.ino, |txs|);
      assert src[..|src|] == src;
    }

    // The loop of filewrite().
    method FileLoop(i: nat, off: nat, src: seq<Blocks.byte>, ghost blk0: Store, ghost ino0: seq<Node>, ghost from: nat)
      returns (ok: bool, w: nat)
      requires FileState(blk0, ino0, i, off, src, from, 0)
      modifies this, log, log.c, fs
      ensures ok ==> FileState(blk0, ino0, i, off, src, from, w)
      ensures ok ==> w <= |src| && (w < |src| ==> Refused(Contents(blk0, ino0[i]), off, |src|, w))
      ensures !ok ==> log.Valid() && fs.Full()
    {
      w := 0;
      while w < |src|
        invariant FileState(blk0, ino0, i, off, src, from, w)
      {
        var r;
        ok, r, w := Turn(i, off, src, w, blk0, ino0, from);
        if !ok || r < 0 {
          return;
        }
      }
      ok := true;
    }

    ghost predicate FileState(blk0: Store, ino0: seq<Node>, i: nat, off: nat, src: seq<Blocks.byte>, from: nat, w: nat)
      reads this, log, log.c, fs
    {
      Valid() && i < |fs.ino| && off < Blocks.WORD && Going(blk0, ino0, fs.blk, fs.ino, states, i, off, src, from, w)
    }

    // A turn of filewrite()'s loop.
    method Turn(i: nat, off: nat, src: seq<Blocks.byte>, w: nat, ghost blk0: Store, ghost ino0: seq<Node>, ghost from: nat)
      returns (ok: bool, r: int, w': nat)
      requires FileState(blk0, ino0, i, off, src, from, w) && w < |src|
      modifies this, log, log.c, fs
      ensures ok ==> r == -1 || r == ChunkSize(|src|, w)
      ensures ok ==> w' == (if r == -1 then w else w + r) && FileState(blk0, ino0, i, off, src, from, w')
      ensures ok && r == -1 ==> Refused(Contents(blk0, ino0[i]), off, |src|, w)
      ensures !ok ==> log.Valid() && fs.Full()
    {
      var data := src[w..w + ChunkSize(|src|, w)];
      assert w > 0 ==> off + w <= MAXFILE * Blocks.BSIZE;
      var pos := off + w;
      w' := w;
      ok, r := Transact(i, pos, data);
      if ok {
        w' := if r < 0 then w else w + r;
        ghost var k := GoesOn(blk0, ino0, old(fs.blk), old(fs.ino), State(fs.blk, fs.ino, fs.own), old(states), i, off, src, from, w, pos, data, r);
      }
    }

    // The number of transactions that survive a crash which leaves disk k.
    ghost function Survivors(k: nat): (j: nat)
      requires Valid() && k < |log.c.hist|
      reads this, log, log.c, fs
      ensures j < |states|
    {
      log.CrashKeepsWholeOperations(k, k, []);
      log.marks[log.stage[k]].id
    }

    // Crash consistency of the file system: from any disk on the way, however often
    // recovery crashes too, the home blocks end up as a sound file system: the one
    // after whole transactions, the first Survivors(k).
    lemma CrashConsistency(k: nat, cuts: seq<nat>)
      requires Valid() && k < |log.c.hist|
      ensures LogOk(log.c.hist[k], log.l)
      ensures Agree(Recovered(Reboots(log.c.hist[k], log.l, cuts), log.l), states[Survivors(k)].blk, log.l)
      ensures SoundAt(states, fs.sb, Survivors(k))
    {
      log.CrashKeepsWholeOperations(k, k, cuts);
      var m := log.marks[log.stage[k]];
      MarkEnds(log.trace, ends, m);
      assert StateAt(log.base, log.trace, ends, Stores(states), log.l, m.id);
      AgreeHome(Replay(log.base, log.trace[..m.len]), Recovered(Reboots(log.c.hist[k], log.l, cuts), log.l), states[m.id].blk, log.l);
    }

    // Later disks keep what earlier ones had, and the last disk has everything.
    lemma Durability(j: nat, k: nat)
      requires Valid() && j <= k < |log.c.hist|
      ensures Survivors(j) <= Survivors(k)
    {
      log.CrashKeepsWholeOperations(j, k, []);
    }

    lemma LastDisk(cuts: seq<nat>)
      requires Valid()
      ensures log.c.hist != [] && LogOk(log.c.hist[|log.c.hist| - 1], log.l)
      ensures Agree(Recovered(Reboots(log.c.hist[|log.c.hist| - 1], log.l, cuts), log.l), states[|txs|].blk, log.l)
    {
      var k := |log.c.hist| - 1;
      log.CrashKeepsWholeOperations(k, k, cuts);
      assert log.block[..log.n] == [];
      NoPinsView(log.c.bufs, log.c.disk, log.c.view);
      RebootsKeep(log.c.disk, log.l, cuts);
      AgreeHome(log.c.view, Recovered(Reboots(log.c.disk, log.l, cuts), log.l), fs.blk, log.l);
    }
  }

  // File i of the state is the file of before with the first whole chunks of src
  // written at off, and the other files are those of before.
  ghost predicate WholeChunks(blk0: Store, ino0: seq<Node>, s: State, i: nat, off: nat, src: seq<Blocks.byte>) {
    exists w: nat :: Chunks(blk0, ino0, s, i, off, src, w)
  }

  ghost predicate Chunks(blk0: Store, ino0: seq<Node>, s: State, i: nat, off: nat, src: seq<Blocks.byte>, w: nat) {
    (w % CHUNK == 0 || w == |src|) && Progress(blk0, ino0, s.blk, s.ino, i, off, src, w)
  }

  // The states from number `from` on have whole chunks of src.
  ghost predicate Partly(blk0: Store, ino0: seq<Node>, ss: seq<State>, i: nat, off: nat, src: seq<Blocks.byte>, from: nat) {
    from < |ss| && forall j: nat :: from <= j < |ss| ==> WholeChunks(blk0, ino0, ss[j], i, off, src)
  }

  lemma PartlyStart(blk0: Store, ino0: seq<Node>, ss: seq<State>, i: nat, off: nat, src: seq<Blocks.byte>, from: nat)
    requires |ss| == from + 1 && ss[from].blk == blk0 && ss[from].ino == ino0 && Progress(blk0, ino0, blk0, ino0, i, off, src, 0)
    ensures Partly(blk0, ino0, ss, i, off, src, from)
  {
    assert Chunks(blk0, ino0, ss[from], i, off, src, 0);
  }

  lemma PartlyMore(blk0: Store, ino0: seq<Node>, ss: seq<State>, s: State, i: nat, off: nat, src: seq<Blocks.byte>, from: nat, w: nat)
    requires Partly(blk0, ino0, ss, i, off, src, from)
    requires (w % CHUNK == 0 || w == |src|) && Progress(blk0, ino0, s.blk, s.ino, i, off, src, w)
    ensures Partly(blk0, ino0, ss + [s], i, off, src, from)
  {
    assert Chunks(blk0, ino0, s, i, off, src, w);
  }

  // filewrite() has come to byte w.
  ghost predicate Going(blk0: Store, ino0: seq<Node>, blk: Store, ino: seq<Node>, ss: seq<State>, i: nat, off: nat, src: seq<Blocks.byte>,
      from: nat, w: nat)
  {
    && (w % CHUNK == 0 || w == |src|)
    && Progress(blk0, ino0, blk, ino, i, off, src, w) && Partly(blk0, ino0, ss, i, off, src, from)
  }

  lemma GoesOn(blk0: Store, ino0: seq<Node>, blk1: Store, ino1: seq<Node>, s: State, ss: seq<State>, i: nat, off: nat,
      src: seq<Blocks.byte>, from: nat, w: nat, pos: nat, data: seq<Blocks.byte>, r: int) returns (w': nat)
    requires Going(blk0, ino0, blk1, ino1, ss, i, off, src, from, w) && w < |src| && data == src[w..w + ChunkSize(|src|, w)]
    requires pos == off + w && ChunkDone(blk1, ino1, s.blk, s.ino, i, pos, data, r)
    ensures r == -1 || r == ChunkSize(|src|, w)
    ensures w' == (if r == -1 then w else w + r) && Going(blk0, ino0, s.blk, s.ino, ss + [s], i, off, src, from, w')
    ensures r == -1 ==> Refused(Contents(blk0, ino0[i]), off, |src|, w)
  {
    ProgressDone(blk0, ino0, blk1, ino1, s.blk, s.ino, i, off, src, w, pos, data, r);
    w' := NextByte(|src|, w, |data|, r);
    PartlyMore(blk0, ino0, ss, s, i, off, src, from, w');
  }

  lemma NextByte(n: nat, w: nat, k: nat, r: int) returns (w': nat)
    requires w < n && k == ChunkSize(n, w) && (r == -1 || r == k) && (w % CHUNK == 0 || w == n)
    ensures w' == (if r == -1 then w else w + r) && (w' % CHUNK == 0 || w' == n)
  {
    ChunkAligned(n, w);
    w' := if r == -1 then w else w + k;
  }

  // Process 0 is in operation id, with an allowance of `left` more blocks; no
  // other process is in one.
  ghost predicate Alone(ops: seq<Op>, id: nat, left: nat) {
    && ops != [] && ops[0].In? && ops[0].id == id && left <= ops[0].left
    && forall p :: 0 < p < |ops| ==> ops[p].Out?
  }

  ghost predicate OwnWrites(trace0: seq<Write>, trace: seq<Write>, id: nat) {
    trace0 <= trace && forall i :: |trace0| <= i < |trace| ==> trace[i].id == id
  }

  // A buffer is taken, changed and released.
  lemma PushQuiet(bufs0: seq<Buf>, bufs1: seq<Buf>, bufs2: seq<Buf>, bufs: seq<Buf>, r: nat)
    requires Quiet(bufs0) && r < |bufs0| == |bufs1| == |bufs2| == |bufs|
    requires bufs1 == bufs0[r := bufs1[r]] && bufs2 == bufs1[r := bufs2[r]] && bufs == bufs2[r := bufs[r]]
    requires bufs[r].refcnt == 0 && !bufs[r].locked
    ensures Quiet(bufs)
  {
  }

  // Switching the machine on again after a crash that has left disk k, and after
  // recoveries that were cut off: its file system is the one that survived.
  method Restart(ghost m: Machine, ghost k: nat, ghost cuts: seq<nat>, image: Disk, l: Layout, maxop: nat, sb: Super, s: Survivor,
      ghost own: map<nat, Ref>, nbuf: nat, procs: nat)
    returns (r: Machine)
    requires m.Valid() && k < |m.log.c.hist| && LogOk(m.log.c.hist[k], m.log.l) && image == Reboots(m.log.c.hist[k], m.log.l, cuts)
    requires l == m.log.l && maxop == m.log.maxop && sb == m.fs.sb && State(s.blk, s.ino, own) == m.states[m.Survivors(k)]
    requires 2 <= nbuf && (l.cap < nbuf || l.size <= nbuf) && 0 < procs
    ensures r.Valid() && r.txs == [] && r.states == [m.states[m.Survivors(k)]] && r.log.l == l && r.fs.sb == sb
  {
    m.CrashConsistency(k, cuts);
    assert SoundAt(m.states, sb, m.Survivors(k));
    ghost var survived := m.states[m.Survivors(k)];
    var log := BootLog(image, nbuf, l, maxop, procs);
    AgreeHome(Recovered(image, l), log.c.view, s.blk, l);
    var fs := new FileSystem(sb, s.blk, s.ino, own);
    r := new Machine(log, fs);
  }

  method BootLog(image: Disk, nbuf: nat, l: Layout, maxop: nat, procs: nat) returns (log: LogState)
    requires LogOk(image, l) && 2 <= nbuf && (l.cap < nbuf || l.size <= nbuf) && 0 < procs
    ensures fresh(log) && fresh(log.c) && log.Valid() && Quiet(log.c.bufs) && !log.committing && log.n == 0
    ensures log.ops != [] && forall p :: 0 <= p < |log.ops| ==> log.ops[p].Out?
    ensures log.l == l && log.maxop == maxop && log.base == log.c.view && log.trace == [] && log.nextId == 0
    ensures HomeEq(log.c.view, Recovered(image, l), l)
  {
    log := new LogState.Boot(image, nbuf, l, maxop, procs);
    log.InitLog(image);
  }

  datatype Survivor = Survivor(blk: Store, ino: seq<Node>)

  // ----- a small disk -----

  // Blocks 1 to 10 are the log, 12 is the inode table, 13 the bitmap, 14 and 15 hold data.
  function SmallSuper(): Super { Super(16, 12, 13, 14) }

  // The bits of blocks 0 to 13 are set.
  function SmallMap(): (b: Blocks.Block) {
    Blocks.Zero()[0 := 0xFF][1 := 0x3F]
  }

  function SmallBlock(i: nat): (b: Blocks.Block) { if i == 13 then SmallMap() else Blocks.Zero() }

  function SmallStore(): (blk: Store)
    ensures |blk| == 16
  {
    seq(16, i requires 0 <= i < 16 => SmallBlock(i))
  }

  // The n low bits of a number are set.
  lemma {:induction false} Ones(n: nat, k: nat)
    ensures Blocks.Power(n) > 0 && (Blocks.Bit(Blocks.Power(n) - 1, k) <==> k < n)
  {
    if n > 0 {
      Ones(n - 1, if k > 0 then k - 1 else 0);
      assert (Blocks.Power(n) - 1) / 2 == Blocks.Power(n - 1) - 1;
    } else if k > 0 {
      Ones(0, k - 1);
    }
  }

  lemma SmallBits(b: nat)
    requires b < 16
    ensures Blocks.BitAt(SmallMap(), b) <==> b < 14
  {
    assert Blocks.Power(8) == 256 && Blocks.Power(6) == 64;
    Ones(8, b % 8);
    Ones(6, b % 8);
    assert b == b / 8 * 8 + b % 8;
  }

  lemma ZeroUnpacks(s: nat)
    requires s < IPB
    ensures Unpack(Blocks.Zero(), s) == Dinode(0, seq(NDIRECT + 1, _ => 0))
  {
    forall k: nat | k < Blocks.NINDIRECT ensures Blocks.Entry(Blocks.Zero(), k) == 0 {
      Blocks.ZeroEntries(k);
    }
    assert Words(Blocks.Zero(), At(s) + 3) == seq(NDIRECT + 1, _ => 0);
  }

  // The small disk is a sound file system with one empty inode.
  lemma SmallSound()
    ensures Sound(SmallStore(), SmallSuper(), [Dinode(0, seq(NDIRECT + 1, _ => 0))], map[])
  {
    var blk, sb, nodes := SmallStore(), SmallSuper(), [Dinode(0, seq(NDIRECT + 1, _ => 0))];
    SlotsFit();
    ZeroUnpacks(0);
    assert BlockOf(0) == 0 && SlotOf(0) == 0;
    assert StoredAt(blk, sb, nodes[0], 0);
    forall s: nat | s < SLOTS ensures Slot(blk, nodes[0], s) == 0 && SlotOk(blk, nodes, map[], 0, s) {
    }
    forall b: nat | b < sb.size ensures BitOk(blk, sb, map[], {}, b) {
      SmallBits(b);
    }
  }

  // Its log is empty.
  lemma SmallLogOk(l: Layout)
    requires l == Layout(1, 10, 9)
    ensures LogOk(SmallStore(), l) && Agree(Recovered(SmallStore(), l), SmallStore(), l)
  {
    var d: Disk := SmallStore();
    assert d[1] == SmallBlock(1);
    assert Count(d, l) == 0;
  }

  // A machine with that disk, switched on.
  method NewMachine() returns (m: Machine)
    ensures m.Valid() && |m.fs.ino| == 1 && m.fs.ino[0].size == 0
  {
    var l, blk := Layout(1, 10, 9), SmallStore();
    SmallSound();
    SmallLogOk(l);
    var log := BootLog(blk, 10, l, 9, 1);
    AgreeHome(Recovered(blk, l), log.c.view, blk, l);
    var fs := new FileSystem(SmallSuper(), blk, [Dinode(0, seq(NDIRECT + 1, _ => 0))], map[]);
    m := new Machine(log, fs);
  }
}
