// Open files of file.c over the inode layer: filewrite() in transactions that
// fit the log, and fileread().
module Files {
  import opened Blocks
  import opened Inodes
  import opened Dinodes

  const INT_MAX: nat := 0x7FFF_FFFF

  // Two consecutive writes are one write.
  lemma OverwriteTwice(c: seq<byte>, off: nat, a: seq<byte>, b: seq<byte>)
    requires off <= |c|
    ensures off + |a| <= |Overwrite(c, off, a)|
    ensures Overwrite(Overwrite(c, off, a), off + |a|, b) == Overwrite(c, off, a + b)
  {
    var c1, r := Overwrite(c, off, a), Overwrite(c, off, a + b);
    assert c1[..off + |a|] == c[..off] + a;
    if off + |a| + |b| < |c| {
      assert c1[off + |a| + |b|..] == c[off + |a| + |b|..];
    }
  }

  // What a read at the same place returns after a write.
  lemma OverwriteRead(c: seq<byte>, off: nat, src: seq<byte>)
    requires off <= |c|
    ensures Overwrite(c, off, src)[off..off + |src|] == src
    ensures forall k :: 0 <= k < |c| && !(off <= k < off + |src|) ==> Overwrite(c, off, src)[k] == c[k]
  {
  }

  // The contents when the first w bytes of src are written at off.
  ghost predicate Prefix(c0: seq<byte>, off: nat, src: seq<byte>, w: nat, c: seq<byte>) {
    w <= |src| && if w == 0 then c == c0 else off <= |c0| && c == Overwrite(c0, off, src[..w])
  }

  // The bytes of the transaction that starts with byte w.
  function ChunkSize(n: nat, w: nat): (k: nat)
    requires w <= n
  {
    if n - w > CHUNK then CHUNK else n - w
  }

  lemma ChunkAligned(n: nat, w: nat)
    requires w <= n && w % CHUNK == 0
    ensures var w' := w + ChunkSize(n, w); w' % CHUNK == 0 || w' == n
  {
  }

  // writei() takes no bytes at off + w.
  ghost predicate Refused(c0: seq<byte>, off: nat, n: nat, w: nat)
    requires w <= n
  {
    (w == 0 && off > |c0|) || off + w + ChunkSize(n, w) > MAXFILE * BSIZE
  }

  lemma PrefixMore(c0: seq<byte>, off: nat, src: seq<byte>, w: nat, k: nat, c: seq<byte>)
    requires Prefix(c0, off, src, w, c) && w + k <= |src| && off + w <= |c|
    ensures Prefix(c0, off, src, w + k, Overwrite(c, off + w, src[w..w + k]))
  {
    assert src[..w] + src[w..w + k] == src[..w + k];
    if w > 0 {
      OverwriteTwice(c0, off, src[..w], src[w..w + k]);
    } else if k == 0 {
      assert src[w..w + k] == [];
      assert Overwrite(c, off + w, []) == c;
    } else {
      assert src[w..w + k] == src[..w + k];
    }
  }

  // All of src fits exactly if no chunk of it is refused.
  lemma RefusedOnlyIf(c0: seq<byte>, off: nat, n: nat, w: nat)
    requires w < n && Refused(c0, off, n, w)
    ensures !(off <= |c0| && off + n <= MAXFILE * BSIZE)
  {
  }

  // From inodes ino0 to ino, i bytes of src have been written to inode x at off0.
  ghost predicate Progress(blk0: Store, ino0: seq<Node>, blk: Store, ino: seq<Node>, x: nat, off0: nat, src: seq<byte>, i: nat) {
    && i <= |src| && x < |ino| == |ino0| && OthersSame(blk0, blk, ino0, x)
    && (forall j: nat :: j < |ino| && j != x ==> ino[j] == ino0[j])
    && Prefix(Contents(blk0, ino0[x]), off0, src, i, Contents(blk, ino[x]))
    && (i > 0 ==> off0 + i <= MAXFILE * BSIZE)
  }

  lemma ProgressStart(blk: Store, ino: seq<Node>, x: nat, off: nat, src: seq<byte>)
    requires x < |ino|
    ensures Progress(blk, ino, blk, ino, x, off, src, 0)
  {
    OthersSelf(blk, ino, x);
  }

  // A transaction changes at most inode x, whose contents were c1 and are c.
  ghost predicate Turned(blk1: Store, ino1: seq<Node>, blk: Store, ino: seq<Node>, x: nat, c1: seq<byte>, c: seq<byte>) {
    && x < |ino| == |ino1| && OthersSame(blk1, blk, ino, x)
    && (forall j: nat :: j < |ino| && j != x ==> ino[j] == ino1[j])
    && c1 == Contents(blk1, ino1[x]) && c == Contents(blk, ino[x])
  }

  // One transaction, for data at off: r is -1 if and only if they do not fit,
  // and then nothing changes; else they are written.
  ghost predicate ChunkDone(blk1: Store, ino1: seq<Node>, blk: Store, ino: seq<Node>, x: nat, off: nat, data: seq<byte>, r: int) {
    && x < |ino1|
    && var c := Contents(blk1, ino1[x]);
       && (r == -1 <==> off > |c| || off + |data| > MAXFILE * BSIZE)
       && (r != -1 ==> r == |data|)
       && Turned(blk1, ino1, blk, ino, x, c, if r == -1 then c else Overwrite(c, off, data))
  }

  // The bytes of a file that holds c1 before the transaction and c after it.
  lemma PrefixDone(c0: seq<byte>, off0: nat, src: seq<byte>, i: nat, off: nat, c1: seq<byte>, data: seq<byte>, r: int, c: seq<byte>)
    requires Prefix(c0, off0, src, i, c1) && (i > 0 ==> off0 + i <= MAXFILE * BSIZE) && off == off0 + i
    requires i < |src| && data == src[i..i + ChunkSize(|src|, i)]
    requires r == -1 <==> off > |c1| || off + |data| > MAXFILE * BSIZE
    requires r != -1 ==> r == |data|
    requires c == if r == -1 then c1 else Overwrite(c1, off, data)
    ensures var w := if r == -1 then i else i + r; Prefix(c0, off0, src, w, c) && (w > 0 ==> off0 + w <= MAXFILE * BSIZE)
    ensures r == -1 ==> Refused(c0, off0, |src|, i)
  {
    if r != -1 {
      PrefixMore(c0, off0, src, i, r, c1);
    }
  }

  lemma ProgressDone(blk0: Store, ino0: seq<Node>, blk1: Store, ino1: seq<Node>, blk: Store, ino: seq<Node>, x: nat, off0: nat,
      src: seq<byte>, i: nat, off: nat, data: seq<byte>, r: int)
    requires Progress(blk0, ino0, blk1, ino1, x, off0, src, i) && i < |src| && data == src[i..i + ChunkSize(|src|, i)]
    requires off == off0 + i && ChunkDone(blk1, ino1, blk, ino, x, off, data, r)
    ensures Progress(blk0, ino0, blk, ino, x, off0, src, if r == -1 then i else i + r)
    ensures r == -1 ==> Refused(Contents(blk0, ino0[x]), off0, |src|, i)
  {
    var w := if r == -1 then i else i + r;
    var c0, c1, c := Contents(blk0, ino0[x]), Contents(blk1, ino1[x]), Contents(blk, ino[x]);
    PrefixDone(c0, off0, src, i, off, c1, data, r, c);
    OthersTwice(blk0, blk1, blk, ino0, ino, x);
    assert Progress(blk0, ino0, blk, ino, x, off0, src, w);
  }

  // The transactions from number `from` on log at most seven blocks each.
  ghost predicate SmallFrom(ops: seq<set<nat>>, from: nat) {
    from <= |ops| && forall k :: from <= k < |ops| ==> |ops[k]| <= 7 <= MAXOPBLOCKS
  }

  lemma BoundedMore(ops: seq<set<nat>>, ops': seq<set<nat>>, from: nat, small: bool)
    requires |ops'| == |ops| + 1 && ops'[..|ops|] == ops
    requires small ==> SmallFrom(ops, from) && |ops'[|ops|]| <= 7
    ensures small ==> SmallFrom(ops', from)
  {
    forall k | from <= k < |ops| ensures ops'[k] == ops[k] {
      assert ops'[k] == ops'[..|ops|][k];
    }
  }

  class File {
    const fs: FileSystem
    const inum: nat
    const readable: bool
    const writable: bool
    var off: nat
    ghost var ops: seq<set<nat>>     // the blocks logged by each finished transaction

    constructor (system: FileSystem, i: nat, read: bool, write: bool)
      ensures fs == system && inum == i && readable == read && writable == write && off == 0 && ops == []
    {
      fs, inum, readable, writable, off, ops := system, i, read, write, 0, [];
    }

    ghost predicate Valid()
      reads this`off, fs`blk, fs`ino, fs`own
    {
      fs.Valid() && inum < |fs.ino| && off < WORD
    }

    ghost function Bytes(): (c: seq<byte>)
      requires inum < |fs.ino|
      reads fs`blk, fs`ino
    {
      Contents(fs.blk, fs.ino[inum])
    }

    ghost predicate Bounded(from: nat)
      reads this`ops
    {
      SmallFrom(ops, from)
    }

    // One transaction of filewrite().
    method WriteChunk(data: seq<byte>) returns (ok: bool, r: int)
      requires Valid() && |data| <= CHUNK
      modifies this`off, this`ops, fs`blk, fs`ino, fs`own, fs`logged
      ensures |fs.ino| == |old(fs.ino)|
      ensures ok ==> Valid() && |ops| == |old(ops)| + 1 && ops[..|old(ops)|] == old(ops)
      ensures ok && fs.sb.size <= BPB ==> |ops[|old(ops)|]| <= 7
      ensures ok ==> off == if r == -1 then old(off) else old(off) + r
      ensures ok ==> ChunkDone(old(fs.blk), old(fs.ino), fs.blk, fs.ino, inum, old(off), data, r)
      ensures !ok ==> fs.OwnedBy({}) && fs.Full()
    {
      // begin_op()
      fs.logged := {};
      ok, r := fs.Writei(inum, data, off);
      if !ok {
        return;
      }
      if fs.sb.size <= BPB {
        ChunkBound(fs.blk, fs.sb, fs.ino[inum], inum, off, |data|, fs.logged);
      }
      if r > 0 {
        off := off + r;
      }
      // end_op()
      ops := ops + [fs.logged];
    }

    // filewrite() began with inodes ino0 at off0 and has written i bytes of src.
    ghost predicate Wrote(blk0: Store, ino0: seq<Node>, off0: nat, src: seq<byte>, i: nat, from: nat)
      reads this`off, this`ops, fs`blk, fs`ino, fs`own
    {
      && Valid() && off == off0 + i && Progress(blk0, ino0, fs.blk, fs.ino, inum, off0, src, i)
      && (fs.sb.size <= BPB ==> Bounded(from))
    }

    // One turn of filewrite()'s loop.
    method Turn(src: seq<byte>, i: nat, ghost blk0: Store, ghost ino0: seq<Node>, ghost off0: nat, ghost from: nat)
      returns (ok: bool, r: int)
      requires Wrote(blk0, ino0, off0, src, i, from) && |src| <= INT_MAX && i < |src|
      modifies this`off, this`ops, fs`blk, fs`ino, fs`own, fs`logged
      ensures |fs.ino| == |old(fs.ino)|
      ensures ok ==> r == -1 || r == ChunkSize(|src|, i)
      ensures ok ==> Wrote(blk0, ino0, off0, src, if r == -1 then i else i + r, from)
      ensures ok && r == -1 ==> Refused(Contents(blk0, ino0[inum]), off0, |src|, i)
      ensures !ok ==> fs.OwnedBy({}) && fs.Full()
    {
      var data := src[i..i + ChunkSize(|src|, i)];
      ok, r := WriteChunk(data);
      if ok {
        ProgressDone(blk0, ino0, old(fs.blk), old(fs.ino), fs.blk, fs.ino, inum, off0, src, i, old(off), data, r);
        BoundedMore(old(ops), ops, from, fs.sb.size <= BPB);
      }
    }

    // The loop of filewrite().
    method WriteChunks(src: seq<byte>) returns (ok: bool, i: nat)
      requires Valid() && |src| <= INT_MAX
      modifies this`off, this`ops, fs`blk, fs`ino, fs`own, fs`logged
      ensures |fs.ino| == |old(fs.ino)|
      ensures ok ==> Valid() && off == old(off) + i && Progress(old(fs.blk), old(fs.ino), fs.blk, fs.ino, inum, old(off), src, i)
      ensures ok ==> i == |src| || (i < |src| && i % CHUNK == 0 && Refused(old(Bytes()), old(off), |src|, i))
      ensures ok && fs.sb.size <= BPB ==> Bounded(|old(ops)|)
      ensures !ok ==> fs.OwnedBy({}) && fs.Full()
    {
      ProgressStart(fs.blk, fs.ino, inum, off, src);
      i := 0;
      while i < |src|
        invariant Wrote(old(fs.blk), old(fs.ino), old(off), src, i, |old(ops)|)
        invariant i % CHUNK == 0 || i == |src|
      {
        var r;
        ok, r := Turn(src, i, old(fs.blk), old(fs.ino), old(off), |old(ops)|);
        if !ok {
          return;
        }
        if r < 0 {
          break;
        }
        // the panic "short filewrite" is not reached
        assert r == ChunkSize(|src|, i);
        ChunkAligned(|src|, i);
        i := i + r;
      }
      ok := true;
    }

    // filewrite(): w bytes of src are written, all of them exactly if they fit;
    // else as many whole transactions as do, and the result is -1.  ok is false
    // when balloc() panics.
    method Write(src: seq<byte>) returns (ok: bool, r: int, ghost w: nat)
      requires Valid() && |src| <= INT_MAX
      modifies this`off, this`ops, fs`blk, fs`ino, fs`own, fs`logged
      ensures |fs.ino| == |old(fs.ino)|
      ensures !writable ==> ok && r == -1 && off == old(off) && fs.blk == old(fs.blk) && fs.ino == old(fs.ino)
      ensures ok ==> Valid() && OthersSame(old(fs.blk), fs.blk, fs.ino, inum)
      ensures ok ==> forall j: nat :: j < |fs.ino| && j != inum ==> fs.ino[j] == old(fs.ino)[j]
      ensures ok && writable ==> off == old(off) + w && Prefix(old(Bytes()), old(off), src, w, Bytes())
      ensures ok && writable ==> r == if w == |src| then |src| else -1
      ensures ok && writable && r > 0 ==> old(off) <= |old(Bytes())| && Bytes() == Overwrite(old(Bytes()), old(off), src)
      ensures ok && writable && w < |src| ==> w % CHUNK == 0 && Refused(old(Bytes()), old(off), |src|, w)
      ensures ok && writable ==> (r != -1 <==>
        |src| == 0 || (old(off) <= |old(Bytes())| && old(off) + |src| <= MAXFILE * BSIZE))
      ensures ok && fs.sb.size <= BPB ==> Bounded(|old(ops)|)
      ensures !ok ==> fs.OwnedBy({}) && fs.Full()
    {
      ok, r, w := true, -1, 0;
      OthersSelf(fs.blk, fs.ino, inum);
      if !writable {
        return;
      }
      var i;
      ok, i := WriteChunks(src);
      w := i;
      r := if i == |src| then |src| else -1;
      if ok && i < |src| {
        RefusedOnlyIf(old(Bytes()), old(off), |src|, i);
      }
    }

    // fileread(): the bytes from the offset on, which moves past them.
    method Read(n: nat) returns (r: int, dst: seq<byte>)
      requires Valid() && n <= INT_MAX
      modifies this`off, fs`blk, fs`ino, fs`own, fs`logged
      ensures Valid() && fs.blk == old(fs.blk) && fs.ino == old(fs.ino)
      ensures r == -1 <==> !readable || old(off) > |Bytes()| || old(off) + n >= WORD
      ensures r == -1 ==> off == old(off)
      ensures r != -1 ==> 0 <= r == |dst| <= n && off == old(off) + r <= |Bytes()| && dst == Bytes()[old(off)..off]
      ensures r != -1 && r < n ==> off == |Bytes()|
    {
      if !readable {
        return -1, [];
      }
      r, dst := fs.Readi(inum, off, n);
      if r > 0 {
        off := off + r;
      }
    }
  }

  // readi() after writei() gives back what was written, over direct and indirect
  // blocks alike.
  method ReadBack(fs: FileSystem, i: nat, src: seq<byte>, off: nat) returns (ok: bool, r: int, dst: seq<byte>)
    requires fs.Valid() && i < |fs.ino| && off + |src| < WORD
    modifies fs`blk, fs`ino, fs`own, fs`logged
    ensures |fs.ino| == |old(fs.ino)|
    ensures ok ==> fs.Valid() && (r == -1 <==> off > old(fs.ino)[i].size || off + |src| > MAXFILE * BSIZE)
    ensures ok && r != -1 ==> r == |src| && dst == src
  {
    ghost var c := Contents(fs.blk, fs.ino[i]);
    dst := [];
    ok, r := fs.Writei(i, src, off);
    if ok && r != -1 {
      OverwriteRead(c, off, src);
      r, dst := fs.Readi(i, off, |src|);
    }
  }
}
