// The user-level file system simplefs: inodes with direct blocks, a free list of
// data blocks, and files written and read at the offset of an open handle.
module SimpleFs {
  import Blocks

  type byte = Blocks.byte

  const BLOCKSIZE: nat := 64
  const MAX_FILE_SIZE: nat       // in blocks

  type Data = d: seq<byte> | |d| == BLOCKSIZE witness seq(BLOCKSIZE, _ => 0)

  datatype Inode = Inode(inUse: bool, name: string, size: nat, direct: seq<int>)

  type Node = nd: Inode | |nd.direct| == MAX_FILE_SIZE witness Inode(false, "", 0, seq(MAX_FILE_SIZE, _ => -1))

  datatype Handle = Handle(offset: nat, inum: int)

  function Zeros(): (d: Data) { seq(BLOCKSIZE, _ => 0) }

  function NoBlocks(): (s: seq<int>)
    ensures |s| == MAX_FILE_SIZE
  {
    seq(MAX_FILE_SIZE, _ => -1)
  }

  // ----- the free list -----

  function FreeCount(used: seq<bool>): (n: nat) {
    if used == [] then 0 else (if used[0] then 0 else 1) + FreeCount(used[1..])
  }

  lemma {:induction false} FreeCountUpdate(used: seq<bool>, b: nat, v: bool)
    requires b < |used| && used[b] != v
    ensures FreeCount(used[b := v]) == FreeCount(used) + if v then -1 else 1
  {
    if b == 0 {
      assert used[b := v][1..] == used[1..];
    } else {
      assert used[b := v][1..] == used[1..][b - 1 := v];
      FreeCountUpdate(used[1..], b - 1, v);
    }
  }

  lemma {:induction false} FreeCountNone(used: seq<bool>)
    ensures FreeCount(used) == 0 <==> forall b :: 0 <= b < |used| ==> used[b]
  {
    if used != [] {
      FreeCountNone(used[1..]);
      if FreeCount(used[1..]) == 0 && used[0] {
        forall b | 0 <= b < |used| ensures used[b] {
          assert b > 0 ==> used[b] == used[1..][b - 1];
        }
      } else if used[0] {
        var b :| 0 <= b < |used[1..]| && !used[1..][b];
        assert !used[b + 1];
      }
    }
  }

  // ----- files -----

  // The number of blocks among the first k.
  function Count(nd: Node, k: nat): (n: nat)
    requires k <= MAX_FILE_SIZE
  {
    if k == 0 then 0 else Count(nd, k - 1) + if nd.direct[k - 1] == -1 then 0 else 1
  }

  function NumBlocks(nd: Node): (n: nat) { Count(nd, MAX_FILE_SIZE) }

  // Blocks are at the front.
  ghost predicate Filled(nd: Node, n: nat) {
    n <= MAX_FILE_SIZE && forall j: nat :: j < MAX_FILE_SIZE ==> (nd.direct[j] == -1 <==> j >= n)
  }

  lemma {:induction false} CountFilled(nd: Node, n: nat, k: nat)
    requires Filled(nd, n) && k <= MAX_FILE_SIZE
    ensures Count(nd, k) == if k < n then k else n
  {
    if k > 0 {
      CountFilled(nd, n, k - 1);
    }
  }

  // Byte k of the blocks of a file; 0 where there is no block.
  ghost function FileByte(blocks: seq<Data>, nd: Node, k: nat): (b: byte) {
    if k / BLOCKSIZE < MAX_FILE_SIZE && 0 <= nd.direct[k / BLOCKSIZE] < |blocks|
    then blocks[nd.direct[k / BLOCKSIZE]][k % BLOCKSIZE] else 0
  }

  ghost function Contents(blocks: seq<Data>, nd: Node): (c: seq<byte>)
    ensures |c| == nd.size
  {
    seq(nd.size, k requires 0 <= k < nd.size => FileByte(blocks, nd, k))
  }

  // Byte k of a file is in block k / BLOCKSIZE of those that its inode names.
  lemma ContentsByte(blocks: seq<Data>, nd: Node, k: nat)
    requires k < nd.size && k < MAX_FILE_SIZE * BLOCKSIZE
    ensures var b := nd.direct[k / BLOCKSIZE];
      Contents(blocks, nd)[k] == if 0 <= b < |blocks| then blocks[b][k % BLOCKSIZE] else 0
  {
  }

  ghost predicate ZeroAt(blocks: seq<Data>, nd: Node, k: nat) {
    FileByte(blocks, nd, k) == 0
  }

  ghost predicate RefOk(used: seq<bool>, nd: Node, j: nat) {
    j < MAX_FILE_SIZE && (nd.direct[j] == -1 || (0 <= nd.direct[j] < |used| && used[nd.direct[j]]))
  }

  // The blocks of a file are used ones, and hold its bytes and zeros after them.
  ghost predicate NodeOk(used: seq<bool>, blocks: seq<Data>, nd: Node) {
    && Filled(nd, NumBlocks(nd)) && nd.size <= NumBlocks(nd) * BLOCKSIZE
    && (!nd.inUse ==> NumBlocks(nd) == 0)
    && (forall j: nat :: j < MAX_FILE_SIZE ==> RefOk(used, nd, j))
    && (forall k: nat :: k >= nd.size ==> ZeroAt(blocks, nd, k))
  }

  ghost predicate Apart(x: Node, y: Node, j: nat, k: nat)
    requires j < MAX_FILE_SIZE && k < MAX_FILE_SIZE
  {
    x.direct[j] != -1 ==> x.direct[j] != y.direct[k]
  }

  // No block is in one file twice.
  ghost predicate Simple(x: Node) {
    forall j: nat, k: nat :: j < MAX_FILE_SIZE && k < MAX_FILE_SIZE && j != k ==> Apart(x, x, j, k)
  }

  ghost predicate Disjoint(x: Node, y: Node) {
    forall j: nat, k: nat :: j < MAX_FILE_SIZE && k < MAX_FILE_SIZE ==> Apart(x, y, j, k)
  }

  ghost predicate FilesOk(used: seq<bool>, blocks: seq<Data>, inodes: seq<Node>) {
    && |used| == |blocks|
    && (forall i: nat :: i < |inodes| ==> NodeOk(used, blocks, inodes[i]) && Simple(inodes[i]))
    && (forall i: nat, j: nat :: i < |inodes| && j < |inodes| && i != j ==> Disjoint(inodes[i], inodes[j]))
  }

  // Blocks in no file.
  ghost predicate Unreferenced(inodes: seq<Node>, b: int) {
    forall i: nat, j: nat :: i < |inodes| && j < MAX_FILE_SIZE ==> inodes[i].direct[j] != b
  }

  // A free block is in no file.
  lemma FreeUnreferenced(used: seq<bool>, blocks: seq<Data>, inodes: seq<Node>, b: nat)
    requires FilesOk(used, blocks, inodes) && b < |used| && !used[b]
    ensures Unreferenced(inodes, b)
  {
    forall i: nat, j: nat | i < |inodes| && j < MAX_FILE_SIZE ensures inodes[i].direct[j] != b {
      assert RefOk(used, inodes[i], j);
    }
  }

  // Changes of blocks in no file, and more used blocks, change no file.
  lemma FilesKept(used: seq<bool>, blocks: seq<Data>, inodes: seq<Node>, used': seq<bool>, blocks': seq<Data>)
    requires FilesOk(used, blocks, inodes) && |used'| == |used| && |blocks'| == |blocks|
    requires forall b: nat :: b < |used| && used[b] && !Unreferenced(inodes, b) ==> used'[b] && blocks'[b] == blocks[b]
    ensures FilesOk(used', blocks', inodes)
    ensures forall i: nat :: i < |inodes| ==> Contents(blocks', inodes[i]) == Contents(blocks, inodes[i])
  {
    forall i: nat | i < |inodes|
      ensures NodeOk(used', blocks', inodes[i]) && Contents(blocks', inodes[i]) == Contents(blocks, inodes[i])
    {
      var nd := inodes[i];
      forall j: nat | j < MAX_FILE_SIZE ensures RefOk(used', nd, j) && (nd.direct[j] >= 0 ==> blocks'[nd.direct[j]] == blocks[nd.direct[j]]) {
        assert RefOk(used, nd, j);
        if nd.direct[j] >= 0 { assert !Unreferenced(inodes, nd.direct[j]); }
      }
      forall k: nat ensures FileByte(blocks', nd, k) == FileByte(blocks, nd, k) {
      }
      forall k: nat | k >= nd.size ensures ZeroAt(blocks', nd, k) {
        assert ZeroAt(blocks, nd, k);
      }
    }
  }

  // ----- more blocks for a file -----

  ghost predicate SameByte(blocks: seq<Data>, x: Node, blocks': seq<Data>, y: Node, k: nat) {
    FileByte(blocks', y, k) == FileByte(blocks, x, k)
  }

  // nd is inode i with new blocks of zeros, in memory only.
  ghost predicate Grown(used: seq<bool>, blocks: seq<Data>, inodes: seq<Node>, i: nat, nd: Node) {
    && FilesOk(used, blocks, inodes) && i < |inodes| && nd == inodes[i].(direct := nd.direct)
    && Filled(nd, NumBlocks(nd)) && NumBlocks(nd) >= NumBlocks(inodes[i]) && Simple(nd)
    && (forall j: nat :: j < MAX_FILE_SIZE ==> RefOk(used, nd, j))
    && (forall j: nat :: j < |inodes| && j != i ==> Disjoint(nd, inodes[j]))
    && (forall k: nat :: SameByte(blocks, inodes[i], blocks, nd, k))
  }

  // A used block of zeros in no file.
  ghost predicate Spare(used: seq<bool>, blocks: seq<Data>, inodes: seq<Node>, nd: Node, b: int) {
    0 <= b < |used| == |blocks| && used[b] && blocks[b] == Zeros() && Unreferenced(inodes, b) && b !in nd.direct
  }

  function WithBlock(nd: Node, n: nat, b: int): (r: Node)
    requires n < MAX_FILE_SIZE
  {
    nd.(direct := nd.direct[n := b])
  }

  lemma GrowStart(used: seq<bool>, blocks: seq<Data>, inodes: seq<Node>, i: nat)
    requires FilesOk(used, blocks, inodes) && i < |inodes|
    ensures Grown(used, blocks, inodes, i, inodes[i])
  {
    assert NodeOk(used, blocks, inodes[i]) && Simple(inodes[i]);
  }

  // A block put into an empty slot.
  lemma KeepsBlocks(nd: Node, n: nat, b: int)
    requires n < MAX_FILE_SIZE && nd.direct[n] == -1
    ensures b in WithBlock(nd, n, b).direct
    ensures forall x: nat :: x in nd.direct ==> x in WithBlock(nd, n, b).direct
  {
    var r := WithBlock(nd, n, b);
    assert r.direct[n] == b;
    forall x: nat | x in nd.direct ensures x in r.direct {
      var k :| 0 <= k < MAX_FILE_SIZE && nd.direct[k] == x;
      assert r.direct[k] == x;
    }
  }

  lemma GrowOne(used: seq<bool>, blocks: seq<Data>, inodes: seq<Node>, i: nat, nd: Node, b: int)
    requires Grown(used, blocks, inodes, i, nd) && Spare(used, blocks, inodes, nd, b) && NumBlocks(nd) < MAX_FILE_SIZE
    ensures Grown(used, blocks, inodes, i, WithBlock(nd, NumBlocks(nd), b))
    ensures NumBlocks(WithBlock(nd, NumBlocks(nd), b)) == NumBlocks(nd) + 1
  {
    var n := NumBlocks(nd);
    var r := WithBlock(nd, n, b);
    CountFilled(r, n + 1, MAX_FILE_SIZE);
    forall j: nat | j < MAX_FILE_SIZE ensures RefOk(used, r, j) {
      assert RefOk(used, nd, j);
    }
    forall j: nat, k: nat | j < MAX_FILE_SIZE && k < MAX_FILE_SIZE && j != k ensures Apart(r, r, j, k) {
      assert Apart(nd, nd, j, k);
    }
    forall j: nat | j < |inodes| && j != i ensures Disjoint(r, inodes[j]) {
      assert Disjoint(nd, inodes[j]);
      forall x: nat, y: nat | x < MAX_FILE_SIZE && y < MAX_FILE_SIZE ensures Apart(r, inodes[j], x, y) {
        assert Apart(nd, inodes[j], x, y);
      }
    }
    forall k: nat ensures SameByte(blocks, inodes[i], blocks, r, k) {
      assert SameByte(blocks, inodes[i], blocks, nd, k);
    }
  }

  // More used blocks, and changes to blocks in no file.
  lemma GrownKept(used: seq<bool>, blocks: seq<Data>, inodes: seq<Node>, i: nat, nd: Node, used': seq<bool>, blocks': seq<Data>)
    requires Grown(used, blocks, inodes, i, nd) && |used'| == |used| && |blocks'| == |blocks|
    requires forall b: nat :: b < |used| && used[b] ==> used'[b]
    requires forall b: nat :: b < |used| && blocks'[b] != blocks[b] ==> Unreferenced(inodes, b) && b !in nd.direct
    ensures Grown(used', blocks', inodes, i, nd)
    ensures forall j: nat :: j < |inodes| ==> Contents(blocks', inodes[j]) == Contents(blocks, inodes[j])
  {
    FilesKept(used, blocks, inodes, used', blocks');
    forall j: nat | j < MAX_FILE_SIZE ensures RefOk(used', nd, j) {
      assert RefOk(used, nd, j);
    }
    forall k: nat ensures SameByte(blocks', inodes[i], blocks', nd, k) {
      assert SameByte(blocks, inodes[i], blocks, nd, k);
      var x := k / BLOCKSIZE;
      if x < MAX_FILE_SIZE {
        assert RefOk(used, nd, x) && RefOk(used, inodes[i], x);
        assert inodes[i].direct[x] >= 0 ==> !Unreferenced(inodes, inodes[i].direct[x]);
      }
    }
  }

  // ----- writing -----

  // The bytes of a file when tot bytes of buf are written at off.
  ghost predicate ByteOk(blocks0: seq<Data>, blocks: seq<Data>, nd: Node, off: nat, buf: seq<byte>, tot: nat, k: nat)
    requires tot <= |buf|
  {
    FileByte(blocks, nd, k) == if off <= k < off + tot then buf[k - off] else FileByte(blocks0, nd, k)
  }

  // Only blocks of nd have changed, and they hold the bytes written so far.
  ghost predicate Written(blocks0: seq<Data>, blocks: seq<Data>, nd: Node, off: nat, buf: seq<byte>, tot: nat) {
    && tot <= |buf| && |blocks| == |blocks0|
    && (forall b: nat :: b < |blocks| && b !in nd.direct ==> blocks[b] == blocks0[b])
    && (forall k: nat :: ByteOk(blocks0, blocks, nd, off, buf, tot, k))
  }

  // memcpy() into a block.
  function Splice(d: Data, o: nat, src: seq<byte>): (r: Data)
    requires o + |src| <= BLOCKSIZE
    ensures forall k :: 0 <= k < BLOCKSIZE ==> r[k] == if o <= k < o + |src| then src[k - o] else d[k]
  {
    d[..o] + src + d[o + |src|..]
  }

  // The bytes of one block are written.
  lemma WriteStep(blocks0: seq<Data>, blocks: seq<Data>, used: seq<bool>, nd: Node, off: nat, buf: seq<byte>, tot: nat, m: nat)
    requires Written(blocks0, blocks, nd, off, buf, tot) && Simple(nd) && |used| == |blocks|
    requires (off + tot) / BLOCKSIZE < NumBlocks(nd) && Filled(nd, NumBlocks(nd))
    requires forall j: nat :: j < MAX_FILE_SIZE ==> RefOk(used, nd, j)
    requires tot + m <= |buf| && 0 < m <= BLOCKSIZE - (off + tot) % BLOCKSIZE
    ensures 0 <= nd.direct[(off + tot) / BLOCKSIZE] < |blocks|
    ensures var b := nd.direct[(off + tot) / BLOCKSIZE];
      Written(blocks0, blocks[b := Splice(blocks[b], (off + tot) % BLOCKSIZE, buf[tot..tot + m])], nd, off, buf, tot + m)
  {
    var x, o := (off + tot) / BLOCKSIZE, (off + tot) % BLOCKSIZE;
    assert RefOk(used, nd, x);
    var b := nd.direct[x];
    var blocks', tot' := blocks[b := Splice(blocks[b], o, buf[tot..tot + m])], tot + m;
    forall k: nat ensures ByteOk(blocks0, blocks', nd, off, buf, tot', k) {
      assert ByteOk(blocks0, blocks, nd, off, buf, tot, k);
      var y := k / BLOCKSIZE;
      if y < MAX_FILE_SIZE && y != x {
        assert Apart(nd, nd, x, y);
      }
    }
  }

  // The contents c after buf has been written at off, with zeros in a gap.
  ghost function PutBytes(c: seq<byte>, off: nat, buf: seq<byte>): (r: seq<byte>)
    ensures |r| == if off + |buf| > |c| then off + |buf| else |c|
    ensures forall k :: 0 <= k < |r| ==> r[k] == if off <= k < off + |buf| then buf[k - off] else if k < |c| then c[k] else 0
  {
    seq(if off + |buf| > |c| then off + |buf| else |c|,
      k requires 0 <= k => if off <= k < off + |buf| then buf[k - off] else if k < |c| then c[k] else 0)
  }

  function Resized(nd: Node, size: nat): (r: Node) {
    nd.(size := if size > nd.size then size else nd.size)
  }

  // The end of simplefs_write(): the inode goes to disk.
  lemma WriteEnd(used: seq<bool>, blocks0: seq<Data>, blocks: seq<Data>, inodes: seq<Node>, i: nat, nd: Node, off: nat, buf: seq<byte>)
    requires Grown(used, blocks0, inodes, i, nd) && Written(blocks0, blocks, nd, off, buf, |buf|)
    requires off + |buf| <= NumBlocks(nd) * BLOCKSIZE && nd.inUse
    ensures var nd' := Resized(nd, off + |buf|);
      && FilesOk(used, blocks, inodes[i := nd'])
      && Contents(blocks, nd') == PutBytes(Contents(blocks0, inodes[i]), off, buf)
    ensures forall j: nat :: j < |inodes| && j != i ==> Contents(blocks, inodes[j]) == Contents(blocks0, inodes[j])
  {
    var nd' := Resized(nd, off + |buf|);
    var inodes' := inodes[i := nd'];
    assert NodeOk(used, blocks0, inodes[i]);
    CountFilled(nd', NumBlocks(nd), MAX_FILE_SIZE);
    forall k: nat ensures FileByte(blocks, nd', k) == if off <= k < off + |buf| then buf[k - off] else FileByte(blocks0, inodes[i], k) {
      assert ByteOk(blocks0, blocks, nd, off, buf, |buf|, k) && SameByte(blocks0, inodes[i], blocks0, nd, k);
    }
    forall k: nat | k >= inodes[i].size ensures FileByte(blocks0, inodes[i], k) == 0 {
      assert ZeroAt(blocks0, inodes[i], k);
    }
    forall j: nat | j < MAX_FILE_SIZE ensures RefOk(used, nd', j) {
      assert RefOk(used, nd, j);
    }
    forall j: nat, k: nat | j < MAX_FILE_SIZE && k < MAX_FILE_SIZE && j != k ensures Apart(nd', nd', j, k) {
      assert Apart(nd, nd, j, k);
    }
    forall j: nat | j < |inodes| && j != i
      ensures NodeOk(used, blocks, inodes[j]) && Contents(blocks, inodes[j]) == Contents(blocks0, inodes[j])
    {
      OtherKept(used, blocks0, blocks, inodes, i, nd, j);
    }
    forall j: nat, k: nat | j < |inodes| && k < |inodes| && j != k ensures Disjoint(inodes'[j], inodes'[k]) {
      StillDisjoint(used, blocks0, inodes, i, nd, nd', j, k);
    }
  }

  lemma OtherKept(used: seq<bool>, blocks0: seq<Data>, blocks: seq<Data>, inodes: seq<Node>, i: nat, nd: Node, j: nat)
    requires Grown(used, blocks0, inodes, i, nd) && |blocks| == |blocks0| && j < |inodes| && j != i
    requires forall b: nat :: b < |blocks| && b !in nd.direct ==> blocks[b] == blocks0[b]
    ensures NodeOk(used, blocks, inodes[j]) && Contents(blocks, inodes[j]) == Contents(blocks0, inodes[j])
  {
    var x := inodes[j];
    assert NodeOk(used, blocks0, x) && Disjoint(nd, x);
    forall y: nat | y < MAX_FILE_SIZE && x.direct[y] != -1 ensures 0 <= x.direct[y] < |blocks| && blocks[x.direct[y]] == blocks0[x.direct[y]] {
      assert RefOk(used, x, y);
      forall z: nat | z < MAX_FILE_SIZE ensures nd.direct[z] != x.direct[y] {
        assert Apart(nd, x, z, y);
      }
    }
    forall k: nat ensures FileByte(blocks, x, k) == FileByte(blocks0, x, k) {
      assert k / BLOCKSIZE < MAX_FILE_SIZE ==> RefOk(used, x, k / BLOCKSIZE);
    }
    forall k: nat | k >= x.size ensures ZeroAt(blocks, x, k) {
      assert ZeroAt(blocks0, x, k);
    }
  }

  lemma StillDisjoint(used: seq<bool>, blocks: seq<Data>, inodes: seq<Node>, i: nat, nd: Node, nd': Node, j: nat, k: nat)
    requires Grown(used, blocks, inodes, i, nd) && nd'.direct == nd.direct
    requires j < |inodes| && k < |inodes| && j != k
    ensures Disjoint(inodes[i := nd'][j], inodes[i := nd'][k])
  {
    var a, b := inodes[i := nd'][j], inodes[i := nd'][k];
    assert Disjoint(inodes[j], inodes[k]);
    assert k != i ==> Disjoint(nd, inodes[k]);
    assert j != i ==> Disjoint(nd, inodes[j]);
    forall x: nat, y: nat | x < MAX_FILE_SIZE && y < MAX_FILE_SIZE ensures Apart(a, b, x, y) {
      assert Apart(inodes[j], inodes[k], x, y);
      if j == i {
        assert Apart(nd, inodes[k], x, y);
      } else if k == i {
        assert Apart(nd, inodes[j], y, x);
      }
    }
  }

  // ----- used blocks are in files -----

  // Every used block is in some file.
  ghost predicate AllInFiles(used: seq<bool>, inodes: seq<Node>) {
    forall b: nat :: b < |used| && used[b] ==> !Unreferenced(inodes, b)
  }

  // nd has the blocks of x and those taken from used0 to used.
  ghost predicate Gains(used0: seq<bool>, used: seq<bool>, x: Node, nd: Node) {
    && |used| == |used0| && (forall b: nat :: b < |used| && used[b] && !used0[b] ==> b in nd.direct)
    && (forall b: nat :: b in x.direct ==> b in nd.direct)
  }

  // An operation that gives inode i exactly what it takes loses no block.
  lemma GainsInFiles(used0: seq<bool>, used: seq<bool>, inodes: seq<Node>, i: nat, nd: Node)
    requires AllInFiles(used0, inodes) && i < |inodes| && Gains(used0, used, inodes[i], nd)
    ensures AllInFiles(used, inodes[i := nd])
  {
    var r := inodes[i := nd];
    forall b: nat | b < |used| && used[b] ensures !Unreferenced(r, b) {
      if b in nd.direct {
        var k: nat :| k < MAX_FILE_SIZE && nd.direct[k] == b;
        assert r[i].direct[k] == b;
      } else {
        var j: nat, k: nat :| j < |inodes| && k < MAX_FILE_SIZE && inodes[j].direct[k] == b;
        assert j != i && r[j].direct[k] == b;
      }
    }
  }

  // A block taken for no file is lost.
  lemma LostNotInFiles(used0: seq<bool>, used: seq<bool>, blocks: seq<Data>, inodes: seq<Node>)
    requires FilesOk(used0, blocks, inodes) && AllInFiles(used0, inodes) && |used| == |used0|
    requires forall b: nat :: b < |used| && used0[b] ==> used[b]
    ensures AllInFiles(used, inodes) <==> used == used0
  {
    if used != used0 {
      var b: nat :| b < |used| && used[b] != used0[b];
      FreeUnreferenced(used0, blocks, inodes, b);
    }
  }

  // A free inode has no blocks.
  lemma NoBlocksOf(used: seq<bool>, blocks: seq<Data>, inodes: seq<Node>, i: nat)
    requires FilesOk(used, blocks, inodes) && i < |inodes| && !inodes[i].inUse
    ensures forall b: nat :: b !in inodes[i].direct
  {
    assert NodeOk(used, blocks, inodes[i]);
  }

  // Blocks that an inode gives up are free, and its others are in no file.
  lemma LeavesInFiles(used0: seq<bool>, used: seq<bool>, inodes: seq<Node>, i: nat, nd: Node)
    requires AllInFiles(used0, inodes) && i < |inodes| && |used| == |used0|
    requires forall b: nat :: b < |used| && used[b] ==> used0[b] && b !in inodes[i].direct
    ensures AllInFiles(used, inodes[i := nd])
  {
    var r := inodes[i := nd];
    forall b: nat | b < |used| && used[b] ensures !Unreferenced(r, b) {
      var j: nat, k: nat :| j < |inodes| && k < MAX_FILE_SIZE && inodes[j].direct[k] == b;
      assert j != i && r[j].direct[k] == b;
    }
  }

  // ----- the operations -----

  // The offset is at the end of a file that fills its blocks.
  predicate Edge(nd: Node, off: nat) {
    off % BLOCKSIZE == 0 && off / BLOCKSIZE < MAX_FILE_SIZE && off == nd.size && nd.direct[off / BLOCKSIZE] == -1
  }

  predicate Named(nd: Node, name: string) {
    nd.inUse && nd.name == name
  }

  // Some file has the name.
  ghost predicate Taken(inodes: seq<Node>, name: string) {
    exists i: nat :: i < |inodes| && Named(inodes[i], name)
  }

  // The first file with the name, or |inodes|.
  ghost predicate FirstNamed(inodes: seq<Node>, name: string, i: nat) {
    i <= |inodes| && (i < |inodes| ==> Named(inodes[i], name)) && forall k: nat :: k < i ==> !Named(inodes[k], name)
  }

  // Blocks in the first n bytes.
  function BlocksFor(n: nat): (k: nat) { (n + BLOCKSIZE - 1) / BLOCKSIZE }

  // The blocks a write needs that the file does not have.
  function Needed(nb: nat, end: nat): (k: nat) {
    if BlocksFor(end) > nb then BlocksFor(end) - nb else 0
  }

  // From used to used', exactly the blocks of bs have been taken.
  ghost predicate Took(used: seq<bool>, used': seq<bool>, bs: seq<int>) {
    && |used'| == |used| && (forall x :: x in bs ==> 0 <= x < |used| && !used[x])
    && (forall b: nat :: b < |used| ==> (used'[b] <==> used[b] || b in bs))
    && (forall x, y :: 0 <= x < y < |bs| ==> bs[x] != bs[y])
    && FreeCount(used') == FreeCount(used) - |bs|
  }

  class Disk {
    var used: seq<bool>              // datablock_freelist
    var inodes: seq<Node>
    var blocks: seq<Data>
    var inodeUsed: seq<bool>         // inode_freelist
    var handles: seq<Handle>

    ghost predicate Valid()
      reads this
    {
      && FilesOk(used, blocks, inodes) && |inodeUsed| == |inodes|
      && (forall i: nat :: i < |inodes| ==> inodeUsed[i] == inodes[i].inUse)
      && forall h: nat :: h < |handles| ==> -1 <= handles[h].inum < |inodes|
    }

    // simplefs_formatDisk()
    constructor (numInodes: nat, numBlocks: nat, maxOpen: nat)
      ensures Valid() && |inodes| == numInodes && |handles| == maxOpen && |used| == numBlocks
      ensures forall i :: 0 <= i < numInodes ==> !inodes[i].inUse
      ensures used == seq(numBlocks, _ => false) && handles == seq(maxOpen, _ => Handle(0, -1)) && AllInFiles(used, inodes)
    {
      used := seq(numBlocks, _ => false);
      blocks := seq(numBlocks, _ => Zeros());
      inodes := seq(numInodes, _ => Inode(false, "", 0, NoBlocks()));
      inodeUsed := seq(numInodes, _ => false);
      handles := seq(maxOpen, _ => Handle(0, -1));
      new;
      forall i: nat | i < |inodes| ensures NodeOk(used, blocks, inodes[i]) && Simple(inodes[i]) {
        EmptyNode(used, blocks, inodes[i]);
      }
    }

    // simplefs_allocDataBlock(): the first free block, or -1.
    method AllocDataBlock() returns (b: int)
      modifies this`used
      ensures -1 <= b < |old(used)| && (b == -1 <==> FreeCount(old(used)) == 0)
      ensures b == -1 ==> used == old(used)
      ensures forall k :: 0 <= k < b ==> old(used)[k]
      ensures b != -1 ==> !old(used)[b] && used == old(used)[b := true] && FreeCount(used) == FreeCount(old(used)) - 1
    {
      b := 0;
      FreeCountNone(used);
      while b < |used| && used[b]
        invariant 0 <= b <= |used| && forall k :: 0 <= k < b ==> used[k]
        modifies {}
      {
        b := b + 1;
      }
      if b == |used| {
        return -1;
      }
      FreeCountUpdate(used, b, true);
      used := used[b := true];
    }

    // simplefs_freeDataBlock(): its assert does not fail.
    method FreeDataBlock(b: nat)
      requires b < |used| && used[b]
      modifies this`used
      ensures used == old(used)[b := false] && FreeCount(used) == FreeCount(old(used)) + 1
    {
      FreeCountUpdate(used, b, false);
      used := used[b := false];
    }

    // need blocks, or none exactly if there are not enough free ones.
    method AllocBlocks(need: nat) returns (ok: bool, bs: seq<int>)
      modifies this`used
      ensures ok <==> need <= FreeCount(old(used))
      ensures ok ==> |bs| == need && Took(old(used), used, bs)
      ensures !ok ==> used == old(used)
    {
      bs := [];
      var i := 0;
      while i < need
        invariant i == |bs| <= need && Took(old(used), used, bs)
      {
        var b := AllocDataBlock();
        if b < 0 {
          FreeAll(bs, old(used));
          return false, [];
        }
        bs := bs + [b];
        i := i + 1;
      }
      ok := true;
    }

    // The blocks taken are given back.
    method FreeAll(bs: seq<int>, ghost used0: seq<bool>)
      requires Took(used0, used, bs)
      modifies this`used
      ensures used == used0
    {
      var i := 0;
      while i < |bs|
        invariant i <= |bs| && |used| == |used0|
        invariant forall b: nat :: b < |used| ==> (used[b] <==> used0[b] || b in bs[i..])
        invariant forall x, y :: 0 <= x < y < |bs| ==> bs[x] != bs[y]
      {
        assert bs[i] in bs[i..] && bs[i] in bs;
        FreeDataBlock(bs[i]);
        i := i + 1;
      }
    }

    // memset() and simplefs_writeDataBlock() of the new blocks.
    method ZeroBlocks(bs: seq<int>)
      requires forall x :: x in bs ==> 0 <= x < |blocks|
      modifies this`blocks
      ensures |blocks| == |old(blocks)|
      ensures forall b: nat :: b < |blocks| ==> blocks[b] == if b in bs then Zeros() else old(blocks)[b]
    {
      var i := 0;
      while i < |bs|
        invariant i <= |bs| && |blocks| == |old(blocks)|
        invariant forall b: nat :: b < |blocks| ==> blocks[b] == if b in bs[..i] then Zeros() else old(blocks)[b]
      {
        assert bs[i] in bs;
        blocks := blocks[bs[i] := Zeros()];
        assert bs[..i + 1] == bs[..i] + [bs[i]];
        i := i + 1;
      }
    }

    // The loop that counts the blocks of a file.
    method CountBlocks(nd: Node) returns (n: nat)
      ensures n == NumBlocks(nd)
    {
      n := 0;
      var i := 0;
      while i < MAX_FILE_SIZE
        invariant i <= MAX_FILE_SIZE && n == Count(nd, i)
      {
        if nd.direct[i] != -1 {
          n := n + 1;
        }
        i := i + 1;
      }
    }

    // The contents of every file on disk are those in the old blocks.
    ghost predicate SameContents(blocks0: seq<Data>)
      reads this`inodes, this`blocks
    {
      forall j: nat :: j < |inodes| ==> Contents(blocks, inodes[j]) == Contents(blocks0, inodes[j])
    }

    // A write at the end of a file whose blocks are full begins with a new block.
    method EdgeBlock(i: nat, off: nat) returns (ok: bool, nd: Node)
      requires FilesOk(used, blocks, inodes) && i < |inodes|
      modifies this`used, this`blocks
      ensures FilesOk(used, blocks, inodes) && SameContents(old(blocks))
      ensures !ok ==> Edge(inodes[i], off) && FreeCount(old(used)) == 0 && used == old(used)
      ensures ok ==> Grown(used, blocks, inodes, i, nd)
      ensures ok && !Edge(inodes[i], off) ==> used == old(used) && nd == inodes[i]
      ensures ok ==> Gains(old(used), used, inodes[i], nd) && forall b: nat :: b < |used| && old(used)[b] ==> used[b]
      ensures ok && Edge(inodes[i], off) ==> FreeCount(used) == FreeCount(old(used)) - 1
      ensures ok && Edge(inodes[i], off) ==> NumBlocks(nd) == NumBlocks(inodes[i]) + 1 && NumBlocks(inodes[i]) == off / BLOCKSIZE
    {
      nd := inodes[i];
      GrowStart(used, blocks, inodes, i);
      var n := CountBlocks(nd);
      ok := true;
      if off % BLOCKSIZE == 0 && off / BLOCKSIZE < MAX_FILE_SIZE && off == nd.size && nd.direct[off / BLOCKSIZE] == -1 {
        var b := AllocDataBlock();
        if b == -1 {
          return false, nd;
        }
        FreeUnreferenced(old(used), blocks, inodes, b);
        forall j: nat | j < MAX_FILE_SIZE ensures nd.direct[j] != b {
          assert RefOk(old(used), nd, j);
        }
        GrownKept(old(used), blocks, inodes, i, nd, used, blocks[b := Zeros()]);
        blocks := blocks[b := Zeros()];
        GrowOne(used, blocks, inodes, i, nd, b);
        KeepsBlocks(nd, n, b);
        nd := nd.(direct := nd.direct[n := b]);
      }
    }

    // The other new blocks: all that are needed, or none.
    method MoreBlocks(i: nat, nd: Node, need: nat) returns (ok: bool, r: Node)
      requires Grown(used, blocks, inodes, i, nd) && NumBlocks(nd) + need <= MAX_FILE_SIZE
      modifies this`used, this`blocks
      ensures FilesOk(used, blocks, inodes) && SameContents(old(blocks))
      ensures ok <==> need <= FreeCount(old(used))
      ensures ok ==> Grown(used, blocks, inodes, i, r) && NumBlocks(r) == NumBlocks(nd) + need
      ensures ok ==> Gains(old(used), used, nd, r) && FreeCount(used) == FreeCount(old(used)) - need
      ensures !ok ==> used == old(used)
    {
      r := nd;
      var bs;
      ok, bs := AllocBlocks(need);
      if !ok {
        return;
      }
      forall x | x in bs ensures Unreferenced(inodes, x) && x !in nd.direct {
        FreeUnreferenced(old(used), blocks, inodes, x);
        forall j: nat | j < MAX_FILE_SIZE ensures nd.direct[j] != x {
          assert RefOk(old(used), nd, j);
        }
      }
      ZeroBlocks(bs);
      GrownKept(old(used), old(blocks), inodes, i, nd, used, blocks);
      forall x: nat | x < |bs| ensures Spare(used, blocks, inodes, nd, bs[x]) {
        assert bs[x] in bs;
      }
      r := Install(i, nd, bs);
    }

    // The new blocks go into the inode, in memory.
    method Install(i: nat, nd: Node, bs: seq<int>) returns (r: Node)
      requires Grown(used, blocks, inodes, i, nd) && NumBlocks(nd) + |bs| <= MAX_FILE_SIZE
      requires forall x: nat :: x < |bs| ==> Spare(used, blocks, inodes, nd, bs[x])
      requires forall x, y :: 0 <= x < y < |bs| ==> bs[x] != bs[y]
      ensures Grown(used, blocks, inodes, i, r) && NumBlocks(r) == NumBlocks(nd) + |bs|
      ensures (forall x :: x in bs ==> x in r.direct) && forall b: nat :: b in nd.direct ==> b in r.direct
    {
      r := nd;
      var num := CountBlocks(nd);
      var k := num;
      while k < |bs| + num
        invariant num <= k <= |bs| + num && Grown(used, blocks, inodes, i, r) && NumBlocks(r) == k
        invariant forall x: nat :: k - num <= x < |bs| ==> Spare(used, blocks, inodes, r, bs[x])
        invariant (forall x :: x in bs[..k - num] ==> x in r.direct) && forall b: nat :: b in nd.direct ==> b in r.direct
      {
        KeepsBlocks(r, k, bs[k - num]);
        assert bs[..k - num + 1] == bs[..k - num] + [bs[k - num]];
        GrowOne(used, blocks, inodes, i, r, bs[k - num]);
        r := r.(direct := r.direct[k := bs[k - num]]);
        k := k + 1;
      }
      assert bs[..|bs|] == bs;
    }

    // The loop that writes the bytes.
    method WriteData(i: nat, nd: Node, off: nat, buf: seq<byte>)
      requires Grown(used, blocks, inodes, i, nd) && off + |buf| <= NumBlocks(nd) * BLOCKSIZE
      modifies this`blocks
      ensures Written(old(blocks), blocks, nd, off, buf, |buf|)
    {
      var blk: nat, o: nat, left: nat := off / BLOCKSIZE, off % BLOCKSIZE, |buf|;
      while blk < MAX_FILE_SIZE && left > 0
        invariant left <= |buf| && o < BLOCKSIZE
        invariant left > 0 ==> off + (|buf| - left) == blk * BLOCKSIZE + o && blk < NumBlocks(nd)
        invariant Written(old(blocks), blocks, nd, off, buf, |buf| - left)
        decreases left
      {
        ghost var tot := |buf| - left;
        Place(blk, o);
        var m := if o + left > BLOCKSIZE then BLOCKSIZE - o else left;
        WriteStep(old(blocks), blocks, used, nd, off, buf, tot, m);
        var b := nd.direct[blk];
        blocks := blocks[b := Splice(blocks[b], o, buf[|buf| - left..|buf| - left + m])];
        if o + left > BLOCKSIZE {
          blk := blk + 1;
          left := left - m;
          o := 0;
        } else {
          left := 0;
        }
      }
    }

    // A handle of a file in use, and room for n bytes at its offset.
    predicate Fits(h: nat, n: nat)
      requires h < |handles| && (handles[h].inum >= 0 ==> handles[h].inum < |inodes|)
      reads this`handles, this`inodes
    {
      handles[h].inum >= 0 && inodes[handles[h].inum].inUse && n + handles[h].offset <= MAX_FILE_SIZE * BLOCKSIZE
    }

    // simplefs_write(): 0 exactly if there is nothing to write, or the bytes fit
    // and there are free blocks for them.  Then they are in the file, with zeros
    // in a gap before them; else no file changes, but a block is lost exactly if
    // the file filled its blocks and there was one for it.
    method Write(h: nat, buf: seq<byte>) returns (r: int)
      requires Valid() && h < |handles|
      modifies this`used, this`blocks, this`inodes
      ensures Valid() && (r == 0 || r == -1) && |used| == |old(used)|
      ensures |buf| == 0 ==> r == 0
      ensures |buf| > 0 && handles[h].inum < 0 ==> r == -1
      ensures |buf| > 0 && handles[h].inum >= 0 ==>
        var nd, end := old(inodes)[handles[h].inum], handles[h].offset + |buf|;
        (r == 0 <==> nd.inUse && end <= MAX_FILE_SIZE * BLOCKSIZE
                     && (end + BLOCKSIZE - 1) / BLOCKSIZE <= NumBlocks(nd) + FreeCount(old(used)))
      ensures |buf| > 0 && !old(Fits(h, |buf|)) ==> r == -1
      ensures |buf| > 0 && old(Fits(h, |buf|)) ==>
        (r == 0 <==> Needed(NumBlocks(old(inodes)[handles[h].inum]), handles[h].offset + |buf|) <= FreeCount(old(used)))
      ensures r == -1 || |buf| == 0 ==> inodes == old(inodes) && SameContents(old(blocks))
      ensures r == -1 ==> (used != old(used) <==>
        old(Fits(h, |buf|)) && Edge(inodes[handles[h].inum], handles[h].offset) && FreeCount(old(used)) > 0)
      ensures r == -1 && used != old(used) ==> FreeCount(used) == FreeCount(old(used)) - 1
      ensures r == 0 && |buf| > 0 ==>
        FreeCount(used) == FreeCount(old(used)) - Needed(NumBlocks(old(inodes)[handles[h].inum]), handles[h].offset + |buf|)
      ensures AllInFiles(old(used), old(inodes)) ==> (AllInFiles(used, inodes) <==> r == 0 || used == old(used))
      ensures r == 0 && |buf| > 0 ==> WroteFile(handles[h].inum, handles[h].offset, buf, old(inodes), old(blocks))
    {
      if |buf| == 0 {
        return 0;
      }
      if handles[h].inum < 0 {
        return -1;
      }
      var i, off := handles[h].inum, handles[h].offset;
      if !inodes[i].inUse {
        return -1;
      }
      if |buf| + off > MAX_FILE_SIZE * BLOCKSIZE {
        return -1;
      }
      r := WriteFile(i, off, buf);
    }

    // Inode i holds the new bytes, and every other file is as before.
    ghost predicate WroteFile(i: int, off: nat, buf: seq<byte>, inodes0: seq<Node>, blocks0: seq<Data>)
      reads this`inodes, this`blocks
    {
      && 0 <= i < |inodes| == |inodes0| && inodes[i].inUse && inodes[i].name == inodes0[i].name
      && Contents(blocks, inodes[i]) == PutBytes(Contents(blocks0, inodes0[i]), off, buf)
      && forall j: nat :: j < |inodes| && j != i ==> inodes[j] == inodes0[j] && Contents(blocks, inodes[j]) == Contents(blocks0, inodes[j])
    }

    // simplefs_write() after its tests.
    method WriteFile(i: nat, off: nat, buf: seq<byte>) returns (r: int)
      requires FilesOk(used, blocks, inodes) && i < |inodes| && inodes[i].inUse
      requires 0 < |buf| && |buf| + off <= MAX_FILE_SIZE * BLOCKSIZE
      modifies this`used, this`blocks, this`inodes
      ensures FilesOk(used, blocks, inodes) && (r == 0 || r == -1) && |used| == |old(used)|
      ensures r == 0 <==> Needed(NumBlocks(old(inodes)[i]), off + |buf|) <= FreeCount(old(used))
      ensures r == -1 ==> inodes == old(inodes) && SameContents(old(blocks))
      ensures r == -1 ==> (used != old(used) <==> Edge(inodes[i], off) && FreeCount(old(used)) > 0)
      ensures r == -1 && used != old(used) ==> FreeCount(used) == FreeCount(old(used)) - 1
      ensures r == 0 ==> FreeCount(used) == FreeCount(old(used)) - Needed(NumBlocks(old(inodes)[i]), off + |buf|)
      ensures AllInFiles(old(used), old(inodes)) ==> (AllInFiles(used, inodes) <==> r == 0 || used == old(used))
      ensures |inodes| == |old(inodes)| && (r == 0 ==> WroteFile(i, off, buf, old(inodes), old(blocks)))
    {
      var ok, nd := TakeBlocks(i, off, |buf|);
      if !ok {
        return -1;
      }
      PutFile(i, nd, off, buf);
      if AllInFiles(old(used), old(inodes)) {
        GainsInFiles(old(used), used, old(inodes), i, inodes[i]);
      }
      r := 0;
    }

    // All the blocks that n bytes at off need, in memory only; or none, but for a
    // first one at the edge.
    method TakeBlocks(i: nat, off: nat, n: nat) returns (ok: bool, nd: Node)
      requires FilesOk(used, blocks, inodes) && i < |inodes| && 0 < n && n + off <= MAX_FILE_SIZE * BLOCKSIZE
      modifies this`used, this`blocks
      ensures FilesOk(used, blocks, inodes) && SameContents(old(blocks)) && |used| == |old(used)|
      ensures ok <==> Needed(NumBlocks(inodes[i]), off + n) <= FreeCount(old(used))
      ensures ok ==> Grown(used, blocks, inodes, i, nd) && off + n <= NumBlocks(nd) * BLOCKSIZE
      ensures ok ==> Gains(old(used), used, inodes[i], nd)
      ensures ok ==> FreeCount(used) == FreeCount(old(used)) - Needed(NumBlocks(inodes[i]), off + n)
      ensures !ok ==> (used != old(used) <==> Edge(inodes[i], off) && FreeCount(old(used)) > 0)
      ensures !ok && used != old(used) ==> FreeCount(used) == FreeCount(old(used)) - 1
      ensures !ok && AllInFiles(old(used), inodes) ==> (AllInFiles(used, inodes) <==> used == old(used))
    {
      ok, nd := EdgeBlock(i, off);
      if !ok {
        return;
      }
      var num := CountBlocks(nd);
      var avail := (num - (off / BLOCKSIZE + 1)) * BLOCKSIZE + (BLOCKSIZE - off % BLOCKSIZE);
      var req := if n - avail > 0 then n - avail else 0;
      var need := req / BLOCKSIZE + if req % BLOCKSIZE != 0 then 1 else 0;
      NeedExact(num, off, n, avail, req, need);
      assert need + num <= MAX_FILE_SIZE;
      ok, nd := MoreBlocks(i, nd, need);
      if !ok && AllInFiles(old(used), inodes) {
        LostNotInFiles(old(used), used, old(blocks), inodes);
      }
    }

    // The bytes go into the blocks, and the inode with its new blocks to disk.
    method PutFile(i: nat, nd: Node, off: nat, buf: seq<byte>)
      requires Grown(used, blocks, inodes, i, nd) && off + |buf| <= NumBlocks(nd) * BLOCKSIZE && nd.inUse
      modifies this`blocks, this`inodes
      ensures FilesOk(used, blocks, inodes) && inodes == old(inodes)[i := Resized(nd, off + |buf|)]
      ensures WroteFile(i, off, buf, old(inodes), old(blocks))
    {
      WriteData(i, nd, off, buf);
      WriteEnd(used, old(blocks), blocks, inodes, i, nd, off, buf);
      inodes := inodes[i := nd.(size := if off + |buf| > nd.size then off + |buf| else nd.size)];
    }

    // simplefs_read(): exactly the bytes of the file at the offset of the handle,
    // or -1; nothing changes.
    method Read(h: nat, n: int) returns (r: int, dst: seq<byte>)
      requires Valid() && h < |handles|
      ensures r == 0 || r == -1
      ensures n <= 0 || handles[h].inum < 0 ==> r == -1
      ensures n > 0 && handles[h].inum >= 0 ==>
        var nd := inodes[handles[h].inum]; (r == 0 <==> nd.inUse && handles[h].offset + n <= nd.size)
      ensures r == 0 ==> dst == Contents(blocks, inodes[handles[h].inum])[handles[h].offset..handles[h].offset + n]
    {
      if n <= 0 {
        return -1, [];
      }
      if handles[h].inum < 0 {
        return -1, [];
      }
      var nd, off := inodes[handles[h].inum], handles[h].offset;
      if !nd.inUse {
        return -1, [];
      }
      if off + n > nd.size {
        return -1, [];
      }
      dst := ReadData(handles[h].inum, off, n);
      r := 0;
    }

    // The loop of simplefs_read().
    method ReadData(i: nat, off: nat, n: nat) returns (dst: seq<byte>)
      requires FilesOk(used, blocks, inodes) && i < |inodes| && off + n <= inodes[i].size
      ensures dst == Contents(blocks, inodes[i])[off..off + n]
    {
      var nd := inodes[i];
      assert NodeOk(used, blocks, nd);
      var blk: nat, o: nat, left: nat := off / BLOCKSIZE, off % BLOCKSIZE, n;
      dst := [];
      while left > 0
        invariant left <= n && o < BLOCKSIZE
        invariant left > 0 ==> off + (n - left) == blk * BLOCKSIZE + o
        invariant dst == Contents(blocks, nd)[off..off + (n - left)]
        decreases left
      {
        var m := if o + left > BLOCKSIZE then BLOCKSIZE - o else left;
        ReadMore(used, blocks, nd, off, n - left, blk, o, m, dst);
        dst := dst + blocks[nd.direct[blk]][o..o + m];
        if o + left > BLOCKSIZE {
          blk := blk + 1;
          left := left - m;
          o := 0;
        } else {
          left := 0;
        }
      }
    }

    // The search for a file: the first inode in use with the name, or |inodes|.
    method Find(name: string) returns (i: nat)
      ensures FirstNamed(inodes, name, i)
    {
      i := 0;
      while i < |inodes| && !(inodes[i].inUse && inodes[i].name == name)
        invariant i <= |inodes| && forall k: nat :: k < i ==> !Named(inodes[k], name)
      {
        i := i + 1;
      }
    }

    // simplefs_allocInode(): the first free inode, or -1.
    method AllocInode() returns (r: int)
      modifies this`inodeUsed
      ensures -1 <= r < |old(inodeUsed)| && forall k :: 0 <= k < (if r == -1 then |old(inodeUsed)| else r) ==> old(inodeUsed)[k]
      ensures inodeUsed == if r == -1 then old(inodeUsed) else old(inodeUsed)[r := true]
      ensures r != -1 ==> !old(inodeUsed)[r]
    {
      r := 0;
      while r < |inodeUsed| && inodeUsed[r]
        invariant 0 <= r <= |inodeUsed| && forall k :: 0 <= k < r ==> inodeUsed[k]
        modifies {}
      {
        r := r + 1;
      }
      if r == |inodeUsed| {
        return -1;
      }
      inodeUsed := inodeUsed[r := true];
    }

    // simplefs_create(): an empty file in the first free inode; -1 exactly if the
    // name is taken or no inode is free.
    method Create(name: string) returns (r: int)
      requires Valid()
      modifies this`inodes, this`inodeUsed
      ensures Valid() && -1 <= r < |old(inodes)|
      ensures r == -1 <==> Taken(old(inodes), name) || forall i: nat :: i < |old(inodes)| ==> old(inodes)[i].inUse
      ensures r == -1 ==> inodes == old(inodes)
      ensures r != -1 ==> !old(inodes)[r].inUse && inodes == old(inodes)[r := Inode(true, name, 0, NoBlocks())]
      ensures r != -1 ==> forall i: nat :: i < r ==> old(inodes)[i].inUse
      ensures AllInFiles(used, old(inodes)) ==> AllInFiles(used, inodes)
    {
      var i := Find(name);
      if i < |inodes| {
        return -1;
      }
      r := AllocInode();
      if r == -1 {
        return;
      }
      EmptyFile(used, blocks, inodes, r, Inode(true, name, 0, NoBlocks()));
      if AllInFiles(used, inodes) {
        NoBlocksOf(used, blocks, inodes, r);
        LeavesInFiles(used, used, inodes, r, Inode(true, name, 0, NoBlocks()));
      }
      inodes := inodes[r := Inode(true, name, 0, NoBlocks())];
    }

    // simplefs_delete(): the inode is free, and exactly its blocks are; the other
    // files are as before.
    method Delete(name: string) returns (i: nat)
      requires Valid()
      modifies this`inodes, this`inodeUsed, this`used
      ensures Valid() && FirstNamed(old(inodes), name, i)
      ensures i == |old(inodes)| ==> inodes == old(inodes) && used == old(used)
      ensures i < |old(inodes)| ==> Deleted(old(inodes), old(used), i)
      ensures AllInFiles(old(used), old(inodes)) ==> AllInFiles(used, inodes)
    {
      i := Find(name);
      if i < |inodes| {
        FreeBlocks(i);
        FreeFile(old(used), used, blocks, inodes, i, Inode(false, inodes[i].name, 0, NoBlocks()));
        if AllInFiles(old(used), inodes) {
          LeavesInFiles(old(used), used, inodes, i, Inode(false, inodes[i].name, 0, NoBlocks()));
        }
        // the assert of simplefs_freeInode() does not fail
        assert inodeUsed[i];
        inodeUsed := inodeUsed[i := false];
        inodes := inodes[i := Inode(false, inodes[i].name, 0, NoBlocks())];
      }
    }

    ghost predicate Deleted(inodes0: seq<Node>, used0: seq<bool>, i: nat)
      reads this`inodes, this`used
    {
      && i < |inodes0| && inodes == inodes0[i := Inode(false, inodes0[i].name, 0, NoBlocks())]
      && |used| == |used0| && forall b: nat :: b < |used| ==> (used[b] <==> used0[b] && b !in inodes0[i].direct)
    }

    // The loop that frees the blocks of a file.
    method FreeBlocks(i: nat)
      requires FilesOk(used, blocks, inodes) && i < |inodes|
      modifies this`used
      ensures |used| == |old(used)| && forall b: nat :: b < |used| ==> (used[b] <==> old(used)[b] && b !in inodes[i].direct)
    {
      var nd := inodes[i];
      assert Simple(nd) && NodeOk(used, blocks, nd);
      var j := 0;
      while j < MAX_FILE_SIZE
        invariant j <= MAX_FILE_SIZE && |used| == |old(used)|
        invariant forall b: nat :: b < |used| ==> (used[b] <==> old(used)[b] && b !in nd.direct[..j])
      {
        assert RefOk(old(used), nd, j);
        if nd.direct[j] != -1 {
          forall k: nat | k < j ensures nd.direct[k] != nd.direct[j] {
            assert Apart(nd, nd, j, k);
          }
          FreeDataBlock(nd.direct[j]);
        }
        assert nd.direct[..j + 1] == nd.direct[..j] + [nd.direct[j]];
        j := j + 1;
      }
      assert nd.direct[..MAX_FILE_SIZE] == nd.direct;
    }

    // simplefs_open(): a handle at the start of the file, or -1.
    method Open(name: string) returns (r: int)
      requires Valid()
      modifies this`handles
      ensures Valid() && -1 <= r < |handles| == |old(handles)|
      ensures r == -1 <==> !Taken(inodes, name) || forall h: nat :: h < |old(handles)| ==> old(handles)[h].inum != -1
      ensures r == -1 ==> handles == old(handles)
      ensures r != -1 ==> old(handles)[r].inum == -1 && handles == old(handles)[r := handles[r]]
      ensures r != -1 ==> forall h: nat :: h < r ==> old(handles)[h].inum != -1
      ensures r != -1 ==> handles[r].offset == 0 && 0 <= handles[r].inum < |inodes| && FirstNamed(inodes, name, handles[r].inum)
    {
      var i := Find(name);
      var h := 0;
      while h < |handles| && handles[h].inum != -1
        invariant h <= |handles| && forall k: nat :: k < h ==> handles[k].inum != -1
        modifies {}
      {
        h := h + 1;
      }
      if i == |inodes| || h == |handles| {
        return -1;
      }
      handles := handles[h := Handle(0, i)];
      r := h;
    }

    // simplefs_close()
    method Close(h: nat)
      requires Valid() && h < |handles|
      modifies this`handles
      ensures Valid() && handles == old(handles)[h := Handle(0, -1)]
    {
      handles := handles[h := Handle(0, -1)];
    }

    // simplefs_seek(): the offset moves exactly if it stays in the file.
    method Seek(h: nat, nseek: int) returns (r: int)
      requires Valid() && h < |handles|
      modifies this`handles
      ensures Valid() && (r == 0 || r == -1)
      ensures old(handles)[h].inum == -1 ==> r == -1
      ensures old(handles)[h].inum != -1 ==>
        (r == 0 <==> 0 <= old(handles)[h].offset + nseek <= inodes[old(handles)[h].inum].size)
      ensures r == 0 ==> old(handles)[h].offset + nseek >= 0
      ensures r == 0 ==> handles == old(handles)[h := Handle(old(handles)[h].offset + nseek, old(handles)[h].inum)]
      ensures r == -1 ==> handles == old(handles)
    {
      if handles[h].inum == -1 {
        return -1;
      }
      var present := handles[h].offset;
      if present < -nseek || present + nseek > inodes[handles[h].inum].size {
        return -1;
      }
      handles := handles[h := Handle(present + nseek, handles[h].inum)];
      r := 0;
    }
  }

  // The one block of a disk is lost: an empty file gets it, and then not the second.
  method LostBlock() returns (d: Disk)
    requires 2 <= MAX_FILE_SIZE
    ensures d.Valid() && |d.inodes| == 1 && d.inodes[0].inUse && NumBlocks(d.inodes[0]) == 0
    ensures |d.used| == 1 && FreeCount(d.used) == 0 && !AllInFiles(d.used, d.inodes)
  {
    d := new Disk(1, 1, 1);
    var i := d.Create("a");
    var h := d.Open("a");
    assert d.used == [false] && d.inodes[0].direct[0] == -1;
    CountFilled(d.inodes[0], 0, MAX_FILE_SIZE);
    assert FreeCount([false]) == 1;
    var r := d.Write(0, seq(BLOCKSIZE + 1, _ => 7));
  }

  // The bytes of one block are those of the file.
  lemma ReadStep(used: seq<bool>, blocks: seq<Data>, nd: Node, blk: nat, o: nat, m: nat)
    requires NodeOk(used, blocks, nd) && |used| == |blocks| && 0 < m <= BLOCKSIZE - o && blk * BLOCKSIZE + o + m <= nd.size
    ensures blk < MAX_FILE_SIZE && 0 <= nd.direct[blk] < |blocks|
    ensures var cur := blk * BLOCKSIZE + o; blocks[nd.direct[blk]][o..o + m] == Contents(blocks, nd)[cur..cur + m]
  {
    assert RefOk(used, nd, blk);
    var x, c, cur := blocks[nd.direct[blk]][o..o + m], Contents(blocks, nd), blk * BLOCKSIZE + o;
    forall k: nat | k < m ensures x[k] == c[cur..cur + m][k] {
      Place(blk, o + k);
      assert c[cur + k] == FileByte(blocks, nd, cur + k);
    }
  }

  // The bytes read so far, and those of one block more.
  lemma ReadMore(used: seq<bool>, blocks: seq<Data>, nd: Node, off: nat, tot: nat, blk: nat, o: nat, m: nat, dst: seq<byte>)
    requires NodeOk(used, blocks, nd) && |used| == |blocks| && 0 < m <= BLOCKSIZE - o && off + tot + m <= nd.size
    requires off + tot == blk * BLOCKSIZE + o && dst == Contents(blocks, nd)[off..off + tot]
    ensures blk < MAX_FILE_SIZE && 0 <= nd.direct[blk] < |blocks|
    ensures dst + blocks[nd.direct[blk]][o..o + m] == Contents(blocks, nd)[off..off + (tot + m)]
  {
    ReadStep(used, blocks, nd, blk, o, m);
    var c := Contents(blocks, nd);
    assert c[off..off + tot] + c[off + tot..off + tot + m] == c[off..off + tot + m];
  }

  // An inode without blocks does not disturb the other files.
  lemma EmptyFile(used: seq<bool>, blocks: seq<Data>, inodes: seq<Node>, i: nat, nd: Node)
    requires FilesOk(used, blocks, inodes) && i < |inodes| && nd.size == 0 && nd.direct == NoBlocks()
    ensures FilesOk(used, blocks, inodes[i := nd])
  {
    var r := inodes[i := nd];
    CountFilled(nd, 0, MAX_FILE_SIZE);
    forall j: nat, k: nat | j < |r| && k < |r| && j != k ensures Disjoint(r[j], r[k]) {
      assert Disjoint(inodes[j], inodes[k]);
      forall x: nat, y: nat | x < MAX_FILE_SIZE && y < MAX_FILE_SIZE ensures Apart(r[j], r[k], x, y) {
        assert Apart(inodes[j], inodes[k], x, y);
      }
    }
  }

  // The blocks of file i are free, and it has none.
  lemma FreeFile(used: seq<bool>, used': seq<bool>, blocks: seq<Data>, inodes: seq<Node>, i: nat, nd: Node)
    requires FilesOk(used, blocks, inodes) && i < |inodes| && nd.size == 0 && nd.direct == NoBlocks()
    requires |used'| == |used| && forall b: nat :: b < |used| ==> (used'[b] <==> used[b] && b !in inodes[i].direct)
    ensures FilesOk(used', blocks, inodes[i := nd])
  {
    EmptyFile(used, blocks, inodes, i, nd);
    var r := inodes[i := nd];
    forall b: nat | b < |used| && used[b] && !Unreferenced(r, b) ensures used'[b] {
      var j: nat, k: nat :| j < |r| && k < MAX_FILE_SIZE && r[j].direct[k] == b;
      assert j != i && Disjoint(inodes[i], inodes[j]);
      forall x: nat | x < MAX_FILE_SIZE ensures inodes[i].direct[x] != b {
        assert Apart(inodes[i], inodes[j], x, k);
      }
    }
    FilesKept(used, blocks, r, used', blocks);
  }

  // The arithmetic of simplefs_write() counts exactly the blocks that are missing.
  lemma NeedExact(num: nat, off: nat, n: nat, avail: int, req: nat, need: nat)
    requires num <= MAX_FILE_SIZE && off + n <= MAX_FILE_SIZE * BLOCKSIZE
    requires avail == (num - (off / BLOCKSIZE + 1)) * BLOCKSIZE + (BLOCKSIZE - off % BLOCKSIZE)
    requires req == if n - avail > 0 then n - avail else 0
    requires need == req / BLOCKSIZE + if req % BLOCKSIZE != 0 then 1 else 0
    ensures need > 0 ==> (num + need - 1) * BLOCKSIZE < off + n
    ensures need == Needed(num, off + n) && need + num <= MAX_FILE_SIZE && off + n <= (num + need) * BLOCKSIZE
  {
    assert avail == num * BLOCKSIZE - off;
  }

  lemma Place(blk: nat, o: nat)
    requires o < BLOCKSIZE
    ensures (blk * BLOCKSIZE + o) / BLOCKSIZE == blk && (blk * BLOCKSIZE + o) % BLOCKSIZE == o
  {
  }

  lemma EmptyNode(used: seq<bool>, blocks: seq<Data>, nd: Node)
    requires nd.size == 0 && nd.direct == NoBlocks() && !nd.inUse
    ensures NodeOk(used, blocks, nd) && Simple(nd)
  {
    CountFilled(nd, 0, MAX_FILE_SIZE);
  }
}
