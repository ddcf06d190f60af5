// Inodes on disk: how fs.c packs them into the blocks of the inode table.
module Dinodes {
  import opened Blocks

  // A number of direct blocks with which an inode fits a block.
  type Directs = n: nat | n + 4 <= BSIZE / 4 witness 12

  const NDIRECT: Directs

  // The words of a dinode: type, major, minor and nlink in two, size, addrs.
  const DWORDS: nat := NDIRECT + 4

  const IPB: nat := BSIZE / 4 / DWORDS

  // The fields of an inode that the block map and the file contents use.
  datatype Dinode = Dinode(size: nat, addrs: seq<nat>)

  type Node = n: Dinode | |n.addrs| == NDIRECT + 1 witness Dinode(0, seq(NDIRECT + 1, _ => 0))

  // The fields fit their words.
  predicate Fits(nd: Node) {
    nd.size < WORD && forall k :: 0 <= k <= NDIRECT ==> nd.addrs[k] < WORD
  }

  lemma SlotsFit()
    ensures 0 < IPB && IPB * DWORDS <= BSIZE / 4
  {
    Divides(BSIZE / 4, DWORDS);
  }

  lemma Divides(n: nat, d: nat)
    requires 0 < d <= n
    ensures 0 < n / d && n / d * d <= n
  {
    assert n == n / d * d + n % d;
  }

  // The block of the inode table that holds inode i, and its slot there.
  function BlockOf(i: nat): (b: nat) {
    SlotsFit();
    i / IPB
  }

  function SlotOf(i: nat): (s: nat)
    ensures s < IPB
  {
    SlotsFit();
    i % IPB
  }

  lemma SlotsDiffer(i: nat, j: nat)
    requires i != j && BlockOf(i) == BlockOf(j)
    ensures SlotOf(i) != SlotOf(j)
  {
    SlotsFit();
    assert i == i / IPB * IPB + i % IPB && j == j / IPB * IPB + j % IPB;
  }

  // The first word of slot s of a block.
  function At(s: nat): (w: nat)
    requires s < IPB
    ensures w + DWORDS <= BSIZE / 4
  {
    SlotsFit();
    Times(s + 1, IPB, DWORDS);
    assert (s + 1) * DWORDS == s * DWORDS + DWORDS;
    s * DWORDS
  }

  lemma Apart(s: nat, t: nat)
    requires s < t < IPB
    ensures At(s) + DWORDS <= At(t)
  {
    Times(s + 1, t, DWORDS);
    assert (s + 1) * DWORDS == s * DWORDS + DWORDS;
  }

  // The inode in slot s.
  function Unpack(b: Block, s: nat): (nd: Node)
    requires s < IPB
  {
    Dinode(Entry(b, At(s) + 2), Words(b, At(s) + 3))
  }

  function Words(b: Block, at: nat): (ws: seq<nat>)
    requires at + NDIRECT + 1 <= BSIZE / 4
    ensures |ws| == NDIRECT + 1
  {
    seq<nat>(NDIRECT + 1, k requires 0 <= k <= NDIRECT => Entry(b, at + k))
  }

  // memmove() of words.
  function PutWords(b: Block, at: nat, ws: seq<nat>): (r: Block)
    requires at + |ws| <= BSIZE / 4 && forall k :: 0 <= k < |ws| ==> ws[k] < WORD
    decreases |ws|
  {
    if ws == [] then b else PutWords(WithEntry(b, at, ws[0]), at + 1, ws[1..])
  }

  lemma {:induction false} PutWordsEntry(b: Block, at: nat, ws: seq<nat>, j: nat)
    requires at + |ws| <= BSIZE / 4 && j < BSIZE / 4 && forall k :: 0 <= k < |ws| ==> ws[k] < WORD
    ensures Entry(PutWords(b, at, ws), j) == if at <= j < at + |ws| then ws[j - at] else Entry(b, j)
    decreases |ws|
  {
    if ws != [] {
      PutWordsEntry(WithEntry(b, at, ws[0]), at + 1, ws[1..], j);
      WithEntryEntries(b, at, ws[0], j);
    }
  }

  // iupdate()'s writes into the block.
  function Pack(b: Block, s: nat, nd: Node): (r: Block)
    requires s < IPB && Fits(nd)
  {
    PutWords(WithEntry(b, At(s) + 2, nd.size), At(s) + 3, nd.addrs)
  }

  // The inode can be read back, and the other inodes of the block are as before.
  lemma PackUnpack(b: Block, s: nat, nd: Node, t: nat)
    requires s < IPB && t < IPB && Fits(nd)
    ensures Unpack(Pack(b, s, nd), t) == if t == s then nd else Unpack(b, t)
  {
    var r, n := Pack(b, s, nd), if t == s then nd else Unpack(b, t);
    if t < s {
      Apart(t, s);
    } else if s < t {
      Apart(s, t);
    }
    PackWord(b, s, nd, At(t) + 2);
    forall k | 0 <= k <= NDIRECT ensures Unpack(r, t).addrs[k] == n.addrs[k] {
      PackWord(b, s, nd, At(t) + 3 + k);
    }
    assert Unpack(r, t).addrs == n.addrs;
  }

  lemma PackWord(b: Block, s: nat, nd: Node, j: nat)
    requires s < IPB && Fits(nd) && j < BSIZE / 4
    ensures Entry(Pack(b, s, nd), j) ==
      if j == At(s) + 2 then nd.size
      else if At(s) + 3 <= j < At(s) + DWORDS then nd.addrs[j - At(s) - 3]
      else Entry(b, j)
  {
    PutWordsEntry(WithEntry(b, At(s) + 2, nd.size), At(s) + 3, nd.addrs, j);
    WithEntryEntries(b, At(s) + 2, nd.size, j);
  }
}
