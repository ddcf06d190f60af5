// The inode layer of fs.c: block allocation, block maps, and files as
// sequences of bytes.
//
// The store holds the contents of the blocks as bread() returns them and
// log_write() leaves them; the log and the cache below are modules of their own.
module Inodes {
  import opened Blocks
  import opened Dinodes

  const MAXFILE: nat := NDIRECT + NINDIRECT
  // Block references of one inode: direct blocks, the indirect block, its entries.
  const SLOTS: nat := NDIRECT + 1 + NINDIRECT

  type Store = seq<Block>

  // The superblock: blocks of inodes from inodestart, of bitmap from bmapstart, of
  // data from datastart.
  datatype Super = Super(size: nat, inodestart: nat, bmapstart: nat, datastart: nat)

  datatype Ref = Ref(inum: nat, slot: nat)

  ghost predicate SuperOk(sb: Super) {
    0 < sb.inodestart <= sb.bmapstart && sb.bmapstart + (sb.size + BPB - 1) / BPB <= sb.datastart <= sb.size < WORD
  }

  predicate Used(blk: Store, sb: Super, b: nat)
    requires sb.bmapstart + b / BPB < |blk|
  {
    BitAt(blk[sb.bmapstart + b / BPB], b % BPB)
  }

  ghost predicate InUse(blk: Store, sb: Super, b: nat) {
    sb.bmapstart + b / BPB < |blk| && Used(blk, sb, b)
  }

  // The bitmap has a bit for each block, in blocks of 512 bytes from bmapstart on.
  lemma UsedDigit(blk: Store, sb: Super, b: nat)
    requires sb.bmapstart + b / 4096 < |blk|
    ensures Used(blk, sb, b) <==> blk[sb.bmapstart + b / 4096][b % 4096 / 8] / Power(b % 8) % 2 == 1
  {
    Remainder(b);
    BitIsDigit(blk[sb.bmapstart + b / 4096][b % 4096 / 8], b % 8);
  }

  lemma Remainder(b: nat)
    ensures b % 4096 % 8 == b % 8
  {
    assert b == 8 * (512 * (b / 4096)) + b % 4096;
  }

  // balloc() panics only when every bit is set.
  lemma FullDigits(fs: FileSystem)
    requires SuperOk(fs.sb) && |fs.blk| == fs.sb.size
    ensures fs.Full() <==> forall b: nat :: b < fs.sb.size ==>
      fs.sb.bmapstart + b / 4096 < |fs.blk| && fs.blk[fs.sb.bmapstart + b / 4096][b % 4096 / 8] / Power(b % 8) % 2 == 1
  {
    forall b: nat | b < fs.sb.size
      ensures InUse(fs.blk, fs.sb, b) <==>
        (fs.sb.bmapstart + b / 4096 < |fs.blk| && fs.blk[fs.sb.bmapstart + b / 4096][b % 4096 / 8] / Power(b % 8) % 2 == 1)
    {
      BitmapBlock(fs.sb, b);
      UsedDigit(fs.blk, fs.sb, b);
    }
  }

  // The block number in slot s of an inode; 0 if there is none.
  ghost function Slot(blk: Store, nd: Node, s: nat): nat {
    if s <= NDIRECT then nd.addrs[s]
    else if nd.addrs[NDIRECT] == 0 || nd.addrs[NDIRECT] >= |blk| || s >= SLOTS then 0
    else Entry(blk[nd.addrs[NDIRECT]], s - NDIRECT - 1)
  }

  // The slot of the bn-th block of a file.
  function DataSlot(bn: nat): nat {
    if bn < NDIRECT then bn else bn + 1
  }

  // ----- ownership -----

  ghost predicate SlotOk(blk: Store, nodes: seq<Node>, own: map<nat, Ref>, i: nat, s: nat) {
    i < |nodes| &&
    var b := Slot(blk, nodes[i], s);
    b != 0 ==> b in own && own[b] == Ref(i, s)
  }

  ghost predicate OwnerOk(blk: Store, sb: Super, nodes: seq<Node>, own: map<nat, Ref>, b: nat) {
    b in own &&
    var r := own[b];
    && sb.datastart <= b < sb.size && r.inum < |nodes| && r.slot < SLOTS
    && Slot(blk, nodes[r.inum], r.slot) == b
  }

  ghost predicate BitOk(blk: Store, sb: Super, own: map<nat, Ref>, lent: set<nat>, b: nat)
    requires sb.bmapstart + b / BPB < |blk|
  {
    Used(blk, sb, b) <==> b < sb.datastart || b in own || b in lent
  }

  // Every data block marked in the bitmap is in exactly one slot, the one that
  // `own` names, and every slot names such a block.  Blocks that are allocated
  // but not yet, or no longer, in a slot are lent.
  ghost predicate Owned(blk: Store, sb: Super, nodes: seq<Node>, own: map<nat, Ref>, lent: set<nat>) {
    && SuperOk(sb) && |blk| == sb.size
    && (forall i: nat, s: nat :: i < |nodes| && s < SLOTS ==> SlotOk(blk, nodes, own, i, s))
    && (forall b: nat :: b in own ==> OwnerOk(blk, sb, nodes, own, b))
    && (forall b: nat :: b < sb.size ==> BitOk(blk, sb, own, lent, b))
    && (forall b: nat :: b in lent ==> b !in own && sb.datastart <= b < sb.size)
  }

  lemma BitmapBlock(sb: Super, b: nat)
    requires SuperOk(sb) && b < sb.size
    ensures sb.bmapstart + b / BPB < sb.datastart
  {
  }

  // No block is in two slots.
  lemma SlotsDistinct(blk: Store, sb: Super, nodes: seq<Node>, own: map<nat, Ref>, lent: set<nat>, i: nat, s: nat, j: nat, t: nat)
    requires Owned(blk, sb, nodes, own, lent)
    requires i < |nodes| && s < SLOTS && j < |nodes| && t < SLOTS && (i != j || s != t)
    ensures Slot(blk, nodes[i], s) != 0 ==> Slot(blk, nodes[i], s) != Slot(blk, nodes[j], t)
  {
    assert SlotOk(blk, nodes, own, i, s) && SlotOk(blk, nodes, own, j, t);
  }

  // ----- steps that keep ownership -----

  // The two stores give inode nd the same slots and the same data.
  ghost predicate SameFile(blk: Store, blk': Store, nd: Node) {
    |blk'| == |blk| && forall s: nat :: s < SLOTS ==> SameSlot(blk, blk', nd, s)
  }

  ghost predicate SameSlot(blk: Store, blk': Store, nd: Node, s: nat)
    requires |blk'| == |blk|
  {
    var b := Slot(blk, nd, s);
    && Slot(blk', nd, s) == b
    && (s != NDIRECT && 0 < b < |blk| ==> blk'[b] == blk[b])
  }

  // Blocks that differ between two stores are not those of inode i.
  lemma FileFrame(blk: Store, blk': Store, sb: Super, nodes: seq<Node>, own: map<nat, Ref>, lent: set<nat>, i: nat)
    requires Owned(blk, sb, nodes, own, lent) && |blk'| == |blk| && i < |nodes|
    requires forall b: nat :: b in own && own[b].inum == i ==> b < |blk| && blk'[b] == blk[b]
    ensures SameFile(blk, blk', nodes[i])
  {
    assert SlotOk(blk, nodes, own, i, NDIRECT);
    forall s: nat | s < SLOTS ensures SameSlot(blk, blk', nodes[i], s) {
      assert SlotOk(blk, nodes, own, i, s);
    }
  }

  // Only block a changes, and it holds data of a file: no slot changes.
  lemma WriteOwned(blk: Store, sb: Super, nodes: seq<Node>, own: map<nat, Ref>, lent: set<nat>, a: nat, data: Block)
    requires Owned(blk, sb, nodes, own, lent) && a in own && own[a].slot != NDIRECT
    ensures a < |blk| && Owned(blk[a := data], sb, nodes, own, lent)
    ensures forall j: nat :: j < |nodes| && j != own[a].inum ==> SameFile(blk, blk[a := data], nodes[j])
    ensures forall j: nat, s: nat :: j < |nodes| && s < SLOTS ==>
      Slot(blk[a := data], nodes[j], s) == Slot(blk, nodes[j], s)
  {
    assert OwnerOk(blk, sb, nodes, own, a);
    var blk' := blk[a := data];
    forall j: nat, s: nat | j < |nodes| && s < SLOTS
      ensures SlotOk(blk', nodes, own, j, s) && Slot(blk', nodes[j], s) == Slot(blk, nodes[j], s)
    {
      assert SlotOk(blk, nodes, own, j, s) && SlotOk(blk, nodes, own, j, NDIRECT);
    }
    forall b: nat | b in own ensures OwnerOk(blk', sb, nodes, own, b) {
      assert OwnerOk(blk, sb, nodes, own, b);
    }
    forall b: nat | b < sb.size ensures BitOk(blk', sb, own, lent, b) {
      BitmapBlock(sb, b);
      assert BitOk(blk, sb, own, lent, b);
    }
    forall j: nat | j < |nodes| && j != own[a].inum ensures SameFile(blk, blk', nodes[j]) {
      forall b: nat | b in own && own[b].inum == j ensures b < |blk| && blk'[b] == blk[b] {
        assert OwnerOk(blk, sb, nodes, own, b);
      }
      FileFrame(blk, blk', sb, nodes, own, lent, j);
    }
  }

  // The store with the bitmap bit of block b changed.
  ghost function Marked(blk: Store, sb: Super, b: nat, v: bool): (r: Store)
    requires sb.bmapstart + b / BPB < |blk|
    ensures |r| == |blk|
  {
    var m := sb.bmapstart + b / BPB;
    blk[m := SetBitAt(blk[m], b % BPB, v)]
  }

  lemma MarkedUsed(blk: Store, sb: Super, b: nat, v: bool, x: nat)
    requires sb.bmapstart + b / BPB < |blk| && sb.bmapstart + x / BPB < |blk|
    ensures Used(Marked(blk, sb, b, v), sb, x) <==> if x == b then v else Used(blk, sb, x)
  {
    SetBitAtBits(blk[sb.bmapstart + b / BPB], b % BPB, v, x % BPB);
    assert x == x / BPB * BPB + x % BPB && b == b / BPB * BPB + b % BPB;
  }

  // Changing the bitmap and lent blocks leaves all slots and owned blocks alone.
  lemma SlotsKept(blk: Store, blk': Store, sb: Super, nodes: seq<Node>, own: map<nat, Ref>, lent: set<nat>)
    requires Owned(blk, sb, nodes, own, lent) && |blk'| == |blk|
    requires forall b: nat :: b in own ==> b < |blk| && blk'[b] == blk[b]
    ensures forall i: nat, s: nat :: i < |nodes| && s < SLOTS ==> SlotOk(blk', nodes, own, i, s)
    ensures forall b: nat :: b in own ==> OwnerOk(blk', sb, nodes, own, b)
    ensures forall j: nat :: j < |nodes| ==> SameFile(blk, blk', nodes[j])
  {
    forall j: nat | j < |nodes| ensures SameFile(blk, blk', nodes[j]) {
      FileFrame(blk, blk', sb, nodes, own, lent, j);
    }
    forall i: nat, s: nat | i < |nodes| && s < SLOTS ensures SlotOk(blk', nodes, own, i, s) {
      assert SlotOk(blk, nodes, own, i, s) && SameSlot(blk, blk', nodes[i], s);
    }
    forall b: nat | b in own ensures OwnerOk(blk', sb, nodes, own, b) {
      assert OwnerOk(blk, sb, nodes, own, b);
      assert SameSlot(blk, blk', nodes[own[b].inum], own[b].slot);
    }
  }

  // balloc(): a free block is marked and zeroed; it is lent to the caller.
  lemma AllocOwned(blk: Store, sb: Super, nodes: seq<Node>, own: map<nat, Ref>, lent: set<nat>, b: nat)
    requires Owned(blk, sb, nodes, own, lent) && b < sb.size && !Used(blk, sb, b)
    ensures sb.datastart <= b && b !in own && b !in lent
    ensures Owned(Marked(blk, sb, b, true)[b := Zero()], sb, nodes, own, lent + {b})
    ensures forall x: nat :: x in own ==> x < |blk| && Marked(blk, sb, b, true)[b := Zero()][x] == blk[x]
    ensures forall j: nat :: j < |nodes| ==> SameFile(blk, Marked(blk, sb, b, true)[b := Zero()], nodes[j])
  {
    BitmapBlock(sb, b);
    assert BitOk(blk, sb, own, lent, b);
    var blk1 := Marked(blk, sb, b, true);
    var blk' := blk1[b := Zero()];
    forall x: nat | x in own ensures x < |blk| && blk'[x] == blk[x] {
      assert OwnerOk(blk, sb, nodes, own, x);
    }
    SlotsKept(blk, blk', sb, nodes, own, lent);
    forall x: nat | x < sb.size ensures BitOk(blk', sb, own, lent + {b}, x) {
      BitmapBlock(sb, x);
      assert BitOk(blk, sb, own, lent, x);
      MarkedUsed(blk, sb, b, true, x);
    }
  }

  // bfree() of a lent block: its bit is set, and is cleared.
  lemma FreeOwned(blk: Store, sb: Super, nodes: seq<Node>, own: map<nat, Ref>, lent: set<nat>, b: nat)
    requires Owned(blk, sb, nodes, own, lent) && b in lent
    ensures sb.bmapstart + b / BPB < |blk| && Used(blk, sb, b)
    ensures Owned(Marked(blk, sb, b, false), sb, nodes, own, lent - {b})
    ensures forall j: nat :: j < |nodes| ==> SameFile(blk, Marked(blk, sb, b, false), nodes[j])
    ensures forall x: nat :: sb.datastart <= x < |blk| ==> Marked(blk, sb, b, false)[x] == blk[x]
  {
    BitmapBlock(sb, b);
    assert BitOk(blk, sb, own, lent, b);
    var blk' := Marked(blk, sb, b, false);
    forall x: nat | x in own ensures x < |blk| && blk'[x] == blk[x] {
      assert OwnerOk(blk, sb, nodes, own, x);
    }
    SlotsKept(blk, blk', sb, nodes, own, lent);
    forall x: nat | x < sb.size ensures BitOk(blk', sb, own, lent - {b}, x) {
      BitmapBlock(sb, x);
      assert BitOk(blk, sb, own, lent, x);
      MarkedUsed(blk, sb, b, false, x);
    }
  }

  // ----- putting a lent block into a slot -----

  function WithAddr(nd: Node, s: nat, b: nat): (r: Node)
    requires s <= NDIRECT
  {
    Dinode(nd.size, nd.addrs[s := b])
  }

  // What inode nd had is still there; slots in `extra` may be new.
  ghost predicate Grew(blk: Store, nd: Node, blk': Store, nd': Node, extra: set<nat>) {
    && nd'.size == nd.size && |blk'| == |blk|
    && forall t: nat :: t < SLOTS ==> GrewAt(blk, nd, blk', nd', extra, t)
  }

  ghost predicate GrewAt(blk: Store, nd: Node, blk': Store, nd': Node, extra: set<nat>, t: nat)
    requires |blk'| == |blk|
  {
    var b, b' := Slot(blk, nd, t), Slot(blk', nd', t);
    && (b != 0 ==> b' == b && (t != NDIRECT && b < |blk| ==> blk'[b] == blk[b]))
    && (b == 0 && t !in extra ==> b' == 0)
  }

  lemma GrewTwice(blk: Store, nd: Node, blk1: Store, nd1: Node, blk2: Store, nd2: Node, x: set<nat>, y: set<nat>)
    requires Grew(blk, nd, blk1, nd1, x) && Grew(blk1, nd1, blk2, nd2, y)
    ensures Grew(blk, nd, blk2, nd2, x + y)
  {
    forall t: nat | t < SLOTS ensures GrewAt(blk, nd, blk2, nd2, x + y, t) {
      assert GrewAt(blk, nd, blk1, nd1, x, t) && GrewAt(blk1, nd1, blk2, nd2, y, t);
    }
  }

  lemma GrewMore(blk: Store, nd: Node, blk': Store, nd': Node, x: set<nat>, y: set<nat>)
    requires Grew(blk, nd, blk', nd', x) && x <= y
    ensures Grew(blk, nd, blk', nd', y)
  {
    forall t: nat | t < SLOTS ensures GrewAt(blk, nd, blk', nd', y, t) {
      assert GrewAt(blk, nd, blk', nd', x, t);
    }
  }

  // All files but that of inode i are the same.
  ghost predicate OthersSame(blk: Store, blk': Store, nodes: seq<Node>, i: nat) {
    forall j: nat :: j < |nodes| && j != i ==> SameFile(blk, blk', nodes[j])
  }

  lemma OthersSelf(blk: Store, nodes: seq<Node>, i: nat)
    ensures OthersSame(blk, blk, nodes, i)
  {
  }

  lemma OthersTwice(blk: Store, blk1: Store, blk2: Store, nodes: seq<Node>, nodes1: seq<Node>, i: nat)
    requires OthersSame(blk, blk1, nodes, i) && OthersSame(blk1, blk2, nodes1, i)
    requires |nodes| == |nodes1| && forall j: nat :: j < |nodes| && j != i ==> nodes[j] == nodes1[j]
    ensures OthersSame(blk, blk2, nodes, i)
  {
    forall j: nat | j < |nodes| && j != i ensures SameFile(blk, blk2, nodes[j]) {
      SameTwice(blk, blk1, blk2, nodes[j]);
    }
  }

  lemma SameGrew(blk: Store, blk': Store, nd: Node)
    requires SameFile(blk, blk', nd)
    ensures Grew(blk, nd, blk', nd, {})
  {
    forall t: nat | t < SLOTS ensures GrewAt(blk, nd, blk', nd, {}, t) {
      assert SameSlot(blk, blk', nd, t);
    }
  }

  lemma SameTwice(blk: Store, blk1: Store, blk2: Store, nd: Node)
    requires SameFile(blk, blk1, nd) && SameFile(blk1, blk2, nd)
    ensures SameFile(blk, blk2, nd)
  {
    forall t: nat | t < SLOTS ensures SameSlot(blk, blk2, nd, t) {
      assert SameSlot(blk, blk1, nd, t) && SameSlot(blk1, blk2, nd, t);
    }
  }

  // A lent block goes into an empty address of the inode.  As the indirect
  // block it has to be zero, so that it has no entries.
  lemma RecordAddr(blk: Store, sb: Super, nodes: seq<Node>, own: map<nat, Ref>, lent: set<nat>, i: nat, s: nat, b: nat)
    requires Owned(blk, sb, nodes, own, lent) && i < |nodes| && s <= NDIRECT && b in lent
    requires nodes[i].addrs[s] == 0 && b < |blk|
    requires s == NDIRECT ==> blk[b] == Zero()
    ensures Owned(blk, sb, nodes[i := WithAddr(nodes[i], s, b)], own[b := Ref(i, s)], lent - {b})
    ensures b != 0 && Grew(blk, nodes[i], blk, WithAddr(nodes[i], s, b), {s})
  {
    var nd, nd' := nodes[i], WithAddr(nodes[i], s, b);
    var nodes', own' := nodes[i := nd'], own[b := Ref(i, s)];
    forall t: nat | t < SLOTS
      ensures Slot(blk, nd', t) == if t == s then b else Slot(blk, nd, t)
      ensures GrewAt(blk, nd, blk, nd', {s}, t)
    {
      if s == NDIRECT && t > NDIRECT { ZeroEntries(t - NDIRECT - 1); }
    }
    forall j: nat, t: nat | j < |nodes| && t < SLOTS ensures SlotOk(blk, nodes', own', j, t) {
      assert SlotOk(blk, nodes, own, j, t);
    }
    forall x: nat | x in own' ensures OwnerOk(blk, sb, nodes', own', x) {
      if x != b {
        assert OwnerOk(blk, sb, nodes, own, x);
      }
    }
    forall x: nat | x < sb.size ensures BitOk(blk, sb, own', lent - {b}, x) {
      BitmapBlock(sb, x);
      assert BitOk(blk, sb, own, lent, x);
    }
  }

  // A lent block goes into an empty entry of the indirect block.
  lemma RecordEntry(blk: Store, sb: Super, nodes: seq<Node>, own: map<nat, Ref>, lent: set<nat>, i: nat, e: nat, b: nat)
    returns (blk': Store)
    requires Owned(blk, sb, nodes, own, lent) && i < |nodes| && e < NINDIRECT && b in lent
    requires 0 < nodes[i].addrs[NDIRECT] < |blk|
    requires Slot(blk, nodes[i], NDIRECT + 1 + e) == 0
    ensures var c := nodes[i].addrs[NDIRECT]; b < WORD && blk' == blk[c := WithEntry(blk[c], e, b)]
    ensures Owned(blk', sb, nodes, own[b := Ref(i, NDIRECT + 1 + e)], lent - {b})
    ensures b != 0 && Grew(blk, nodes[i], blk', nodes[i], {NDIRECT + 1 + e})
    ensures Slot(blk', nodes[i], NDIRECT + 1 + e) == b && (b < |blk| ==> blk'[b] == blk[b])
    ensures OthersSame(blk, blk', nodes, i)
  {
    var nd, c, s := nodes[i], nodes[i].addrs[NDIRECT], NDIRECT + 1 + e;
    blk' := blk[c := WithEntry(blk[c], e, b)];
    assert SlotOk(blk, nodes, own, i, NDIRECT);
    assert OwnerOk(blk, sb, nodes, own, c);
    forall t: nat | t < SLOTS
      ensures Slot(blk', nd, t) == if t == s then b else Slot(blk, nd, t)
      ensures GrewAt(blk, nd, blk', nd, {s}, t)
    {
      EntrySlot(blk, sb, nodes, own, lent, i, e, b, blk', t);
    }
    OthersKept(blk, blk', sb, nodes, own, lent, i, c);
    EntryOwned(blk, blk', sb, nodes, own, lent, i, s, b, c);
  }

  // Slot s of inode i names b, and nothing else has changed.
  lemma EntryOwned(blk: Store, blk': Store, sb: Super, nodes: seq<Node>, own: map<nat, Ref>, lent: set<nat>, i: nat, s: nat, b: nat, c: nat)
    requires Owned(blk, sb, nodes, own, lent) && i < |nodes| && s < SLOTS && b in lent && sb.datastart <= c < |blk|
    requires |blk'| == |blk| && (forall x: nat :: x < |blk| && x != c ==> blk'[x] == blk[x]) && OthersSame(blk, blk', nodes, i)
    requires Slot(blk, nodes[i], s) == 0
    requires forall t: nat :: t < SLOTS ==> Slot(blk', nodes[i], t) == if t == s then b else Slot(blk, nodes[i], t)
    ensures Owned(blk', sb, nodes, own[b := Ref(i, s)], lent - {b})
  {
    var own' := own[b := Ref(i, s)];
    forall j: nat, t: nat | j < |nodes| && t < SLOTS ensures SlotOk(blk', nodes, own', j, t) {
      assert SlotOk(blk, nodes, own, j, t);
      assert j != i ==> SameSlot(blk, blk', nodes[j], t);
    }
    forall x: nat | x in own' ensures OwnerOk(blk', sb, nodes, own', x) {
      if x != b {
        assert OwnerOk(blk, sb, nodes, own, x);
        assert own[x].inum != i ==> SameSlot(blk, blk', nodes[own[x].inum], own[x].slot);
      }
    }
    forall x: nat | x < sb.size ensures BitOk(blk', sb, own', lent - {b}, x) {
      BitmapBlock(sb, x);
      assert BitOk(blk, sb, own, lent, x);
    }
  }

  lemma EntrySlot(blk: Store, sb: Super, nodes: seq<Node>, own: map<nat, Ref>, lent: set<nat>, i: nat, e: nat, b: nat, blk': Store, t: nat)
    requires Owned(blk, sb, nodes, own, lent) && i < |nodes| && e < NINDIRECT && b < WORD && t < SLOTS
    requires 0 < nodes[i].addrs[NDIRECT] < |blk|
    requires Slot(blk, nodes[i], NDIRECT + 1 + e) == 0
    requires var c := nodes[i].addrs[NDIRECT]; blk' == blk[c := WithEntry(blk[c], e, b)]
    ensures var nd, s := nodes[i], NDIRECT + 1 + e;
      && Slot(blk', nd, t) == (if t == s then b else Slot(blk, nd, t))
      && GrewAt(blk, nd, blk', nd, {s}, t)
  {
    assert SlotOk(blk, nodes, own, i, t) && SlotOk(blk, nodes, own, i, NDIRECT);
    if t > NDIRECT {
      WithEntryEntries(blk[nodes[i].addrs[NDIRECT]], e, b, t - NDIRECT - 1);
    }
  }

  // Only block c of inode i differs: the other files are the same.
  lemma OthersKept(blk: Store, blk': Store, sb: Super, nodes: seq<Node>, own: map<nat, Ref>, lent: set<nat>, i: nat, c: nat)
    requires Owned(blk, sb, nodes, own, lent) && |blk'| == |blk| && c in own && own[c].inum == i
    requires forall x: nat :: x < |blk| && x != c ==> blk'[x] == blk[x]
    ensures OthersSame(blk, blk', nodes, i)
  {
    forall j: nat | j < |nodes| && j != i ensures SameFile(blk, blk', nodes[j]) {
      forall x: nat | x in own && own[x].inum == j ensures x < |blk| && blk'[x] == blk[x] {
        assert OwnerOk(blk, sb, nodes, own, x);
      }
      FileFrame(blk, blk', sb, nodes, own, lent, j);
    }
  }

  // ----- taking blocks out of their slots -----

  // A direct block leaves its slot and becomes lent.
  lemma DetachAddr(blk: Store, sb: Super, nodes: seq<Node>, own: map<nat, Ref>, lent: set<nat>, i: nat, s: nat)
    requires Owned(blk, sb, nodes, own, lent) && i < |nodes| && s < NDIRECT && nodes[i].addrs[s] != 0
    ensures var b := nodes[i].addrs[s];
      && b in own && own[b] == Ref(i, s)
      && Owned(blk, sb, nodes[i := WithAddr(nodes[i], s, 0)], own - {b}, lent + {b})
  {
    var b := nodes[i].addrs[s];
    var nodes', own' := nodes[i := WithAddr(nodes[i], s, 0)], own - {b};
    assert SlotOk(blk, nodes, own, i, s) && OwnerOk(blk, sb, nodes, own, b);
    forall j: nat, t: nat | j < |nodes| && t < SLOTS ensures SlotOk(blk, nodes', own', j, t) {
      assert SlotOk(blk, nodes, own, j, t);
    }
    forall x: nat | x in own' ensures OwnerOk(blk, sb, nodes', own', x) {
      assert OwnerOk(blk, sb, nodes, own, x);
    }
    forall x: nat | x < sb.size ensures BitOk(blk, sb, own', lent + {b}, x) {
      BitmapBlock(sb, x);
      assert BitOk(blk, sb, own, lent, x);
    }
  }

  // The blocks of inode i in the indirect block's slot and in its entries from j.
  ghost function Tail(own: map<nat, Ref>, i: nat, j: nat): (r: set<nat>) {
    set b | b in own && own[b].inum == i && (own[b].slot == NDIRECT || own[b].slot > NDIRECT + j)
  }

  // The indirect block leaves its slot; it and all its entries become lent.
  lemma DetachIndirect(blk: Store, sb: Super, nodes: seq<Node>, own: map<nat, Ref>, i: nat)
    requires Owned(blk, sb, nodes, own, {}) && i < |nodes|
    ensures Owned(blk, sb, nodes[i := WithAddr(nodes[i], NDIRECT, 0)], own - Tail(own, i, 0), Tail(own, i, 0))
  {
    var lent := Tail(own, i, 0);
    var nodes', own' := nodes[i := WithAddr(nodes[i], NDIRECT, 0)], own - lent;
    forall j: nat, t: nat | j < |nodes| && t < SLOTS ensures SlotOk(blk, nodes', own', j, t) {
      assert SlotOk(blk, nodes, own, j, t);
    }
    forall x: nat | x in own ensures sb.datastart <= x < sb.size && (x in own' ==> OwnerOk(blk, sb, nodes', own', x)) {
      assert OwnerOk(blk, sb, nodes, own, x);
    }
    forall x: nat | x < sb.size ensures BitOk(blk, sb, own', lent, x) {
      BitmapBlock(sb, x);
      assert BitOk(blk, sb, own, {}, x);
    }
  }

  // Entry j, if there is one, is the only block that leaves the tail.
  lemma TailStep(blk: Store, sb: Super, nodes: seq<Node>, own: map<nat, Ref>, i: nat, j: nat)
    requires Owned(blk, sb, nodes, own, {}) && i < |nodes| && j < NINDIRECT
    ensures var e := Slot(blk, nodes[i], NDIRECT + 1 + j);
      && (e != 0 ==> e in Tail(own, i, j) && Tail(own, i, j) - {e} == Tail(own, i, j + 1))
      && (e == 0 ==> Tail(own, i, j) == Tail(own, i, j + 1))
  {
    var e := Slot(blk, nodes[i], NDIRECT + 1 + j);
    assert SlotOk(blk, nodes, own, i, NDIRECT + 1 + j);
    forall b: nat | b in own && own[b] == Ref(i, NDIRECT + 1 + j) ensures b == e && b != 0 {
      assert OwnerOk(blk, sb, nodes, own, b);
    }
    forall b | b in Tail(own, i, j) && b !in Tail(own, i, j + 1) ensures b == e && e != 0 {
      assert own[b] == Ref(i, NDIRECT + 1 + j);
    }
  }

  lemma TailEnds(blk: Store, sb: Super, nodes: seq<Node>, own: map<nat, Ref>, i: nat)
    requires Owned(blk, sb, nodes, own, {}) && i < |nodes|
    ensures var c := nodes[i].addrs[NDIRECT];
      Tail(own, i, NINDIRECT) == if c == 0 then {} else {c}
  {
    var c := nodes[i].addrs[NDIRECT];
    assert SlotOk(blk, nodes, own, i, NDIRECT);
    forall b | b in Tail(own, i, NINDIRECT) ensures b == c && c != 0 {
      assert OwnerOk(blk, sb, nodes, own, b);
    }
  }

  // The owners without the first k direct blocks of inode i.
  ghost function Without(own: map<nat, Ref>, i: nat, k: nat): (r: map<nat, Ref>) {
    map b | b in own && !(own[b].inum == i && own[b].slot < k) :: own[b]
  }

  lemma WithoutStep(blk: Store, sb: Super, nodes: seq<Node>, own: map<nat, Ref>, own0: map<nat, Ref>, i: nat, k: nat)
    requires Owned(blk, sb, nodes, own, {}) && i < |nodes| && k < NDIRECT && own == Without(own0, i, k)
    ensures var b := nodes[i].addrs[k];
      Without(own0, i, k + 1) == if b == 0 then own else own - {b}
  {
    var b := nodes[i].addrs[k];
    assert SlotOk(blk, nodes, own, i, k);
    var x, y := Without(own0, i, k + 1), if b == 0 then own else own - {b};
    forall e | e in own && own[e] == Ref(i, k) ensures e == b && b != 0 {
      assert OwnerOk(blk, sb, nodes, own, e);
    }
    assert forall e :: e in x <==> e in y;
    assert forall e :: e in x ==> x[e] == y[e];
  }

  // The owners without inode i.
  ghost function NotOf(own: map<nat, Ref>, i: nat): (r: map<nat, Ref>) {
    map b | b in own && own[b].inum != i :: own[b]
  }

  lemma WithoutAll(blk: Store, sb: Super, nodes: seq<Node>, own: map<nat, Ref>, own0: map<nat, Ref>, i: nat)
    requires Owned(blk, sb, nodes, own, {}) && i < |nodes| && own == Without(own0, i, NDIRECT)
    ensures own - Tail(own, i, 0) == NotOf(own0, i)
    ensures nodes[i].addrs[NDIRECT] == 0 ==> Tail(own, i, 0) == {}
  {
    forall b | b in own && own[b].inum == i ensures b in Tail(own, i, 0) {
      assert OwnerOk(blk, sb, nodes, own, b);
    }
    if nodes[i].addrs[NDIRECT] == 0 {
      forall b | b in own ensures own[b].inum != i {
        assert OwnerOk(blk, sb, nodes, own, b);
      }
    }
  }

  // ----- files as sequences of bytes -----

  ghost function FileByte(blk: Store, nd: Node, k: nat): byte {
    var b := Slot(blk, nd, DataSlot(k / BSIZE));
    if 0 < b < |blk| then blk[b][k % BSIZE] else 0
  }

  ghost function Contents(blk: Store, nd: Node): (c: seq<byte>)
    ensures |c| == nd.size
  {
    seq(nd.size, k requires 0 <= k < nd.size => FileByte(blk, nd, k))
  }

  // Byte k of a file is a byte of the block that address k / BSIZE of the inode
  // names, or from NDIRECT blocks on, of the one that the word with this number
  // of the indirect block names.
  lemma ContentsByte(blk: Store, nd: Node, k: nat)
    requires k < nd.size && k < MAXFILE * BSIZE
    ensures var n, c: nat := k / BSIZE, nd.addrs[NDIRECT];
            var a: nat := if n < NDIRECT then nd.addrs[n]
                          else if 0 < c < |blk| then WordAt(blk[c], 4 * (n - NDIRECT))
                          else 0;
            Contents(blk, nd)[k] == if 0 < a < |blk| then blk[a][k % BSIZE] else 0
  {
  }

  // What it means for the addresses of an inode that exactly its blocks are mapped.
  lemma MappedAddrs(blk: Store, nd: Node, extent: nat)
    requires Mapped(blk, nd, extent)
    ensures forall n: nat :: n < NDIRECT ==> (nd.addrs[n] != 0 <==> n * BSIZE < extent)
    ensures nd.addrs[NDIRECT] != 0 <==> NDIRECT * BSIZE < extent
    ensures 0 < nd.addrs[NDIRECT] < |blk| ==> forall e: nat :: e < NINDIRECT ==>
      (WordAt(blk[nd.addrs[NDIRECT]], 4 * e) != 0 <==> (NDIRECT + e) * BSIZE < extent)
  {
    forall n: nat | n < NDIRECT ensures nd.addrs[n] != 0 <==> n * BSIZE < extent {
      assert MappedAt(blk, nd, extent, n);
    }
    if 0 < nd.addrs[NDIRECT] < |blk| {
      forall e: nat | e < NINDIRECT
        ensures WordAt(blk[nd.addrs[NDIRECT]], 4 * e) != 0 <==> (NDIRECT + e) * BSIZE < extent
      {
        assert MappedAt(blk, nd, extent, NDIRECT + e);
      }
    }
  }

  ghost predicate MappedAt(blk: Store, nd: Node, extent: nat, bn: nat) {
    Slot(blk, nd, DataSlot(bn)) != 0 <==> bn * BSIZE < extent
  }

  // Exactly the blocks below `extent` bytes are mapped.
  ghost predicate Mapped(blk: Store, nd: Node, extent: nat) {
    && extent <= MAXFILE * BSIZE
    && (forall bn: nat :: bn < MAXFILE ==> MappedAt(blk, nd, extent, bn))
    && (nd.addrs[NDIRECT] != 0 <==> extent > NDIRECT * BSIZE)
  }

  lemma SameContents(blk: Store, blk': Store, nd: Node)
    requires SameFile(blk, blk', nd)
    ensures nd.size <= MAXFILE * BSIZE ==> Contents(blk', nd) == Contents(blk, nd)
    ensures Mapped(blk, nd, nd.size) ==> Mapped(blk', nd, nd.size)
  {
    if nd.size <= MAXFILE * BSIZE {
      forall k: nat | k < nd.size ensures FileByte(blk', nd, k) == FileByte(blk, nd, k) {
        assert SameSlot(blk, blk', nd, DataSlot(k / BSIZE));
      }
    }
    if Mapped(blk, nd, nd.size) {
      forall bn: nat | bn < MAXFILE ensures MappedAt(blk', nd, nd.size, bn) {
        assert SameSlot(blk, blk', nd, DataSlot(bn)) && MappedAt(blk, nd, nd.size, bn);
      }
    }
  }

  function Max(a: nat, b: nat): nat { if a < b then b else a }

  // memmove(data + o, src, |src|)
  function Splice(b: Block, o: nat, src: seq<byte>): (r: Block)
    requires o + |src| <= BSIZE
  {
    b[..o] + src + b[o + |src|..]
  }

  // The contents c after src has been written at off.
  ghost function Overwrite(c: seq<byte>, off: nat, src: seq<byte>): (r: seq<byte>)
    requires off <= |c|
    ensures |r| == Max(|c|, off + |src|)
  {
    c[..off] + src + (if off + |src| < |c| then c[off + |src|..] else [])
  }

  // The test for a sum that does not fit 32 bits; no file is as large as that.
  lemma SumWraps(off: nat, n: nat)
    requires off < WORD && n < WORD
    ensures (off + n) % WORD < off <==> off + n >= WORD
    ensures off + n >= WORD ==> off + n > MAXFILE * BSIZE
  {
  }

  lemma OverwriteByte(c: seq<byte>, off: nat, src: seq<byte>, k: nat)
    requires off <= |c| && (k < |c| || k < off + |src|)
    ensures |Overwrite(c, off, src)| == if off + |src| > |c| then off + |src| else |c|
    ensures Overwrite(c, off, src)[k] == if off <= k < off + |src| then src[k - off] else c[k]
  {
  }

  // The byte k of a file when the first `tot` bytes of src are written.
  ghost function Expect(c: seq<byte>, off: nat, src: seq<byte>, tot: nat, k: nat): byte
    requires off <= |c| && tot <= |src| && k < Max(|c|, off + tot)
  {
    if off <= k < off + tot then src[k - off] else c[k]
  }

  ghost predicate ByteOk(blk: Store, nd: Node, c: seq<byte>, off: nat, src: seq<byte>, tot: nat, k: nat)
    requires off <= |c| && tot <= |src| && k < Max(|c|, off + tot)
  {
    FileByte(blk, nd, k) == Expect(c, off, src, tot, k)
  }

  // The state of a file in the loop of writei().
  ghost predicate Written(blk: Store, nd: Node, c: seq<byte>, off: nat, src: seq<byte>, tot: nat)
  {
    && off <= |c| && tot <= |src| && nd.size == |c|
    && Mapped(blk, nd, Max(|c|, off + tot))
    && forall k: nat :: k < Max(|c|, off + tot) ==> ByteOk(blk, nd, c, off, src, tot, k)
  }

  lemma WrittenStart(blk: Store, nd: Node, off: nat, src: seq<byte>)
    requires Mapped(blk, nd, nd.size) && off <= nd.size
    ensures Written(blk, nd, Contents(blk, nd), off, src, 0)
  {
  }

  lemma WrittenEnd(blk: Store, nd: Node, c: seq<byte>, off: nat, src: seq<byte>)
    requires Written(blk, nd, c, off, src, |src|)
    ensures var nd' := Dinode(Max(|c|, off + |src|), nd.addrs);
      Contents(blk, nd') == Overwrite(c, off, src) && Mapped(blk, nd', nd'.size)
  {
    var nd' := Dinode(Max(|c|, off + |src|), nd.addrs);
    assert forall s: nat :: Slot(blk, nd', s) == Slot(blk, nd, s);
    forall k: nat | k < nd'.size ensures FileByte(blk, nd', k) == Overwrite(c, off, src)[k] {
      assert ByteOk(blk, nd, c, off, src, |src|, k);
    }
    forall bn: nat | bn < MAXFILE ensures MappedAt(blk, nd', nd'.size, bn) {
      assert MappedAt(blk, nd, nd'.size, bn);
    }
  }

  // One turn of writei()'s loop: bmap() gives block a, and m bytes go into it.
  lemma WriteStep(blk: Store, nd: Node, blk1: Store, nd1: Node, sb: Super, nodes: seq<Node>, own: map<nat, Ref>, i: nat,
      c: seq<byte>, off: nat, src: seq<byte>, tot: nat, m: nat)
    returns (blk2: Store)
    requires Written(blk, nd, c, off, src, tot)
    requires Owned(blk1, sb, nodes, own, {}) && i < |nodes| && nodes[i] == nd1
    requires tot < |src| && off + |src| <= MAXFILE * BSIZE
    requires 0 < m <= |src| - tot && m <= BSIZE - (off + tot) % BSIZE
    requires var bn := (off + tot) / BSIZE;
      && Grew(blk, nd, blk1, nd1, {DataSlot(bn), NDIRECT})
      && 0 < Slot(blk1, nd1, DataSlot(bn)) < |blk1|
      && (bn < NDIRECT ==> nd1.addrs[NDIRECT] == nd.addrs[NDIRECT])
      && (bn >= NDIRECT ==> nd1.addrs[NDIRECT] != 0)
    ensures var o, a := (off + tot) % BSIZE, Slot(blk1, nd1, DataSlot((off + tot) / BSIZE));
      blk2 == blk1[a := Splice(blk1[a], o, src[tot..tot + m])]
    ensures Owned(blk2, sb, nodes, own, {}) && OthersSame(blk1, blk2, nodes, i)
    ensures Written(blk2, nd1, c, off, src, tot + m)
    ensures forall s: nat :: s < SLOTS ==> Slot(blk2, nd1, s) == Slot(blk1, nd1, s)
  {
    var cur, bn := off + tot, (off + tot) / BSIZE;
    var o, a := cur % BSIZE, Slot(blk1, nd1, DataSlot(bn));
    blk2 := blk1[a := Splice(blk1[a], o, src[tot..tot + m])];
    assert SlotOk(blk1, nodes, own, i, DataSlot(bn));
    WriteOwned(blk1, sb, nodes, own, {}, a, Splice(blk1[a], o, src[tot..tot + m]));
    StepMapped(blk, nd, blk1, nd1, blk2, c, off, tot, m);
    var tot' := tot + m;
    forall k: nat | k < Max(|c|, off + tot') ensures ByteOk(blk2, nd1, c, off, src, tot', k) {
      StepByte(blk, nd, blk1, nd1, blk2, sb, nodes, own, i, c, off, src, tot, m, k);
    }
  }

  lemma StepMapped(blk: Store, nd: Node, blk1: Store, nd1: Node, blk2: Store, c: seq<byte>, off: nat, tot: nat, m: nat)
    requires Mapped(blk, nd, Max(|c|, off + tot)) && 0 < m <= BSIZE - (off + tot) % BSIZE
    requires off <= |c| && off + tot + m <= MAXFILE * BSIZE
    requires var bn := (off + tot) / BSIZE;
      && Grew(blk, nd, blk1, nd1, {DataSlot(bn), NDIRECT})
      && 0 < Slot(blk1, nd1, DataSlot(bn)) < |blk1|
      && (bn < NDIRECT ==> nd1.addrs[NDIRECT] == nd.addrs[NDIRECT])
      && (bn >= NDIRECT ==> nd1.addrs[NDIRECT] != 0)
    requires forall s: nat :: s < SLOTS ==> Slot(blk2, nd1, s) == Slot(blk1, nd1, s)
    ensures Mapped(blk2, nd1, Max(|c|, off + tot + m))
  {
    var bn, extent := (off + tot) / BSIZE, Max(|c|, off + tot + m);
    forall x: nat | x < MAXFILE ensures MappedAt(blk2, nd1, extent, x) {
      assert MappedAt(blk, nd, Max(|c|, off + tot), x);
      assert GrewAt(blk, nd, blk1, nd1, {DataSlot(bn), NDIRECT}, DataSlot(x));
    }
  }

  lemma StepByte(blk: Store, nd: Node, blk1: Store, nd1: Node, blk2: Store, sb: Super, nodes: seq<Node>, own: map<nat, Ref>, i: nat,
      c: seq<byte>, off: nat, src: seq<byte>, tot: nat, m: nat, k: nat)
    requires Written(blk, nd, c, off, src, tot)
    requires Owned(blk1, sb, nodes, own, {}) && i < |nodes| && nodes[i] == nd1
    requires tot < |src| && off + |src| <= MAXFILE * BSIZE
    requires 0 < m <= |src| - tot && m <= BSIZE - (off + tot) % BSIZE
    requires var bn := (off + tot) / BSIZE;
      && Grew(blk, nd, blk1, nd1, {DataSlot(bn), NDIRECT})
      && 0 < Slot(blk1, nd1, DataSlot(bn)) < |blk1|
    requires forall s: nat :: s < SLOTS ==> Slot(blk2, nd1, s) == Slot(blk1, nd1, s)
    requires var o, a := (off + tot) % BSIZE, Slot(blk1, nd1, DataSlot((off + tot) / BSIZE));
      blk2 == blk1[a := Splice(blk1[a], o, src[tot..tot + m])]
    requires k < Max(|c|, off + tot + m)
    ensures ByteOk(blk2, nd1, c, off, src, tot + m, k)
  {
    var cur, bn := off + tot, (off + tot) / BSIZE;
    var a, x := Slot(blk1, nd1, DataSlot(bn)), k / BSIZE;
    if k < Max(|c|, cur) {
      assert ByteOk(blk, nd, c, off, src, tot, k);
      assert MappedAt(blk, nd, Max(|c|, cur), x);
      assert GrewAt(blk, nd, blk1, nd1, {DataSlot(bn), NDIRECT}, DataSlot(x));
      assert SlotOk(blk1, nodes, own, i, DataSlot(x));
    }
    if x != bn {
      SlotsDistinct(blk1, sb, nodes, own, {}, i, DataSlot(bn), i, DataSlot(x));
    }
  }

  // ----- the inodes on disk, and what is logged -----

  // The inode table holds the inodes.
  ghost predicate Stored(blk: Store, sb: Super, nodes: seq<Node>) {
    sb.bmapstart <= |blk| && forall j: nat :: j < |nodes| ==> StoredAt(blk, sb, nodes[j], j)
  }

  ghost predicate StoredAt(blk: Store, sb: Super, nd: Node, j: nat)
    requires sb.bmapstart <= |blk|
  {
    var m := sb.inodestart + BlockOf(j);
    m < sb.bmapstart && Unpack(blk[m], SlotOf(j)) == nd
  }

  lemma Rounded(n: nat, d: nat, c: nat)
    requires d > 0 && c > 0
    ensures n / d * (c * d) <= c * n < (n / d + 1) * (c * d)
  {
    var q, r := n / d, n % d;
    assert n == q * d + r;
    calc {
      c * n;
      c * (q * d) + c * r;
      q * (c * d) + c * r;
    }
    assert c * r < c * d;
    assert (q + 1) * (c * d) == q * (c * d) + c * d;
  }

  // A block of the table holds as many inodes as fit.
  lemma InodesFit()
    ensures IPB * (4 * (NDIRECT + 4)) <= BSIZE < (IPB + 1) * (4 * (NDIRECT + 4))
  {
    Rounded(BSIZE / 4, DWORDS, 4);
  }

  // Where inode j is on disk, with the size at byte 8 and the addresses from byte
  // 12 on.
  lemma StoredBytes(blk: Store, sb: Super, nodes: seq<Node>, j: nat, k: nat, m: nat, o: nat)
    requires Stored(blk, sb, nodes) && j < |nodes| && k <= NDIRECT
    requires 0 < IPB && m == sb.inodestart + j / IPB && o == j % IPB * (4 * (NDIRECT + 4))
    ensures m < |blk| && o + 4 * (NDIRECT + 4) <= BSIZE
    ensures WordAt(blk[m], o + 8) == nodes[j].size
    ensures WordAt(blk[m], o + 12 + 4 * k) == nodes[j].addrs[k]
  {
    assert StoredAt(blk, sb, nodes[j], j);
    assert o == 4 * At(SlotOf(j));
    assert Words(blk[m], At(SlotOf(j)) + 3)[k] == Entry(blk[m], At(SlotOf(j)) + 3 + k);
  }

  // Only blocks from lo on have changed or been logged, and all that have changed
  // have been logged.
  ghost predicate Logs(blk: Store, logged: set<nat>, blk': Store, logged': set<nat>, lo: nat) {
    && |blk'| == |blk| && logged <= logged'
    && (forall b: nat :: ChangeOk(blk, blk', logged', lo, b))
    && (forall b: nat :: LoggedOk(logged, logged', lo, |blk|, b))
  }

  ghost predicate ChangeOk(blk: Store, blk': Store, logged': set<nat>, lo: nat, b: nat)
    requires |blk'| == |blk|
  {
    b < |blk| && blk'[b] != blk[b] ==> b in logged' && lo <= b
  }

  ghost predicate LoggedOk(logged: set<nat>, logged': set<nat>, lo: nat, n: nat, b: nat) {
    b in logged' ==> b in logged || lo <= b < n
  }

  lemma LogsSelf(blk: Store, logged: set<nat>, lo: nat)
    ensures Logs(blk, logged, blk, logged, lo)
  {
  }

  lemma LogsTwice(blk: Store, logged: set<nat>, blk1: Store, logged1: set<nat>, blk2: Store, logged2: set<nat>, lo: nat)
    requires Logs(blk, logged, blk1, logged1, lo) && Logs(blk1, logged1, blk2, logged2, lo)
    ensures Logs(blk, logged, blk2, logged2, lo)
  {
    forall b: nat ensures ChangeOk(blk, blk2, logged2, lo, b) && LoggedOk(logged, logged2, lo, |blk|, b) {
      assert ChangeOk(blk, blk1, logged1, lo, b) && ChangeOk(blk1, blk2, logged2, lo, b);
      assert LoggedOk(logged, logged1, lo, |blk|, b) && LoggedOk(logged1, logged2, lo, |blk|, b);
    }
  }

  lemma LogsMore(blk: Store, logged: set<nat>, blk': Store, logged': set<nat>, lo: nat, lo': nat)
    requires Logs(blk, logged, blk', logged', lo) && lo' <= lo
    ensures Logs(blk, logged, blk', logged', lo')
  {
    forall b: nat ensures ChangeOk(blk, blk', logged', lo', b) && LoggedOk(logged, logged', lo', |blk|, b) {
      assert ChangeOk(blk, blk', logged', lo, b) && LoggedOk(logged, logged', lo, |blk|, b);
    }
  }

  // One more block is changed and logged.
  lemma LogsOne(blk: Store, logged: set<nat>, blk': Store, logged': set<nat>, lo: nat, b: nat, data: Block)
    requires Logs(blk, logged, blk', logged', lo) && lo <= b < |blk'|
    ensures Logs(blk, logged, blk'[b := data], logged' + {b}, lo)
  {
    var blk2, logged2 := blk'[b := data], logged' + {b};
    forall x: nat ensures ChangeOk(blk, blk2, logged2, lo, x) && LoggedOk(logged, logged2, lo, |blk|, x) {
      assert ChangeOk(blk, blk', logged', lo, x) && LoggedOk(logged, logged', lo, |blk|, x);
    }
    assert Logs(blk, logged, blk2, logged2, lo);
  }

  lemma StoredKept(blk: Store, logged: set<nat>, blk': Store, logged': set<nat>, sb: Super, nodes: seq<Node>)
    requires Stored(blk, sb, nodes) && Logs(blk, logged, blk', logged', sb.bmapstart)
    ensures Stored(blk', sb, nodes)
  {
    forall j: nat | j < |nodes| ensures StoredAt(blk', sb, nodes[j], j) {
      assert StoredAt(blk, sb, nodes[j], j) && ChangeOk(blk, blk', logged', sb.bmapstart, sb.inodestart + BlockOf(j));
    }
  }

  // The block of the inode table with inode i replaced.
  ghost function Updated(blk: Store, sb: Super, i: nat, nd: Node): (r: Block)
    requires sb.inodestart + BlockOf(i) < |blk| && Fits(nd)
  {
    Pack(blk[sb.inodestart + BlockOf(i)], SlotOf(i), nd)
  }

  lemma StoredUpdate(blk: Store, sb: Super, nodes: seq<Node>, i: nat, nd: Node)
    requires Stored(blk, sb, nodes) && i < |nodes| && Fits(nd)
    ensures sb.inodestart + BlockOf(i) < sb.bmapstart
    ensures Stored(blk[sb.inodestart + BlockOf(i) := Updated(blk, sb, i, nd)], sb, nodes[i := nd])
  {
    assert StoredAt(blk, sb, nodes[i], i);
    var m := sb.inodestart + BlockOf(i);
    var blk', nodes' := blk[m := Updated(blk, sb, i, nd)], nodes[i := nd];
    forall j: nat | j < |nodes| ensures StoredAt(blk', sb, nodes'[j], j) {
      assert StoredAt(blk, sb, nodes[j], j);
      if BlockOf(j) == BlockOf(i) {
        if j != i { SlotsDiffer(i, j); }
        PackUnpack(blk[m], SlotOf(i), nd, SlotOf(j));
      }
    }
  }

  // The fields of an inode fit their words on disk.
  lemma NodeFits(blk: Store, sb: Super, nodes: seq<Node>, own: map<nat, Ref>, i: nat, size: nat)
    requires Owned(blk, sb, nodes, own, {}) && i < |nodes| && size <= MAXFILE * BSIZE
    ensures Fits(Dinode(size, nodes[i].addrs))
  {
    forall k: nat | k <= NDIRECT ensures nodes[i].addrs[k] < WORD {
      assert SlotOk(blk, nodes, own, i, k);
      if nodes[i].addrs[k] != 0 {
        assert OwnerOk(blk, sb, nodes, own, nodes[i].addrs[k]);
      }
    }
  }

  // A slot names a data block.
  lemma SlotData(blk: Store, sb: Super, nodes: seq<Node>, own: map<nat, Ref>, i: nat, s: nat)
    requires Owned(blk, sb, nodes, own, {}) && i < |nodes| && s < SLOTS && Slot(blk, nodes[i], s) != 0
    ensures sb.datastart <= Slot(blk, nodes[i], s) < |blk|
  {
    assert SlotOk(blk, nodes, own, i, s) && OwnerOk(blk, sb, nodes, own, Slot(blk, nodes[i], s));
  }

  // A block of the inode table changes: no slot, no owner and no data do.
  lemma TableOwned(blk: Store, sb: Super, nodes: seq<Node>, own: map<nat, Ref>, m: nat, data: Block)
    requires Owned(blk, sb, nodes, own, {}) && m < sb.bmapstart
    ensures m < |blk| && Owned(blk[m := data], sb, nodes, own, {})
    ensures forall j: nat :: j < |nodes| ==> SameFile(blk, blk[m := data], nodes[j])
  {
    var blk' := blk[m := data];
    forall b: nat | b in own ensures b < |blk| && blk'[b] == blk[b] {
      assert OwnerOk(blk, sb, nodes, own, b);
    }
    SlotsKept(blk, blk', sb, nodes, own, {});
    forall b: nat | b < sb.size ensures BitOk(blk', sb, own, {}, b) {
      BitmapBlock(sb, b);
      assert BitOk(blk, sb, own, {}, b);
    }
  }

  // ----- the methods of fs.c -----

  // The bitmap block that holds the bit of b.
  function MapBlock(sb: Super, b: nat): nat {
    sb.bmapstart + b / BPB
  }

  ghost predicate IsMapBlock(sb: Super, m: nat) {
    exists b: nat :: b < sb.size && MapBlock(sb, b) == m
  }

  class FileSystem {
    const sb: Super
    var blk: Store               // block contents, as bread() returns them
    var ino: seq<Node>           // in-core inodes
    var logged: set<nat>         // blocks passed to log_write()

    ghost var own: map<nat, Ref>

    ghost predicate OwnedBy(lent: set<nat>)
      reads this`blk, this`ino, this`own
    {
      Owned(blk, sb, ino, own, lent)
    }

    // Every block is in use: balloc() panics.
    ghost predicate Full()
      reads this`blk
    {
      forall b: nat :: b < sb.size ==> InUse(blk, sb, b)
    }

    constructor (superblock: Super, image: Store, inodes: seq<Node>, ghost owners: map<nat, Ref>)
      requires Owned(image, superblock, inodes, owners, {})
      ensures sb == superblock && blk == image && ino == inodes && own == owners && logged == {}
      ensures OwnedBy({})
    {
      sb := superblock;
      blk, ino := image, inodes;
      own, logged := owners, {};
    }

    // balloc(): the first free block, marked and zeroed.  It panics (ok is
    // false) exactly when every block is in use.
    method Balloc(ghost lent: set<nat>) returns (ok: bool, r: nat)
      requires OwnedBy(lent)
      modifies this`blk, this`logged
      ensures ok ==> OwnedBy(lent + {r}) && r !in own && r !in lent && 0 < r < |blk| && blk[r] == Zero()
      ensures ok ==> r < sb.size && !InUse(old(blk), sb, r) && forall b: nat :: b < r ==> InUse(old(blk), sb, b)
      ensures ok ==> forall x: nat :: x in own ==> x < |blk| && blk[x] == old(blk)[x]
      ensures ok ==> forall j: nat :: j < |ino| ==> SameFile(old(blk), blk, ino[j])
      ensures ok ==> logged == old(logged) + {MapBlock(sb, r), r}
      ensures !ok ==> blk == old(blk) && logged == old(logged)
      ensures !ok ==> Full()
      ensures Logs(old(blk), old(logged), blk, logged, sb.bmapstart)
    {
      var b := 0;
      while b < sb.size
        invariant b % BPB == 0
        invariant forall x: nat :: x < b && x < sb.size ==> InUse(blk, sb, x)
        modifies {}
      {
        var bi := FindClear(b);
        if bi < BPB && b + bi < sb.size {
          r := b + bi;
          break;
        }
        b := b + BPB;
      }
      if b >= sb.size {
        return false, 0;
      }
      TakeBlock(r, lent);
      ok := true;
    }

    // The inner loop of balloc(): the first clear bit of a bitmap block.
    method FindClear(b: nat) returns (bi: nat)
      requires SuperOk(sb) && |blk| == sb.size && b < sb.size && b % BPB == 0
      requires forall x: nat :: x < b ==> InUse(blk, sb, x)
      ensures bi <= BPB && forall x: nat :: x < b + bi && x < sb.size ==> InUse(blk, sb, x)
      ensures bi < BPB && b + bi < sb.size ==> !InUse(blk, sb, b + bi)
    {
      bi := 0;
      BitmapBlock(sb, b);
      while bi < BPB && b + bi < sb.size && BitAt(blk[MapBlock(sb, b)], bi)
        invariant bi <= BPB
        invariant forall x: nat :: x < b + bi && x < sb.size ==> InUse(blk, sb, x)
      {
        assert (b + bi) / BPB == b / BPB && (b + bi) % BPB == bi;
        assert InUse(blk, sb, b + bi);
        bi := bi + 1;
      }
      if bi < BPB && b + bi < sb.size {
        assert (b + bi) / BPB == b / BPB && (b + bi) % BPB == bi;
      }
    }

    method TakeBlock(r: nat, ghost lent: set<nat>)
      requires OwnedBy(lent) && r < sb.size && !InUse(blk, sb, r)
      modifies this`blk, this`logged
      ensures OwnedBy(lent + {r}) && r !in own && r !in lent && 0 < r < |blk| && blk[r] == Zero()
      ensures forall x: nat :: x in own ==> x < |blk| && blk[x] == old(blk)[x]
      ensures forall j: nat :: j < |ino| ==> SameFile(old(blk), blk, ino[j])
      ensures logged == old(logged) + {MapBlock(sb, r), r}
      ensures Logs(old(blk), old(logged), blk, logged, sb.bmapstart)
    {
      BitmapBlock(sb, r);
      AllocOwned(blk, sb, ino, own, lent, r);
      var m := MapBlock(sb, r);
      LogsSelf(blk, logged, sb.bmapstart);
      LogsOne(blk, logged, blk, logged, sb.bmapstart, m, SetBitAt(blk[m], r % BPB, true));
      blk := blk[m := SetBitAt(blk[m], r % BPB, true)];
      logged := logged + {m};
      LogsOne(old(blk), old(logged), blk, logged, sb.bmapstart, r, Zero());
      blk := blk[r := Zero()];
      logged := logged + {r};
    }

    // bfree(): its panic "freeing free block" cannot happen.
    method Bfree(b: nat, ghost nodes: seq<Node>, ghost owners: map<nat, Ref>, ghost lent: set<nat>)
      requires Owned(blk, sb, nodes, owners, lent) && b in lent
      modifies this`blk, this`logged
      ensures Owned(blk, sb, nodes, owners, lent - {b})
      ensures forall j: nat :: j < |nodes| ==> SameFile(old(blk), blk, nodes[j])
      ensures |blk| == |old(blk)| && forall x: nat :: sb.datastart <= x < |blk| ==> blk[x] == old(blk)[x]
      ensures logged == old(logged) + {MapBlock(sb, b)}
      ensures Logs(old(blk), old(logged), blk, logged, sb.bmapstart)
    {
      FreeOwned(blk, sb, nodes, owners, lent, b);
      var m := MapBlock(sb, b);
      assert BitAt(blk[m], b % BPB);
      LogsSelf(blk, logged, sb.bmapstart);
      LogsOne(blk, logged, blk, logged, sb.bmapstart, m, SetBitAt(blk[m], b % BPB, false));
      blk := blk[m := SetBitAt(blk[m], b % BPB, false)];
      logged := logged + {m};
    }

    // bmap(): the address of a block of a file, allocated if there was none.
    // ok is false when balloc() panics.
    method Bmap(i: nat, bn: nat) returns (ok: bool, addr: nat)
      requires OwnedBy({}) && i < |ino| && bn < MAXFILE
      modifies this`blk, this`ino, this`own, this`logged
      ensures |ino| == |old(ino)| && forall j: nat :: j < |ino| && j != i ==> ino[j] == old(ino)[j]
      ensures ok ==> OwnedBy({}) && 0 < addr < |blk| && addr == Slot(blk, ino[i], DataSlot(bn))
      ensures ok ==> Grew(old(blk), old(ino)[i], blk, ino[i], {DataSlot(bn), NDIRECT})
      ensures ok && bn < NDIRECT ==> addr == ino[i].addrs[bn] && ino[i].addrs[NDIRECT] == old(ino)[i].addrs[NDIRECT]
      ensures ok && bn >= NDIRECT ==>
        0 < ino[i].addrs[NDIRECT] < |blk| && addr == Entry(blk[ino[i].addrs[NDIRECT]], bn - NDIRECT)
      ensures ok ==> OthersSame(old(blk), blk, ino, i)
      ensures ok && Slot(old(blk), old(ino)[i], DataSlot(bn)) == 0 ==> blk[addr] == Zero()
      ensures Slot(old(blk), old(ino)[i], DataSlot(bn)) != 0 ==>
        ok && blk == old(blk) && ino == old(ino) && own == old(own) && logged == old(logged)
      ensures ok ==> forall m: nat :: m in logged ==>
        m in old(logged) || IsMapBlock(sb, m) || m == addr || m == ino[i].addrs[NDIRECT] != 0
      ensures !ok ==> OwnedBy({}) && Full() && OthersSame(old(blk), blk, ino, i)
      ensures Logs(old(blk), old(logged), blk, logged, sb.bmapstart)
    {
      if bn < NDIRECT {
        assert SlotOk(blk, ino, own, i, bn);
        addr := ino[i].addrs[bn];
        if addr != 0 {
          assert OwnerOk(blk, sb, ino, own, addr);
          SameGrew(blk, blk, ino[i]);
          GrewMore(blk, ino[i], blk, ino[i], {}, {bn, NDIRECT});
          return true, addr;
        }
        ok, addr := FillAddr(i, bn);
        if ok {
          GrewMore(old(blk), old(ino)[i], blk, ino[i], {bn}, {bn, NDIRECT});
        }
      } else {
        ok, addr := BmapIndirect(i, bn - NDIRECT);
      }
    }

    // The second half of bmap(): entry e of the indirect block.
    method BmapIndirect(i: nat, e: nat) returns (ok: bool, addr: nat)
      requires OwnedBy({}) && i < |ino| && e < NINDIRECT
      modifies this`blk, this`ino, this`own, this`logged
      ensures |ino| == |old(ino)| && forall j: nat :: j < |ino| && j != i ==> ino[j] == old(ino)[j]
      ensures ok ==> OwnedBy({}) && 0 < addr < |blk| && addr == Slot(blk, ino[i], NDIRECT + 1 + e)
      ensures ok ==> Grew(old(blk), old(ino)[i], blk, ino[i], {NDIRECT + 1 + e, NDIRECT})
      ensures ok ==> ino[i].addrs[NDIRECT] != 0
      ensures ok ==> OthersSame(old(blk), blk, ino, i)
      ensures ok && Slot(old(blk), old(ino)[i], NDIRECT + 1 + e) == 0 ==> blk[addr] == Zero()
      ensures Slot(old(blk), old(ino)[i], NDIRECT + 1 + e) != 0 ==>
        ok && blk == old(blk) && ino == old(ino) && own == old(own) && logged == old(logged)
      ensures ok ==> forall m: nat :: m in logged ==>
        m in old(logged) || IsMapBlock(sb, m) || m == addr || m == ino[i].addrs[NDIRECT] != 0
      ensures !ok ==> OwnedBy({}) && Full() && OthersSame(old(blk), blk, ino, i)
      ensures Logs(old(blk), old(logged), blk, logged, sb.bmapstart)
    {
      var c := ino[i].addrs[NDIRECT];
      if c == 0 {
        ok, c := FillAddr(i, NDIRECT);
        if !ok {
          return false, 0;
        }
      } else {
        assert SlotOk(blk, ino, own, i, NDIRECT) && OwnerOk(blk, sb, ino, own, c);
        SameGrew(blk, blk, ino[i]);
        GrewMore(blk, ino[i], blk, ino[i], {}, {NDIRECT});
      }
      ghost var blk1, ino1, logged1 := blk, ino, logged;
      addr := Entry(blk[c], e);
      if addr == 0 {
        ok, addr := FillEntry(i, e);
        OthersTwice(old(blk), blk1, blk, old(ino), ino1, i);
        LogsTwice(old(blk), old(logged), blk1, logged1, blk, logged, sb.bmapstart);
        if !ok {
          return false, 0;
        }
        GrewTwice(old(blk), old(ino)[i], blk1, ino1[i], blk, ino[i], {NDIRECT}, {NDIRECT + 1 + e});
      } else {
        assert SlotOk(blk, ino, own, i, NDIRECT + 1 + e) && OwnerOk(blk, sb, ino, own, addr);
      }
      GrewMore(old(blk), old(ino)[i], blk, ino[i], {NDIRECT} + {NDIRECT + 1 + e}, {NDIRECT + 1 + e, NDIRECT});
      ok := true;
    }

    // Allocate a block for entry e of the indirect block.
    method FillEntry(i: nat, e: nat) returns (ok: bool, addr: nat)
      requires OwnedBy({}) && i < |ino| && e < NINDIRECT && 0 < ino[i].addrs[NDIRECT] < |blk|
      requires Slot(blk, ino[i], NDIRECT + 1 + e) == 0
      modifies this`blk, this`own, this`logged
      ensures ok ==> OwnedBy({}) && 0 < addr < |blk| && addr == Slot(blk, ino[i], NDIRECT + 1 + e)
      ensures ok ==> Grew(old(blk), ino[i], blk, ino[i], {NDIRECT + 1 + e}) && blk[addr] == Zero()
      ensures ok ==> OthersSame(old(blk), blk, ino, i)
      ensures ok ==> forall m: nat :: m in logged ==>
        m in old(logged) || IsMapBlock(sb, m) || m == addr || m == ino[i].addrs[NDIRECT] != 0
      ensures !ok ==> OwnedBy({}) && Full() && OthersSame(old(blk), blk, ino, i)
      ensures Logs(old(blk), old(logged), blk, logged, sb.bmapstart)
    {
      ok, addr := Balloc({});
      if !ok {
        return;
      }
      assert {} + {addr} == {addr} && {addr} - {addr} == {};
      assert IsMapBlock(sb, MapBlock(sb, addr));
      var c := ino[i].addrs[NDIRECT];
      SameGrew(old(blk), blk, ino[i]);
      assert SameSlot(old(blk), blk, ino[i], NDIRECT + 1 + e);
      ghost var blk1 := blk;
      ghost var blk2 := RecordEntry(blk, sb, ino, own, {addr}, i, e, addr);
      GrewTwice(old(blk), ino[i], blk1, ino[i], blk2, ino[i], {}, {NDIRECT + 1 + e});
      assert {} + {NDIRECT + 1 + e} == {NDIRECT + 1 + e};
      SlotData(old(blk), sb, ino, old(own), i, NDIRECT);
      LogsOne(old(blk), old(logged), blk, logged, sb.bmapstart, c, WithEntry(blk[c], e, addr));
      blk := blk[c := WithEntry(blk[c], e, addr)];
      logged := logged + {c};
      own := own[addr := Ref(i, NDIRECT + 1 + e)];
      OthersTwice(old(blk), blk1, blk, ino, ino, i);
    }

    // Allocate a block for address s of the inode.
    method FillAddr(i: nat, s: nat) returns (ok: bool, addr: nat)
      requires OwnedBy({}) && i < |ino| && s <= NDIRECT && ino[i].addrs[s] == 0
      modifies this`blk, this`ino, this`own, this`logged
      ensures |ino| == |old(ino)| && forall j: nat :: j < |ino| && j != i ==> ino[j] == old(ino)[j]
      ensures ok ==> OwnedBy({}) && 0 < addr < |blk| && ino[i] == WithAddr(old(ino)[i], s, addr)
      ensures ok ==> Grew(old(blk), old(ino)[i], blk, ino[i], {s}) && blk[addr] == Zero()
      ensures ok ==> OthersSame(old(blk), blk, ino, i)
      ensures ok ==> forall m: nat :: m in logged ==> m in old(logged) || IsMapBlock(sb, m) || m == addr
      ensures !ok ==> OwnedBy({}) && Full() && OthersSame(old(blk), blk, ino, i)
      ensures Logs(old(blk), old(logged), blk, logged, sb.bmapstart)
    {
      ok, addr := Balloc({});
      if !ok {
        return;
      }
      assert {} + {addr} == {addr};
      RecordAddr(blk, sb, ino, own, {addr}, i, s, addr);
      SameGrew(old(blk), blk, ino[i]);
      GrewTwice(old(blk), ino[i], blk, ino[i], blk, WithAddr(ino[i], s, addr), {}, {s});
      assert {} + {s} == {s};
      ino := ino[i := WithAddr(ino[i], s, addr)];
      own := own[addr := Ref(i, s)];
      assert IsMapBlock(sb, MapBlock(sb, addr));
      assert {addr} - {addr} == {};
    }

    ghost predicate Valid()
      reads this`blk, this`ino, this`own
    {
      && OwnedBy({}) && Stored(blk, sb, ino)
      && forall j: nat :: j < |ino| ==> FileOk(blk, ino[j])
    }

    // The block of the inode table that holds inode i.
    function InodeBlock(i: nat): nat {
      sb.inodestart + BlockOf(i)
    }

    // iupdate(): the inode goes to its place in the inode table.
    method Iupdate(i: nat, ghost nodes: seq<Node>)
      requires OwnedBy({}) && i < |ino| == |nodes| && Stored(blk, sb, nodes) && ino[i].size <= MAXFILE * BSIZE
      modifies this`blk, this`logged
      ensures OwnedBy({}) && Stored(blk, sb, nodes[i := ino[i]]) && logged == old(logged) + {InodeBlock(i)}
      ensures Logs(old(blk), old(logged), blk, logged, sb.inodestart)
      ensures forall j: nat :: j < |ino| ==> SameFile(old(blk), blk, ino[j])
    {
      NodeFits(blk, sb, ino, own, i, ino[i].size);
      StoredUpdate(blk, sb, nodes, i, ino[i]);
      var m := InodeBlock(i);
      TableOwned(blk, sb, ino, own, m, Updated(blk, sb, i, ino[i]));
      blk := blk[m := Pack(blk[m], SlotOf(i), ino[i])];
      logged := logged + {m};
    }

    // itrunc(): the inode loses all its blocks, and no other changes.
    method Itrunc(i: nat)
      requires Valid() && i < |ino|
      modifies this`blk, this`ino, this`own, this`logged
      ensures Valid() && |ino| == |old(ino)| && forall j: nat :: j < |ino| && j != i ==> ino[j] == old(ino)[j]
      ensures ino[i] == Dinode(0, seq(NDIRECT + 1, _ => 0)) && OthersSame(old(blk), blk, ino, i)
      ensures Logs(old(blk), old(logged), blk, logged, sb.inodestart)
      // exactly the blocks of the inode are freed
      ensures own == NotOf(old(own), i)
    {
      TruncBlocks(i);
      ResizeOwned(blk, sb, ino, own, i, 0);
      ino := ino[i := Dinode(0, ino[i].addrs)];
      ghost var blk1, logged1 := blk, logged;
      Iupdate(i, old(ino));
      assert old(ino)[i := ino[i]] == ino;
      LogsMore(old(blk), old(logged), blk1, logged1, sb.bmapstart, sb.inodestart);
      LogsTwice(old(blk), old(logged), blk1, logged1, blk, logged, sb.inodestart);
      OthersTwice(old(blk), blk1, blk, old(ino), ino, i);
      FilesOk(old(blk), blk, old(ino), ino, i);
      assert ino[i].addrs == seq(NDIRECT + 1, _ => 0);
      assert Mapped(blk, ino[i], 0);
    }

    // itrunc() but for the size.
    method TruncBlocks(i: nat)
      requires Valid() && i < |ino|
      modifies this`blk, this`ino, this`own, this`logged
      ensures OwnedBy({}) && |ino| == |old(ino)| && forall j: nat :: j < |ino| && j != i ==> ino[j] == old(ino)[j]
      ensures ino[i].addrs == seq(NDIRECT + 1, _ => 0) && OthersSame(old(blk), blk, old(ino), i)
      ensures own == NotOf(old(own), i) && Stored(blk, sb, old(ino))
      ensures Logs(old(blk), old(logged), blk, logged, sb.bmapstart)
    {
      TruncDirect(i);
      ghost var blk1, ino1, logged1 := blk, ino, logged;
      TruncIndirect(i, old(own));
      OthersTwice(old(blk), blk1, blk, old(ino), ino1, i);
      LogsTwice(old(blk), old(logged), blk1, logged1, blk, logged, sb.bmapstart);
      StoredKept(old(blk), old(logged), blk, logged, sb, old(ino));
      assert ino[i].addrs == seq(NDIRECT + 1, _ => 0);
    }

    // The first loop of itrunc().
    method TruncDirect(i: nat)
      requires OwnedBy({}) && i < |ino|
      modifies this`blk, this`ino, this`own, this`logged
      ensures OwnedBy({}) && |ino| == |old(ino)| && forall j: nat :: j < |ino| && j != i ==> ino[j] == old(ino)[j]
      ensures forall t: nat :: t < NDIRECT ==> ino[i].addrs[t] == 0
      ensures OthersSame(old(blk), blk, old(ino), i) && own == Without(old(own), i, NDIRECT)
      ensures Logs(old(blk), old(logged), blk, logged, sb.bmapstart)
    {
      OthersSelf(blk, ino, i);
      LogsSelf(blk, logged, sb.bmapstart);
      var k := 0;
      assert own == Without(own, i, 0);
      while k < NDIRECT
        invariant k <= NDIRECT && OwnedBy({})
        invariant |ino| == |old(ino)| && forall j: nat :: j < |ino| && j != i ==> ino[j] == old(ino)[j]
        invariant forall t: nat :: t < k ==> ino[i].addrs[t] == 0
        invariant OthersSame(old(blk), blk, old(ino), i) && own == Without(old(own), i, k)
        invariant Logs(old(blk), old(logged), blk, logged, sb.bmapstart)
      {
        WithoutStep(blk, sb, ino, own, old(own), i, k);
        if ino[i].addrs[k] != 0 {
          ghost var blk1, logged1 := blk, logged;
          FreeDirect(i, k);
          LogsTwice(old(blk), old(logged), blk1, logged1, blk, logged, sb.bmapstart);
          OthersTwice(old(blk), blk1, blk, old(ino), ino, i);
        }
        k := k + 1;
      }
    }

    method FreeDirect(i: nat, k: nat)
      requires OwnedBy({}) && i < |ino| && k < NDIRECT && ino[i].addrs[k] != 0
      modifies this`blk, this`ino, this`own, this`logged
      ensures OwnedBy({}) && ino == old(ino)[i := WithAddr(old(ino)[i], k, 0)] && own == old(own) - {old(ino)[i].addrs[k]}
      ensures OthersSame(old(blk), blk, ino, i)
      ensures Logs(old(blk), old(logged), blk, logged, sb.bmapstart)
    {
      var b := ino[i].addrs[k];
      DetachAddr(blk, sb, ino, own, {}, i, k);
      ghost var nodes, owners := ino[i := WithAddr(ino[i], k, 0)], own - {b};
      assert {} + {b} == {b} && {b} - {b} == {};
      Bfree(b, nodes, owners, {b});
      ino := ino[i := WithAddr(ino[i], k, 0)];
      own := owners;
    }

    // The second half of itrunc(): the entries of the indirect block, then the
    // block itself.
    method TruncIndirect(i: nat, ghost own0: map<nat, Ref>)
      requires OwnedBy({}) && i < |ino| && own == Without(own0, i, NDIRECT)
      modifies this`blk, this`ino, this`own, this`logged
      ensures OwnedBy({}) && |ino| == |old(ino)| && forall j: nat :: j < |ino| && j != i ==> ino[j] == old(ino)[j]
      ensures ino[i] == WithAddr(old(ino)[i], NDIRECT, 0)
      ensures OthersSame(old(blk), blk, old(ino), i) && own == NotOf(own0, i)
      ensures Logs(old(blk), old(logged), blk, logged, sb.bmapstart)
    {
      WithoutAll(blk, sb, ino, own, own0, i);
      OthersSelf(blk, ino, i);
      LogsSelf(blk, logged, sb.bmapstart);
      var c := ino[i].addrs[NDIRECT];
      if c != 0 {
        ghost var nodes, owners := ino[i := WithAddr(ino[i], NDIRECT, 0)], own - Tail(own, i, 0);
        assert SlotOk(blk, ino, own, i, NDIRECT) && OwnerOk(blk, sb, ino, own, c);
        DetachIndirect(blk, sb, ino, own, i);
        FreeEntries(i, c, nodes, owners);
        TailEnds(old(blk), sb, ino, own, i);
        ghost var blk1, logged1 := blk, logged;
        assert {c} - {c} == {};
        Bfree(c, nodes, owners, {c});
        LogsTwice(old(blk), old(logged), blk1, logged1, blk, logged, sb.bmapstart);
        OthersTwice(old(blk), blk1, blk, ino, nodes, i);
        ino := ino[i := WithAddr(ino[i], NDIRECT, 0)];
        own := owners;
      } else {
        assert own - {} == own;
        assert ino[i].addrs[NDIRECT := 0] == ino[i].addrs;
      }
    }

    // The loop over the entries of the indirect block.
    method FreeEntries(i: nat, c: nat, ghost nodes: seq<Node>, ghost owners: map<nat, Ref>)
      requires OwnedBy({}) && i < |ino| && c == ino[i].addrs[NDIRECT] && sb.datastart <= c < |blk|
      requires |nodes| == |ino| && forall j: nat :: j < |ino| && j != i ==> nodes[j] == ino[j]
      requires Owned(blk, sb, nodes, owners, Tail(own, i, 0))
      modifies this`blk, this`logged
      ensures Owned(blk, sb, nodes, owners, Tail(own, i, NINDIRECT)) && OthersSame(old(blk), blk, ino, i)
      ensures Logs(old(blk), old(logged), blk, logged, sb.bmapstart)
    {
      OthersSelf(blk, ino, i);
      LogsSelf(blk, logged, sb.bmapstart);
      var j := 0;
      while j < NINDIRECT
        invariant j <= NINDIRECT && |blk| == |old(blk)|
        invariant Owned(blk, sb, nodes, owners, Tail(own, i, j)) && OthersSame(old(blk), blk, ino, i)
        invariant forall x: nat :: sb.datastart <= x < |blk| ==> blk[x] == old(blk)[x]
        invariant Logs(old(blk), old(logged), blk, logged, sb.bmapstart)
      {
        TailStep(old(blk), sb, ino, own, i, j);
        if Entry(blk[c], j) != 0 {
          ghost var blk1, logged1 := blk, logged;
          Bfree(Entry(blk[c], j), nodes, owners, Tail(own, i, j));
          LogsTwice(old(blk), old(logged), blk1, logged1, blk, logged, sb.bmapstart);
          OthersTwice(old(blk), blk1, blk, ino, nodes, i);
        }
        j := j + 1;
      }
    }

    // readi(): -1, or exactly the bytes of the file from off; nothing changes.
    method Readi(i: nat, off: nat, n: nat) returns (r: int, dst: seq<byte>)
      requires Valid() && i < |ino| && off < WORD && n < WORD
      modifies this`blk, this`ino, this`own, this`logged
      ensures blk == old(blk) && ino == old(ino) && own == old(own) && logged == old(logged) && Valid()
      ensures r == -1 <==> off > ino[i].size || off + n >= WORD
      ensures r != -1 ==> 0 <= r == |dst| && r == (if off + n > ino[i].size then ino[i].size - off else n)
      ensures r != -1 ==> off + r <= ino[i].size && dst == Contents(blk, ino[i])[off..off + r]
    {
      SumWraps(off, n);
      if off > ino[i].size || (off + n) % WORD < off {
        return -1, [];
      }
      assert FileOk(blk, ino[i]);
      r := if off + n > ino[i].size then ino[i].size - off else n;
      dst := ReadLoop(i, off, r);
    }

    // The loop of readi().
    method ReadLoop(i: nat, off: nat, len: nat) returns (dst: seq<byte>)
      requires OwnedBy({}) && i < |ino| && FileOk(blk, ino[i]) && off + len <= ino[i].size
      modifies this`blk, this`ino, this`own, this`logged
      ensures blk == old(blk) && ino == old(ino) && own == old(own) && logged == old(logged)
      ensures |dst| == len && dst == Contents(blk, ino[i])[off..off + len]
    {
      dst := [];
      var tot := 0;
      while tot < len
        invariant tot <= len && |dst| == tot
        invariant blk == old(blk) && ino == old(ino) && own == old(own) && logged == old(logged)
        invariant dst == Contents(blk, ino[i])[off..off + tot]
      {
        var piece := ReadChunk(i, off + tot, len - tot);
        SliceJoin(Contents(blk, ino[i]), off, off + tot, off + tot + |piece|);
        dst := dst + piece;
        tot := tot + |piece|;
      }
    }

    // The loop body of readi(): the bytes from cur on that are in one block.
    method ReadChunk(i: nat, cur: nat, left: nat) returns (piece: seq<byte>)
      requires OwnedBy({}) && i < |ino| && FileOk(blk, ino[i]) && 0 < left && cur + left <= ino[i].size
      modifies this`blk, this`ino, this`own, this`logged
      ensures blk == old(blk) && ino == old(ino) && own == old(own) && logged == old(logged)
      ensures 0 < |piece| <= left && piece == Contents(blk, ino[i])[cur..cur + |piece|]
    {
      assert MappedAt(blk, ino[i], ino[i].size, cur / BSIZE);
      var ok, a := Bmap(i, cur / BSIZE);
      var m := if left < BSIZE - cur % BSIZE then left else BSIZE - cur % BSIZE;
      ReadStep(blk, ino[i], cur, m);
      piece := blk[a][cur % BSIZE..cur % BSIZE + m];
    }

    // The loop of writei().
    method WriteLoop(i: nat, src: seq<byte>, off: nat) returns (ok: bool)
      requires OwnedBy({}) && i < |ino| && FileOk(blk, ino[i]) && off <= ino[i].size && off + |src| <= MAXFILE * BSIZE
      modifies this`blk, this`ino, this`own, this`logged
      ensures |ino| == |old(ino)| && forall j: nat :: j < |ino| && j != i ==> ino[j] == old(ino)[j]
      ensures ok ==> OwnedBy({}) && OthersSame(old(blk), blk, old(ino), i)
      ensures ok ==> Written(blk, ino[i], Contents(old(blk), old(ino)[i]), off, src, |src|)
      ensures ok && off + |src| <= old(ino)[i].size ==> ino == old(ino)
      ensures ok ==> forall m: nat :: m in logged ==> m in old(logged) || WriteTouches(blk, sb, ino[i], i, off, |src|, m)
      ensures !ok ==> OwnedBy({}) && Full() && OthersSame(old(blk), blk, old(ino), i)
      ensures Logs(old(blk), old(logged), blk, logged, sb.bmapstart)
    {
      ghost var c := Contents(blk, ino[i]);
      WrittenStart(blk, ino[i], off, src);
      LogsSelf(blk, logged, sb.bmapstart);
      OthersSelf(blk, ino, i);
      var tot := 0;
      while tot < |src|
        invariant |ino| == |old(ino)| && forall j: nat :: j < |ino| && j != i ==> ino[j] == old(ino)[j]
        invariant tot <= |src| && OwnedBy({}) && Written(blk, ino[i], c, off, src, tot)
        invariant OthersSame(old(blk), blk, old(ino), i)
        invariant off + tot <= |c| ==> ino == old(ino)
        invariant Logs(old(blk), old(logged), blk, logged, sb.bmapstart)
        invariant forall m: nat :: m in logged ==> m in old(logged) || WriteTouches(blk, sb, ino[i], i, off, tot, m)
      {
        ghost var blk1, ino1, logged1 := blk, ino, logged;
        var m;
        ok, m := WriteChunk(i, src, off, tot, c);
        OthersTwice(old(blk), blk1, blk, old(ino), ino1, i);
        LogsTwice(old(blk), old(logged), blk1, logged1, blk, logged, sb.bmapstart);
        if !ok {
          return;
        }
        forall x: nat | x in logged ensures x in old(logged) || WriteTouches(blk, sb, ino[i], i, off, tot + m, x) {
          if x in logged1 && x !in old(logged) {
            TouchesMore(blk1, ino1[i], blk, ino[i], sb, i, off, tot, tot + m, x);
          }
        }
        tot := tot + m;
      }
      ok := true;
    }

    // The loop body of writei(): the bytes that go into one block.
    method WriteChunk(i: nat, src: seq<byte>, off: nat, tot: nat, ghost c: seq<byte>) returns (ok: bool, m: nat)
      requires OwnedBy({}) && i < |ino| && Written(blk, ino[i], c, off, src, tot)
      requires tot < |src| && off + |src| <= MAXFILE * BSIZE
      modifies this`blk, this`ino, this`own, this`logged
      ensures |ino| == |old(ino)| && forall j: nat :: j < |ino| && j != i ==> ino[j] == old(ino)[j]
      ensures ok ==> 0 < m <= |src| - tot && OwnedBy({}) && Written(blk, ino[i], c, off, src, tot + m)
      ensures ok ==> OthersSame(old(blk), blk, ino, i) && SlotsStay(old(blk), old(ino)[i], blk, ino[i])
      ensures ok && off + tot < |c| ==> ino == old(ino)
      ensures ok ==> forall x: nat :: x in logged ==> x in old(logged) || WriteTouches(blk, sb, ino[i], i, off, tot + m, x)
      ensures !ok ==> OwnedBy({}) && Full() && OthersSame(old(blk), blk, ino, i)
      ensures Logs(old(blk), old(logged), blk, logged, sb.bmapstart)
    {
      var cur := off + tot;
      var bn, o := cur / BSIZE, cur % BSIZE;
      assert MappedAt(blk, ino[i], Max(|c|, cur), bn);
      var a;
      ok, a := Bmap(i, bn);
      if !ok {
        return false, 0;
      }
      m := if |src| - tot < BSIZE - o then |src| - tot else BSIZE - o;
      ghost var blk1, logged1 := blk, logged;
      PutBytes(i, src, off, tot, m, a, c, old(blk), old(ino)[i]);
      LogsTwice(old(blk), old(logged), blk1, logged1, blk, logged, sb.bmapstart);
      OthersTwice(old(blk), blk1, blk, ino, ino, i);
      StayAfter(old(blk), old(ino)[i], blk1, ino[i], blk, {DataSlot(bn), NDIRECT});
      assert off / BSIZE <= bn < (off + (tot + m) + BSIZE - 1) / BSIZE;
    }

    // memmove() into the block that bmap() gave, and log_write().
    method PutBytes(i: nat, src: seq<byte>, off: nat, tot: nat, m: nat, a: nat, ghost c: seq<byte>, ghost blk0: Store, ghost nd0: Node)
      requires OwnedBy({}) && i < |ino| && Written(blk0, nd0, c, off, src, tot)
      requires tot < |src| && off + |src| <= MAXFILE * BSIZE
      requires 0 < m <= |src| - tot && m <= BSIZE - (off + tot) % BSIZE
      requires var bn := (off + tot) / BSIZE;
        && Grew(blk0, nd0, blk, ino[i], {DataSlot(bn), NDIRECT}) && 0 < a < |blk| && a == Slot(blk, ino[i], DataSlot(bn))
        && (bn < NDIRECT ==> ino[i].addrs[NDIRECT] == nd0.addrs[NDIRECT]) && (bn >= NDIRECT ==> ino[i].addrs[NDIRECT] != 0)
      modifies this`blk, this`logged
      ensures OwnedBy({}) && Written(blk, ino[i], c, off, src, tot + m) && OthersSame(old(blk), blk, ino, i)
      ensures logged == old(logged) + {a} && Logs(old(blk), old(logged), blk, logged, sb.bmapstart)
      ensures forall s: nat :: s < SLOTS ==> Slot(blk, ino[i], s) == Slot(old(blk), ino[i], s)
    {
      var o := (off + tot) % BSIZE;
      ghost var blk2 := WriteStep(blk0, nd0, blk, ino[i], sb, ino, own, i, c, off, src, tot, m);
      SlotData(blk, sb, ino, own, i, DataSlot((off + tot) / BSIZE));
      LogsSelf(blk, logged, sb.bmapstart);
      LogsOne(blk, logged, blk, logged, sb.bmapstart, a, Splice(blk[a], o, src[tot..tot + m]));
      blk := blk[a := Splice(blk[a], o, src[tot..tot + m])];
      logged := logged + {a};
    }

    // writei(): -1 and nothing changed, or all of src is written at off; the
    // other files are as before, and the inode on disk is the one in core.
    // ok is false when balloc() panics.
    method Writei(i: nat, src: seq<byte>, off: nat) returns (ok: bool, r: int)
      requires Valid() && i < |ino| && off < WORD && |src| < WORD
      modifies this`blk, this`ino, this`own, this`logged
      ensures |ino| == |old(ino)| && forall j: nat :: j < |ino| && j != i ==> ino[j] == old(ino)[j]
      ensures ok ==> Valid() && OthersSame(old(blk), blk, ino, i)
      ensures Logs(old(blk), old(logged), blk, logged, sb.inodestart)
      ensures ok ==> (r == -1 <==> off > old(ino)[i].size || off + |src| > MAXFILE * BSIZE)
      ensures ok && r == -1 ==> blk == old(blk) && ino == old(ino) && own == old(own) && logged == old(logged)
      ensures ok && r != -1 ==> r == |src| && Contents(blk, ino[i]) == Overwrite(old(Contents(blk, ino[i])), off, src)
      ensures ok ==> forall m: nat :: m in logged ==> m in old(logged) || WriteTouches(blk, sb, ino[i], i, off, |src|, m)
      ensures !ok ==> OwnedBy({}) && Full() && OthersSame(old(blk), blk, ino, i)
    {
      ok := true;
      SumWraps(off, |src|);
      if off > ino[i].size || (off + |src|) % WORD < off {
        return true, -1;
      }
      if off + |src| > MAXFILE * BSIZE {
        return true, -1;
      }
      ok := WriteFits(i, src, off);
      r := if ok then |src| else -1;
    }

    // writei() after its tests.
    method WriteFits(i: nat, src: seq<byte>, off: nat) returns (ok: bool)
      requires Valid() && i < |ino| && off <= ino[i].size && off + |src| <= MAXFILE * BSIZE
      modifies this`blk, this`ino, this`own, this`logged
      ensures |ino| == |old(ino)| && forall j: nat :: j < |ino| && j != i ==> ino[j] == old(ino)[j]
      ensures ok ==> Valid() && OthersSame(old(blk), blk, ino, i)
      ensures Logs(old(blk), old(logged), blk, logged, sb.inodestart)
      ensures ok ==> Contents(blk, ino[i]) == Overwrite(old(Contents(blk, ino[i])), off, src)
      ensures ok ==> forall m: nat :: m in logged ==> m in old(logged) || WriteTouches(blk, sb, ino[i], i, off, |src|, m)
      ensures !ok ==> OwnedBy({}) && Full() && OthersSame(old(blk), blk, ino, i)
    {
      ok := WriteLoop(i, src, off);
      LogsMore(old(blk), old(logged), blk, logged, sb.bmapstart, sb.inodestart);
      if !ok {
        return;
      }
      ghost var blk1, ino1, logged1 := blk, ino, logged;
      StoredKept(old(blk), old(logged), blk, logged, sb, old(ino));
      FinishWrite(i, src, off, old(blk), old(ino));
      LogsTwice(old(blk), old(logged), blk1, logged1, blk, logged, sb.inodestart);
      TouchesAfter(blk1, ino1[i], blk, ino[i], sb, i, off, |src|, old(logged), logged1, logged);
    }

    // The end of writei(): a larger size goes to the inode on disk.
    method FinishWrite(i: nat, src: seq<byte>, off: nat, ghost blk0: Store, ghost ino0: seq<Node>)
      requires OwnedBy({}) && i < |ino| == |ino0| && off <= |Contents(blk0, ino0[i])|
      requires OthersSame(blk0, blk, ino0, i) && forall j: nat :: j < |ino| && j != i ==> ino[j] == ino0[j]
      requires forall j: nat :: j < |ino| ==> FileOk(blk0, ino0[j])
      requires Written(blk, ino[i], Contents(blk0, ino0[i]), off, src, |src|)
      requires Stored(blk, sb, ino0) && (off + |src| <= ino0[i].size ==> ino == ino0)
      requires off + |src| <= MAXFILE * BSIZE
      modifies this`blk, this`ino, this`logged
      ensures Valid() && OthersSame(blk0, blk, ino, i)
      ensures |ino| == |old(ino)| && forall j: nat :: j < |ino| && j != i ==> ino[j] == old(ino)[j]
      ensures Contents(blk, ino[i]) == Overwrite(Contents(blk0, ino0[i]), off, src)
      ensures ino[i].addrs == old(ino)[i].addrs
      ensures logged == old(logged) || (|src| > 0 && logged == old(logged) + {InodeBlock(i)})
      ensures Logs(old(blk), old(logged), blk, logged, sb.inodestart) && SameFile(old(blk), blk, ino[i])
    {
      WrittenEnd(blk, ino[i], Contents(blk0, ino0[i]), off, src);
      if |src| > 0 && off + |src| > ino[i].size {
        ResizeOwned(blk, sb, ino, own, i, off + |src|);
        ino := ino[i := Dinode(off + |src|, ino[i].addrs)];
        ghost var blk1 := blk;
        Iupdate(i, ino0);
        assert ino0[i := ino[i]] == ino;
        SameContents(blk1, blk, ino[i]);
        OthersTwice(blk0, blk1, blk, ino0, ino, i);
      }
      FilesOk(blk0, blk, ino0, ino, i);
    }
  }

  const MAXOPBLOCKS: nat := 10

  // The bytes of one chunk of filewrite().
  const CHUNK: nat := (MAXOPBLOCKS - 1 - 1 - 2) / 2 * 512

  // The data blocks bn, from lo on and below hi, of a file.
  ghost function DataBlocks(blk: Store, nd: Node, lo: nat, hi: nat): (r: set<nat>)
    decreases hi
  {
    if lo >= hi then {} else DataBlocks(blk, nd, lo, hi - 1) + {Slot(blk, nd, DataSlot(hi - 1))}
  }

  lemma {:induction false} DataBlocksSize(blk: Store, nd: Node, lo: nat, hi: nat)
    ensures |DataBlocks(blk, nd, lo, hi)| <= if lo < hi then hi - lo else 0
    decreases hi
  {
    if lo < hi {
      DataBlocksSize(blk, nd, lo, hi - 1);
    }
  }

  lemma {:induction false} InDataBlocks(blk: Store, nd: Node, lo: nat, hi: nat, bn: nat)
    requires lo <= bn < hi
    ensures Slot(blk, nd, DataSlot(bn)) in DataBlocks(blk, nd, lo, hi)
    decreases hi
  {
    if bn < hi - 1 {
      InDataBlocks(blk, nd, lo, hi - 1, bn);
    }
  }

  lemma {:induction false} SubsetSize(a: set<nat>, b: set<nat>)
    requires a <= b
    ensures |a| <= |b|
  {
    if a != {} {
      var x: nat :| x in a;
      SubsetSize(a - {x}, b - {x});
    }
  }

  // A chunk of filewrite() logs at most seven blocks, if the bitmap is one
  // block: four of data, the bitmap, the indirect block and the inode.
  lemma ChunkBound(blk: Store, sb: Super, nd: Node, i: nat, off: nat, n: nat, logged: set<nat>)
    requires n <= CHUNK && sb.size <= BPB
    requires forall m: nat :: m in logged ==> WriteTouches(blk, sb, nd, i, off, n, m)
    ensures |logged| <= 7 <= MAXOPBLOCKS
  {
    var lo, hi := off / BSIZE, (off + n + BSIZE - 1) / BSIZE;
    var data, meta := DataBlocks(blk, nd, lo, hi), {sb.bmapstart, sb.inodestart + BlockOf(i), nd.addrs[NDIRECT]};
    forall m | m in logged ensures m in data + meta {
      assert WriteTouches(blk, sb, nd, i, off, n, m);
      if IsMapBlock(sb, m) {
        var b: nat :| b < sb.size && MapBlock(sb, b) == m;
      } else if m !in meta {
        var bn: nat :| lo <= bn < hi && m == Slot(blk, nd, DataSlot(bn)) != 0;
        InDataBlocks(blk, nd, lo, hi, bn);
      }
    }
    DataBlocksSize(blk, nd, lo, hi);
    SubsetSize(logged, data + meta);
    assert hi - lo <= 4;
    assert |meta| <= 3;
    assert |data + meta| <= |data| + |meta|;
  }

  // Files are mapped exactly up to their size, which is at most the maximum.
  ghost predicate FileOk(blk: Store, nd: Node) {
    Mapped(blk, nd, nd.size)
  }

  // The blocks that a write of n bytes at off may log.
  ghost predicate WriteTouches(blk: Store, sb: Super, nd: Node, i: nat, off: nat, n: nat, m: nat) {
    || IsMapBlock(sb, m)
    || m == sb.inodestart + BlockOf(i)
    || m == nd.addrs[NDIRECT] != 0
    || exists bn: nat :: off / BSIZE <= bn < (off + n + BSIZE - 1) / BSIZE && m == Slot(blk, nd, DataSlot(bn)) != 0
  }

  ghost predicate SlotsStay(blk: Store, nd: Node, blk': Store, nd': Node) {
    forall s: nat :: s < SLOTS && Slot(blk, nd, s) != 0 ==> Slot(blk', nd', s) == Slot(blk, nd, s)
  }

  lemma TouchesMore(blk: Store, nd: Node, blk': Store, nd': Node, sb: Super, i: nat, off: nat, n: nat, n': nat, m: nat)
    requires WriteTouches(blk, sb, nd, i, off, n, m) && n <= n' && off + n' <= MAXFILE * BSIZE
    requires SlotsStay(blk, nd, blk', nd')
    ensures WriteTouches(blk', sb, nd', i, off, n', m)
  {
    if m == nd.addrs[NDIRECT] != 0 {
      assert Slot(blk, nd, NDIRECT) != 0;
    } else if exists bn: nat :: off / BSIZE <= bn < (off + n + BSIZE - 1) / BSIZE && m == Slot(blk, nd, DataSlot(bn)) != 0 {
      var bn: nat :| off / BSIZE <= bn < (off + n + BSIZE - 1) / BSIZE && m == Slot(blk, nd, DataSlot(bn)) != 0;
      assert Slot(blk', nd', DataSlot(bn)) == m;
    }
  }

  // The end of writei() touches the inode's block at most.
  lemma TouchesAfter(blk: Store, nd: Node, blk': Store, nd': Node, sb: Super, i: nat, off: nat, n: nat,
      logged0: set<nat>, logged: set<nat>, logged': set<nat>)
    requires SameFile(blk, blk', nd') && nd'.addrs == nd.addrs && off + n <= MAXFILE * BSIZE
    requires forall m: nat :: m in logged ==> m in logged0 || WriteTouches(blk, sb, nd, i, off, n, m)
    requires forall m: nat :: m in logged' ==> m in logged || m == sb.inodestart + BlockOf(i)
    ensures forall m: nat :: m in logged' ==> m in logged0 || WriteTouches(blk', sb, nd', i, off, n, m)
  {
    forall s: nat | s < SLOTS ensures Slot(blk', nd', s) == Slot(blk, nd, s) {
      assert SameSlot(blk, blk', nd', s);
    }
    forall m: nat | m in logged && m !in logged0 ensures WriteTouches(blk', sb, nd', i, off, n, m) {
      TouchesMore(blk, nd, blk', nd', sb, i, off, n, n, m);
    }
  }

  lemma StayAfter(blk: Store, nd: Node, blk1: Store, nd1: Node, blk2: Store, extra: set<nat>)
    requires Grew(blk, nd, blk1, nd1, extra)
    requires forall s: nat :: s < SLOTS ==> Slot(blk2, nd1, s) == Slot(blk1, nd1, s)
    ensures SlotsStay(blk, nd, blk2, nd1)
  {
    forall s: nat | s < SLOTS && Slot(blk, nd, s) != 0 ensures Slot(blk2, nd1, s) == Slot(blk, nd, s) {
      assert GrewAt(blk, nd, blk1, nd1, extra, s);
    }
  }

  lemma SliceJoin(c: seq<byte>, a: nat, b: nat, d: nat)
    requires a <= b <= d <= |c|
    ensures c[a..b] + c[b..d] == c[a..d]
  {
  }

  // Ownership does not depend on file sizes.
  lemma ResizeOwned(blk: Store, sb: Super, nodes: seq<Node>, own: map<nat, Ref>, i: nat, size: nat)
    requires Owned(blk, sb, nodes, own, {}) && i < |nodes|
    ensures Owned(blk, sb, nodes[i := Dinode(size, nodes[i].addrs)], own, {})
  {
    var nodes' := nodes[i := Dinode(size, nodes[i].addrs)];
    forall j: nat, s: nat | j < |nodes| && s < SLOTS ensures SlotOk(blk, nodes', own, j, s) {
      assert SlotOk(blk, nodes, own, j, s);
    }
    forall b: nat | b in own ensures OwnerOk(blk, sb, nodes', own, b) {
      assert OwnerOk(blk, sb, nodes, own, b);
    }
  }

  // The other files stay well-formed.
  lemma FilesOk(blk: Store, blk': Store, nodes: seq<Node>, nodes': seq<Node>, i: nat)
    requires OthersSame(blk, blk', nodes, i) && |nodes'| == |nodes|
    requires forall j: nat :: j < |nodes| && j != i ==> nodes'[j] == nodes[j]
    requires forall j: nat :: j < |nodes| ==> FileOk(blk, nodes[j])
    ensures forall j: nat :: j < |nodes| && j != i ==> FileOk(blk', nodes'[j])
    ensures OthersSame(blk, blk', nodes', i)
    ensures forall j: nat :: j < |nodes| && j != i ==> Contents(blk', nodes'[j]) == Contents(blk, nodes[j])
  {
    forall j: nat | j < |nodes| && j != i
      ensures FileOk(blk', nodes'[j]) && Contents(blk', nodes'[j]) == Contents(blk, nodes[j])
    {
      assert FileOk(blk, nodes[j]);
      SameContents(blk, blk', nodes[j]);
    }
  }

  // The bytes of one block that readi() copies are those of the file.
  lemma ReadStep(blk: Store, nd: Node, cur: nat, m: nat)
    requires cur + m <= nd.size && 0 < m <= BSIZE - cur % BSIZE
    requires 0 < Slot(blk, nd, DataSlot(cur / BSIZE)) < |blk|
    ensures Contents(blk, nd)[cur..cur + m] ==
      blk[Slot(blk, nd, DataSlot(cur / BSIZE))][cur % BSIZE..cur % BSIZE + m]
  {
    var c, b := Contents(blk, nd), blk[Slot(blk, nd, DataSlot(cur / BSIZE))];
    var x, y := c[cur..cur + m], b[cur % BSIZE..cur % BSIZE + m];
    forall k | 0 <= k < m ensures x[k] == y[k] {
      assert (cur + k) / BSIZE == cur / BSIZE && (cur + k) % BSIZE == cur % BSIZE + k;
      assert c[cur + k] == FileByte(blk, nd, cur + k);
    }
  }
}
