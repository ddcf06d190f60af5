// Physical memory as kalloc.c and vm.c use it: page frames of bytes, words in
// them, and the list of free pages that runs through their first words.
module PageFrames {
  import opened Blocks

  const PGSIZE: nat := 4096
  const NENTRIES: nat := 1024
  const KERNBASE: nat := 0x8000_0000

  type Page = b: seq<byte> | |b| == PGSIZE witness seq(PGSIZE, _ => 0)
  type Memory = seq<Page>

  // memset(p, c, PGSIZE)
  function Filled(c: byte): (p: Page) {
    seq(PGSIZE, _ => c)
  }

  lemma ZeroPageEntries(j: nat)
    requires j < NENTRIES
    ensures Entry(Filled(0), j) == 0
  {
  }

  // P2V of the address of frame f.
  function Pointer(f: nat): (p: nat) {
    KERNBASE + f * PGSIZE
  }

  // V2P of a kernel pointer, as a frame number.
  function FrameAt(p: nat): (f: nat)
    requires p >= KERNBASE
  {
    (p - KERNBASE) / PGSIZE
  }

  // A page on the free list: junk, and the pointer to the next one.
  function Freed(next: nat): (p: Page)
    requires next < WORD
  {
    WithEntry(Filled(1), 0, next)
  }

  // The page is filled with ones, but for the pointer at its start.
  lemma FreedBytes(next: nat, i: nat)
    requires next < WORD && 4 <= i < PGSIZE
    ensures Freed(next)[i] == 1 && WordAt(Freed(next), 0) == next
  {
    WithEntryEntries(Filled(1), 0, next, 0);
  }

  // The list that starts at pointer `head` goes through exactly these frames.
  ghost predicate Chain(mem: Memory, head: nat, free: seq<nat>)
    decreases |free|
  {
    if free == [] then head == 0
    else 0 < free[0] < |mem| && head == Pointer(free[0]) && Chain(mem, Entry(mem[free[0]], 0), free[1..])
  }

  ghost predicate Distinct(s: seq<nat>) {
    forall i, j :: 0 <= i < j < |s| ==> s[i] != s[j]
  }

  lemma {:induction false} ChainKept(mem: Memory, mem': Memory, head: nat, free: seq<nat>)
    requires Chain(mem, head, free) && |mem'| == |mem|
    requires forall f :: f in free && f < |mem| ==> mem'[f] == mem[f]
    ensures Chain(mem', head, free)
    decreases |free|
  {
    if free != [] {
      ChainKept(mem, mem', Entry(mem[free[0]], 0), free[1..]);
    }
  }

  // The list determines its frames.
  lemma {:induction false} ChainUnique(mem: Memory, head: nat, a: seq<nat>, b: seq<nat>)
    requires Chain(mem, head, a) && Chain(mem, head, b)
    ensures a == b
    decreases |a|
  {
    if a != [] {
      assert a[0] == b[0];
      ChainUnique(mem, Entry(mem[a[0]], 0), a[1..], b[1..]);
      assert a == [a[0]] + a[1..] && b == [b[0]] + b[1..];
    }
  }

  // kfree() of a frame that is not on the list.
  lemma ChainPush(mem: Memory, head: nat, free: seq<nat>, f: nat)
    requires Chain(mem, head, free) && f !in free && 0 < f < |mem| && head < WORD
    ensures Chain(mem[f := Freed(head)], Pointer(f), [f] + free)
  {
    var mem' := mem[f := Freed(head)];
    ChainKept(mem, mem', head, free);
    WithEntryEntries(Filled(1), 0, head, 0);
    assert ([f] + free)[1..] == free;
  }
}
