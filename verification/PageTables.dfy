// Two-level page tables over the page frames of vm.c, and who owns each frame.
module PageTables {
  import opened Blocks
  import opened PageFrames

  const USER: nat := KERNBASE / PGSIZE     // pages below KERNBASE
  const PAGES: nat := 0x10_0000            // pages of an address space
  const NPDENTRIES: nat := 1024

  // ----- entries -----

  predicate Present(w: nat) { w % 2 == 1 }

  // PTE_ADDR, as a frame number.
  function FrameOf(w: nat): nat { w / PGSIZE }

  // PTE_FLAGS
  function Flags(w: nat): nat { w % PGSIZE }

  // pa | perm | PTE_P for the address of frame f
  function MakeEntry(f: nat, perm: nat): (w: nat)
    requires perm < PGSIZE
    ensures Present(w) && FrameOf(w) == f && Flags(w) == perm / 2 * 2 + 1
  {
    f * PGSIZE + (perm / 2 * 2 + 1)
  }

  lemma MakeEntryFits(f: nat, perm: nat)
    requires perm < PGSIZE && f < PAGES
    ensures MakeEntry(f, perm) < WORD
  {
  }

  // Entry x of page directory d.
  ghost function Pde(mem: Memory, d: nat, x: nat): (w: nat) {
    if d < |mem| && x < NPDENTRIES then Entry(mem[d], x) else 0
  }

  // The page table for entry x; 0 if there is none.
  ghost function TableOf(mem: Memory, d: nat, x: nat): (t: nat) {
    if Present(Pde(mem, d, x)) then FrameOf(Pde(mem, d, x)) else 0
  }

  // The page table entry of virtual page v; 0 if it has no page table.
  ghost function Pte(mem: Memory, d: nat, v: nat): (w: nat) {
    var t := TableOf(mem, d, v / NENTRIES);
    if 0 < t < |mem| then Entry(mem[t], v % NENTRIES) else 0
  }

  // The processor's walk for virtual address a: bits 22 to 31 choose the word of the
  // directory, bits 12 to 21 the word of the page table that the upper 20 bits of
  // the first word name, and words are little-endian.
  lemma ProcessorWalk(mem: Memory, d: nat, a: nat, e: nat)
    requires d < |mem| && a < WORD && e == WordAt(mem[d], 4 * (a / 0x40_0000))
    ensures e % 2 == 0 ==> Pte(mem, d, a / PGSIZE) == 0
    ensures e % 2 == 1 && 0 < e / 0x1000 < |mem| ==>
      Pte(mem, d, a / PGSIZE) == WordAt(mem[e / 0x1000], 4 * (a / 0x1000 % 0x400))
  {
    assert a / PGSIZE / NENTRIES == a / 0x40_0000 < NPDENTRIES;
  }

  // ----- ownership -----

  // What a frame is used for.
  datatype Use = Directory(dir: nat) | Table(dir: nat, x: nat) | User(dir: nat, v: nat)

  ghost predicate Has(mem: Memory, dirs: set<nat>, u: Use) {
    u.dir in dirs &&
    match u
    case Directory(d) => true
    case Table(d, x) => x < NPDENTRIES && Present(Pde(mem, d, x))
    case User(d, v) => v < USER && Present(Pte(mem, d, v))
  }

  ghost function Target(mem: Memory, u: Use): nat {
    match u
    case Directory(d) => d
    case Table(d, x) => FrameOf(Pde(mem, d, x))
    case User(d, v) => FrameOf(Pte(mem, d, v))
  }

  ghost predicate UseOk(mem: Memory, dirs: set<nat>, own: map<nat, Use>, u: Use) {
    Has(mem, dirs, u) ==> Target(mem, u) in own && own[Target(mem, u)] == u
  }

  ghost predicate FrameOk(mem: Memory, dirs: set<nat>, own: map<nat, Use>, f: nat) {
    f in own && 0 < f < |mem| && Has(mem, dirs, own[f]) && Target(mem, own[f]) == f && OpenTable(mem, own[f])
  }

  // The directory lets the user through to a page table, to read and to write.
  ghost predicate OpenTable(mem: Memory, u: Use) {
    u.Table? ==> Flags(Pde(mem, u.dir, u.x)) == 7
  }

  // The managed frames are the owned, the free and the lent ones.
  ghost predicate SplitAt(all: set<nat>, own: map<nat, Use>, free: seq<nat>, lent: set<nat>, f: nat) {
    && (f in all <==> f in own || f in free || f in lent)
    && !(f in own && f in free) && !(f in own && f in lent) && !(f in free && f in lent)
  }

  // Every reference of a page directory or page table below KERNBASE has a
  // frame of its own, and every owned frame is referenced so.
  ghost predicate Owned(mem: Memory, all: set<nat>, dirs: set<nat>, own: map<nat, Use>, free: seq<nat>, lent: set<nat>) {
    && |mem| <= USER && (forall f :: f in all ==> 0 < f < |mem|)
    && (forall u: Use :: UseOk(mem, dirs, own, u))
    && (forall f: nat :: f in own ==> FrameOk(mem, dirs, own, f))
    && Distinct(free) && (forall f: nat :: SplitAt(all, own, free, lent, f))
  }

  // No frame has two uses.
  lemma UsesDistinct(mem: Memory, all: set<nat>, dirs: set<nat>, own: map<nat, Use>, free: seq<nat>, lent: set<nat>, u: Use, w: Use)
    requires Owned(mem, all, dirs, own, free, lent) && Has(mem, dirs, u) && Has(mem, dirs, w) && u != w
    ensures Target(mem, u) != Target(mem, w) && 0 < Target(mem, u) < |mem|
  {
    assert UseOk(mem, dirs, own, u) && UseOk(mem, dirs, own, w);
    assert FrameOk(mem, dirs, own, Target(mem, u));
  }

  // Every directory entry that is present lets the user read and write behind it, so
  // that the entry of the page alone decides.
  lemma TablesOpen(mem: Memory, all: set<nat>, dirs: set<nat>, own: map<nat, Use>, free: seq<nat>, lent: set<nat>, d: nat, x: nat)
    requires Owned(mem, all, dirs, own, free, lent) && d in dirs && x < NPDENTRIES && Present(Pde(mem, d, x))
    ensures Pde(mem, d, x) % PGSIZE == 7
  {
    assert UseOk(mem, dirs, own, Table(d, x));
    assert FrameOk(mem, dirs, own, FrameOf(Pde(mem, d, x)));
  }

  // The page tables say who owns each frame.
  lemma OwnersDetermined(mem: Memory, all: set<nat>, dirs: set<nat>, own: map<nat, Use>, free: seq<nat>, lent: set<nat>,
      own': map<nat, Use>, free': seq<nat>, lent': set<nat>)
    requires Owned(mem, all, dirs, own, free, lent) && Owned(mem, all, dirs, own', free', lent')
    ensures own == own'
  {
    forall f | f in own ensures f in own' && own'[f] == own[f] {
      assert FrameOk(mem, dirs, own, f) && UseOk(mem, dirs, own', own[f]);
    }
    forall f | f in own' ensures f in own {
      assert FrameOk(mem, dirs, own', f) && UseOk(mem, dirs, own, own'[f]);
    }
  }

  // ----- the same page tables -----

  ghost predicate SameAt(mem: Memory, mem': Memory, d: nat, v: nat) {
    Pte(mem', d, v) == Pte(mem, d, v)
  }

  // The address spaces of these directories are the same.
  ghost predicate SameSpaces(mem: Memory, mem': Memory, dirs: set<nat>) {
    forall d: nat, v: nat :: d in dirs && v < PAGES ==> SameAt(mem, mem', d, v)
  }

  // The frames of user memory have the same contents.
  ghost predicate SameUser(mem: Memory, mem': Memory, own: map<nat, Use>) {
    |mem'| == |mem| && forall f: nat :: f in own && own[f].User? && f < |mem| ==> mem'[f] == mem[f]
  }

  // What directory d refers to is not changed by a change elsewhere.
  lemma FrameTables(mem: Memory, mem': Memory, all: set<nat>, dirs: set<nat>, own: map<nat, Use>, free: seq<nat>, lent: set<nat>, d: nat)
    requires Owned(mem, all, dirs, own, free, lent) && d in dirs && |mem'| == |mem|
    requires forall f: nat :: f in own && !own[f].User? && own[f].dir == d ==> f < |mem| && mem'[f] == mem[f]
    ensures forall x: nat :: Pde(mem', d, x) == Pde(mem, d, x)
    ensures forall v: nat :: v < PAGES ==> Pte(mem', d, v) == Pte(mem, d, v)
  {
    assert UseOk(mem, dirs, own, Directory(d));
    forall v: nat | v < PAGES ensures Pte(mem', d, v) == Pte(mem, d, v) {
      assert UseOk(mem, dirs, own, Table(d, v / NENTRIES));
    }
  }

  // A change of user pages, lent or free frames changes no page table.
  lemma DataOwned(mem: Memory, mem': Memory, all: set<nat>, dirs: set<nat>, own: map<nat, Use>, free: seq<nat>, lent: set<nat>)
    requires Owned(mem, all, dirs, own, free, lent) && |mem'| == |mem|
    requires forall f: nat :: f in own && !own[f].User? ==> f < |mem| && mem'[f] == mem[f]
    ensures Owned(mem', all, dirs, own, free, lent) && SameSpaces(mem, mem', dirs)
    ensures forall d: nat, x: nat :: d in dirs ==> Pde(mem', d, x) == Pde(mem, d, x)
  {
    forall d: nat | d in dirs
      ensures forall x: nat :: Pde(mem', d, x) == Pde(mem, d, x)
      ensures forall v: nat :: v < PAGES ==> SameAt(mem, mem', d, v)
    {
      FrameTables(mem, mem', all, dirs, own, free, lent, d);
    }
    SameOwned(mem, mem', all, dirs, own, free, lent);
  }

  // Ownership depends on the directories and the user part of the tables alone.
  lemma SameOwned(mem: Memory, mem': Memory, all: set<nat>, dirs: set<nat>, own: map<nat, Use>, free: seq<nat>, lent: set<nat>)
    requires Owned(mem, all, dirs, own, free, lent) && |mem'| == |mem|
    requires forall d: nat, x: nat :: d in dirs ==> Pde(mem', d, x) == Pde(mem, d, x)
    requires forall d: nat, v: nat :: d in dirs && v < USER ==> SameAt(mem, mem', d, v)
    ensures Owned(mem', all, dirs, own, free, lent)
  {
    forall u: Use ensures UseOk(mem', dirs, own, u) {
      assert UseOk(mem, dirs, own, u);
      if u.User? { assert u.v < USER && u.dir in dirs ==> SameAt(mem, mem', u.dir, u.v); }
    }
    forall f: nat | f in own ensures FrameOk(mem', dirs, own, f) {
      assert FrameOk(mem, dirs, own, f);
      if own[f].User? { assert SameAt(mem, mem', own[f].dir, own[f].v); }
    }
  }

  // ----- kalloc() and kfree() -----

  // The first free page is lent to the caller.
  lemma TakeOwned(mem: Memory, all: set<nat>, dirs: set<nat>, own: map<nat, Use>, free: seq<nat>, lent: set<nat>)
    requires Owned(mem, all, dirs, own, free, lent) && free != []
    ensures Owned(mem, all, dirs, own, free[1..], lent + {free[0]})
  {
    var f0 := free[0];
    assert forall f :: f in free <==> f == f0 || f in free[1..];
    assert f0 !in free[1..];
    forall f: nat ensures SplitAt(all, own, free[1..], lent + {f0}, f) {
      assert SplitAt(all, own, free, lent, f) && SplitAt(all, own, free, lent, f0);
    }
  }

  // A lent page is put on the free list.
  lemma GiveOwned(mem: Memory, all: set<nat>, dirs: set<nat>, own: map<nat, Use>, free: seq<nat>, lent: set<nat>, f: nat, p: Page)
    requires Owned(mem, all, dirs, own, free, lent) && f in lent
    ensures f in all && f !in free && f !in own
    ensures Owned(mem[f := p], all, dirs, own, [f] + free, lent - {f}) && SameSpaces(mem, mem[f := p], dirs)
    ensures SameUser(mem, mem[f := p], own)
  {
    assert SplitAt(all, own, free, lent, f);
    forall x: nat | x in own ensures x < |mem| && mem[f := p][x] == mem[x] {
      assert FrameOk(mem, dirs, own, x);
    }
    DataOwned(mem, mem[f := p], all, dirs, own, free, lent);
    forall x: nat ensures SplitAt(all, own, [f] + free, lent - {f}, x) {
      assert SplitAt(all, own, free, lent, x);
    }
  }

  // A lent page may be written.
  lemma LentOwned(mem: Memory, all: set<nat>, dirs: set<nat>, own: map<nat, Use>, free: seq<nat>, lent: set<nat>, f: nat, p: Page)
    requires Owned(mem, all, dirs, own, free, lent) && f in lent
    ensures 0 < f < |mem| && f !in own && f !in free && f in all
    ensures Owned(mem[f := p], all, dirs, own, free, lent) && SameSpaces(mem, mem[f := p], dirs)
    ensures SameUser(mem, mem[f := p], own)
  {
    assert SplitAt(all, own, free, lent, f);
    forall x: nat | x in own ensures x < |mem| && mem[f := p][x] == mem[x] {
      assert FrameOk(mem, dirs, own, x);
    }
    DataOwned(mem, mem[f := p], all, dirs, own, free, lent);
  }

  // ----- new directories and tables -----

  lemma DirsDistinct(mem: Memory, all: set<nat>, dirs: set<nat>, own: map<nat, Use>, free: seq<nat>, lent: set<nat>, d: nat)
    requires Owned(mem, all, dirs, own, free, lent) && d in dirs
    ensures d in own && own[d] == Directory(d) && 0 < d < |mem| && d !in lent && d !in free
  {
    assert UseOk(mem, dirs, own, Directory(d)) && FrameOk(mem, dirs, own, d);
    assert SplitAt(all, own, free, lent, d);
  }

  // A zeroed page becomes an empty directory.
  lemma AddDirectory(mem: Memory, all: set<nat>, dirs: set<nat>, own: map<nat, Use>, free: seq<nat>, lent: set<nat>, d: nat)
    requires Owned(mem, all, dirs, own, free, lent) && d in lent && d < |mem| && mem[d] == Filled(0)
    ensures d !in dirs && d !in own && Owned(mem, all, dirs + {d}, own[d := Directory(d)], free, lent - {d})
    ensures forall x: nat :: Pde(mem, d, x) == 0
    ensures forall v: nat :: v < PAGES ==> Pte(mem, d, v) == 0
  {
    var dirs', own' := dirs + {d}, own[d := Directory(d)];
    assert SplitAt(all, own, free, lent, d) && UseOk(mem, dirs, own, Directory(d));
    forall x: nat ensures Pde(mem, d, x) == 0 {
      if x < NPDENTRIES { ZeroPageEntries(x); }
    }
    forall u: Use ensures UseOk(mem, dirs', own', u) {
      assert UseOk(mem, dirs, own, u);
    }
    forall f: nat | f in own' ensures FrameOk(mem, dirs', own', f) {
      if f != d { assert FrameOk(mem, dirs, own, f); }
    }
    forall f: nat ensures SplitAt(all, own', free, lent - {d}, f) {
      assert SplitAt(all, own, free, lent, f);
    }
  }

  // The memory when a new page table t is put at entry x of directory d.
  ghost function WithTable(mem: Memory, d: nat, x: nat, t: nat): (r: Memory)
    requires d < |mem| && t < |mem| <= USER && x < NPDENTRIES
    ensures |r| == |mem|
  {
    MakeEntryFits(t, 6);
    mem[t := Filled(0)][d := WithEntry(mem[d], x, MakeEntry(t, 6))]
  }

  lemma TablePde(mem: Memory, d: nat, x: nat, t: nat, e: nat, y: nat)
    requires d < |mem| && t < |mem| <= USER && x < NPDENTRIES && d != t && e != t
    ensures Pde(WithTable(mem, d, x, t), e, y) == if e == d && y == x then MakeEntry(t, 6) else Pde(mem, e, y)
  {
    MakeEntryFits(t, 6);
    if y < NPDENTRIES {
      WithEntryEntries(mem[d], x, MakeEntry(t, 6), y);
    }
  }

  lemma TablePte(mem: Memory, all: set<nat>, dirs: set<nat>, own: map<nat, Use>, free: seq<nat>, lent: set<nat>,
      d: nat, x: nat, t: nat, e: nat, v: nat)
    requires Owned(mem, all, dirs, own, free, lent) && d in dirs && x < NPDENTRIES && t in lent
    requires !Present(Pde(mem, d, x)) && e in dirs && v < PAGES
    ensures d < |mem| && t < |mem| && SameAt(mem, WithTable(mem, d, x, t), e, v)
  {
    DirsDistinct(mem, all, dirs, own, free, lent, d);
    DirsDistinct(mem, all, dirs, own, free, lent, e);
    assert SplitAt(all, own, free, lent, t);
    TablePde(mem, d, x, t, e, v / NENTRIES);
    assert UseOk(mem, dirs, own, Table(e, v / NENTRIES));
    ZeroPageEntries(v % NENTRIES);
  }

  lemma AddTable(mem: Memory, all: set<nat>, dirs: set<nat>, own: map<nat, Use>, free: seq<nat>, lent: set<nat>, d: nat, x: nat, t: nat)
    requires Owned(mem, all, dirs, own, free, lent) && d in dirs && x < NPDENTRIES && t in lent && !Present(Pde(mem, d, x))
    ensures t !in own && 0 < t < |mem| && d < |mem| && d != t && t in all && t !in free
    ensures var mem' := WithTable(mem, d, x, t);
      && Owned(mem', all, dirs, own[t := Table(d, x)], free, lent - {t})
      && SameSpaces(mem, mem', dirs) && SameUser(mem, mem', own) && TableOf(mem', d, x) == t
      && forall f: nat :: f in free && f < |mem| ==> mem'[f] == mem[f]
  {
    DirsDistinct(mem, all, dirs, own, free, lent, d);
    assert SplitAt(all, own, free, lent, t);
    var mem', own' := WithTable(mem, d, x, t), own[t := Table(d, x)];
    forall e: nat, v: nat | e in dirs && v < PAGES ensures SameAt(mem, mem', e, v) {
      TablePte(mem, all, dirs, own, free, lent, d, x, t, e, v);
    }
    forall e: nat, y: nat | e in dirs
      ensures Pde(mem', e, y) == if e == d && y == x then MakeEntry(t, 6) else Pde(mem, e, y)
    {
      DirsDistinct(mem, all, dirs, own, free, lent, e);
      TablePde(mem, d, x, t, e, y);
    }
    forall u: Use ensures UseOk(mem', dirs, own', u) {
      assert UseOk(mem, dirs, own, u);
      if u.User? { assert u.v < USER && u.dir in dirs ==> SameAt(mem, mem', u.dir, u.v); }
    }
    forall f: nat | f in own' ensures FrameOk(mem', dirs, own', f) {
      if f != t {
        assert FrameOk(mem, dirs, own, f);
        if own[f].User? { assert SameAt(mem, mem', own[f].dir, own[f].v); }
      }
    }
    forall f: nat ensures SplitAt(all, own', free, lent - {t}, f) {
      assert SplitAt(all, own, free, lent, f);
    }
  }

  // ----- page table entries -----

  // The memory when the entry of page v of directory d is w.
  ghost function WithPte(mem: Memory, d: nat, v: nat, w: nat): (r: Memory)
    requires 0 < TableOf(mem, d, v / NENTRIES) < |mem| && w < WORD
    ensures |r| == |mem|
  {
    var t := TableOf(mem, d, v / NENTRIES);
    mem[t := WithEntry(mem[t], v % NENTRIES, w)]
  }

  // Exactly the entry of page v changes.
  lemma SetPte(mem: Memory, all: set<nat>, dirs: set<nat>, own: map<nat, Use>, free: seq<nat>, lent: set<nat>,
      d: nat, v: nat, w: nat, e: nat, u: nat)
    requires Owned(mem, all, dirs, own, free, lent) && d in dirs && v < PAGES && w < WORD
    requires Present(Pde(mem, d, v / NENTRIES)) && e in dirs && u < PAGES
    ensures 0 < TableOf(mem, d, v / NENTRIES) < |mem|
    ensures Pte(WithPte(mem, d, v, w), e, u) == if e == d && u == v then w else Pte(mem, e, u)
    ensures Pde(WithPte(mem, d, v, w), e, u) == Pde(mem, e, u)
  {
    var x, y := v / NENTRIES, u / NENTRIES;
    var t := TableOf(mem, d, x);
    DirsDistinct(mem, all, dirs, own, free, lent, e);
    assert UseOk(mem, dirs, own, Table(d, x)) && UseOk(mem, dirs, own, Table(e, y));
    assert FrameOk(mem, dirs, own, t);
    assert v == x * NENTRIES + v % NENTRIES && u == y * NENTRIES + u % NENTRIES;
    WithEntryEntries(mem[t], v % NENTRIES, w, u % NENTRIES);
    var mem' := WithPte(mem, d, v, w);
    assert mem'[e] == mem[e];
  }

  // After SetPte(): the entry of page v is w, all others are as before.
  ghost predicate OnePte(mem: Memory, mem': Memory, dirs: set<nat>, d: nat, v: nat, w: nat) {
    && |mem'| == |mem|
    && (forall e: nat, y: nat :: e in dirs ==> Pde(mem', e, y) == Pde(mem, e, y))
    && forall e: nat, u: nat :: e in dirs && u < PAGES ==> OneAt(mem, mem', d, v, w, e, u)
  }

  ghost predicate OneAt(mem: Memory, mem': Memory, d: nat, v: nat, w: nat, e: nat, u: nat) {
    Pte(mem', e, u) == if e == d && u == v then w else Pte(mem, e, u)
  }

  lemma SetOnePte(mem: Memory, all: set<nat>, dirs: set<nat>, own: map<nat, Use>, free: seq<nat>, lent: set<nat>, d: nat, v: nat, w: nat)
    requires Owned(mem, all, dirs, own, free, lent) && d in dirs && v < PAGES && w < WORD
    requires Present(Pde(mem, d, v / NENTRIES))
    ensures 0 < TableOf(mem, d, v / NENTRIES) < |mem|
    ensures OnePte(mem, WithPte(mem, d, v, w), dirs, d, v, w)
    ensures TableOf(mem, d, v / NENTRIES) in own && own[TableOf(mem, d, v / NENTRIES)] == Table(d, v / NENTRIES)
    ensures SameUser(mem, WithPte(mem, d, v, w), own)
    ensures forall f: nat :: f in free || f in lent ==> f != TableOf(mem, d, v / NENTRIES)
  {
    assert UseOk(mem, dirs, own, Table(d, v / NENTRIES));
    assert FrameOk(mem, dirs, own, TableOf(mem, d, v / NENTRIES));
    assert SplitAt(all, own, free, lent, TableOf(mem, d, v / NENTRIES));
    var mem' := WithPte(mem, d, v, w);
    forall e: nat, y: nat | e in dirs ensures Pde(mem', e, y) == Pde(mem, e, y) {
      if y < NPDENTRIES { SetPte(mem, all, dirs, own, free, lent, d, v, w, e, y); }
    }
    forall e: nat, u: nat | e in dirs && u < PAGES ensures OneAt(mem, mem', d, v, w, e, u) {
      SetPte(mem, all, dirs, own, free, lent, d, v, w, e, u);
    }
  }

  // A user page that was absent is mapped to a lent frame.
  lemma MapUser(mem: Memory, mem': Memory, all: set<nat>, dirs: set<nat>, own: map<nat, Use>, free: seq<nat>, lent: set<nat>,
      d: nat, v: nat, f: nat, perm: nat)
    requires Owned(mem, all, dirs, own, free, lent) && d in dirs && v < USER && f in lent && perm < PGSIZE
    requires !Present(Pte(mem, d, v)) && OnePte(mem, mem', dirs, d, v, MakeEntry(f, perm))
    ensures f !in own && Owned(mem', all, dirs, own[f := User(d, v)], free, lent - {f})
  {
    var own' := own[f := User(d, v)];
    assert SplitAt(all, own, free, lent, f);
    forall u: Use ensures UseOk(mem', dirs, own', u) {
      assert UseOk(mem, dirs, own, u);
      if u.User? { assert u.v < USER && u.dir in dirs ==> OneAt(mem, mem', d, v, MakeEntry(f, perm), u.dir, u.v); }
    }
    forall g: nat | g in own' ensures FrameOk(mem', dirs, own', g) {
      if g == f {
        assert OneAt(mem, mem', d, v, MakeEntry(f, perm), d, v);
      } else {
        assert FrameOk(mem, dirs, own, g);
        if own[g].User? { assert OneAt(mem, mem', d, v, MakeEntry(f, perm), own[g].dir, own[g].v); }
      }
    }
    forall g: nat ensures SplitAt(all, own', free, lent - {f}, g) {
      assert SplitAt(all, own, free, lent, g);
    }
  }

  // The entry of a kernel page is not one of an owned frame.
  lemma MapKernel(mem: Memory, mem': Memory, all: set<nat>, dirs: set<nat>, own: map<nat, Use>, free: seq<nat>, lent: set<nat>,
      d: nat, v: nat, w: nat)
    requires Owned(mem, all, dirs, own, free, lent) && USER <= v && OnePte(mem, mem', dirs, d, v, w)
    ensures Owned(mem', all, dirs, own, free, lent)
  {
    forall e: nat, u: nat | e in dirs && u < USER ensures SameAt(mem, mem', e, u) {
      assert OneAt(mem, mem', d, v, w, e, u);
    }
    SameOwned(mem, mem', all, dirs, own, free, lent);
  }

  // Other flags for a mapped user page.
  lemma RemapUser(mem: Memory, mem': Memory, all: set<nat>, dirs: set<nat>, own: map<nat, Use>, free: seq<nat>, lent: set<nat>,
      d: nat, v: nat, w: nat)
    requires Owned(mem, all, dirs, own, free, lent) && OnePte(mem, mem', dirs, d, v, w)
    requires Present(w) <==> Present(Pte(mem, d, v))
    requires FrameOf(w) == FrameOf(Pte(mem, d, v))
    ensures Owned(mem', all, dirs, own, free, lent)
  {
    forall u: Use ensures UseOk(mem', dirs, own, u) {
      assert UseOk(mem, dirs, own, u);
      if u.User? { assert u.v < USER && u.dir in dirs ==> OneAt(mem, mem', d, v, w, u.dir, u.v); }
    }
    forall g: nat | g in own ensures FrameOk(mem', dirs, own, g) {
      assert FrameOk(mem, dirs, own, g);
      if own[g].User? { assert OneAt(mem, mem', d, v, w, own[g].dir, own[g].v); }
    }
  }

  // A user page that was mapped is absent: its frame is lent.
  lemma UnmapUser(mem: Memory, mem': Memory, all: set<nat>, dirs: set<nat>, own: map<nat, Use>, free: seq<nat>, lent: set<nat>,
      d: nat, v: nat)
    requires Owned(mem, all, dirs, own, free, lent) && d in dirs && v < USER
    requires Present(Pte(mem, d, v)) && OnePte(mem, mem', dirs, d, v, 0)
    ensures var f := FrameOf(Pte(mem, d, v));
      && f in own && own[f] == User(d, v) && f !in lent && f !in free
      && Owned(mem', all, dirs, own - {f}, free, lent + {f})
  {
    var f := FrameOf(Pte(mem, d, v));
    var own' := own - {f};
    assert UseOk(mem, dirs, own, User(d, v));
    assert SplitAt(all, own, free, lent, f);
    forall u: Use ensures UseOk(mem', dirs, own', u) {
      assert UseOk(mem, dirs, own, u);
      if u.User? { assert u.v < USER && u.dir in dirs ==> OneAt(mem, mem', d, v, 0, u.dir, u.v); }
    }
    forall g: nat | g in own' ensures FrameOk(mem', dirs, own', g) {
      assert FrameOk(mem, dirs, own, g);
      if own[g].User? { assert OneAt(mem, mem', d, v, 0, own[g].dir, own[g].v); }
    }
    forall g: nat ensures SplitAt(all, own', free, lent + {f}, g) {
      assert SplitAt(all, own, free, lent, g);
    }
  }

  // ----- whole address spaces -----

  // The owned frames that are not of directory d.
  ghost function NotOf(own: map<nat, Use>, d: nat): (r: map<nat, Use>) {
    map f | f in own && own[f].dir != d :: own[f]
  }

  // The directory and its page tables.
  ghost function TablesOf(own: map<nat, Use>, d: nat): (r: set<nat>) {
    set f | f in own && own[f].dir == d
  }

  // A directory without user pages is taken apart: it and its tables are lent.
  lemma DropDirectory(mem: Memory, all: set<nat>, dirs: set<nat>, own: map<nat, Use>, free: seq<nat>, lent: set<nat>, d: nat)
    requires Owned(mem, all, dirs, own, free, lent) && d in dirs
    ensures Owned(mem, all, dirs - {d}, NotOf(own, d), free, lent + TablesOf(own, d))
  {
    var dirs', own', lent' := dirs - {d}, NotOf(own, d), lent + TablesOf(own, d);
    forall u: Use ensures UseOk(mem, dirs', own', u) {
      assert UseOk(mem, dirs, own, u);
    }
    forall f: nat | f in own' ensures FrameOk(mem, dirs', own', f) {
      assert FrameOk(mem, dirs, own, f);
    }
    forall f: nat ensures SplitAt(all, own', free, lent', f) {
      assert SplitAt(all, own, free, lent, f);
    }
  }
}
