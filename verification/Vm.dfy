// The address spaces of vm.c on the pages of kalloc.c.
module Vm {
  import opened Blocks
  import opened PageFrames
  import opened PageTables

  const PTE_W: nat := 2
  const PTE_U: nat := 4

  // PGROUNDUP, as a page number.
  function PageUp(sz: nat): (v: nat) { (sz + PGSIZE - 1) / PGSIZE }

  // The pages from v on below address sz.
  lemma PageUpBelow(sz: nat, v: nat)
    ensures v < PageUp(sz) <==> v * PGSIZE < sz
  {
  }

  // own' has the frames of own, and more for directory d.
  ghost predicate Extends(own: map<nat, Use>, own': map<nat, Use>, d: nat) {
    && (forall f :: f in own ==> f in own' && own'[f] == own[f])
    && (forall f :: f in own' && f !in own ==> own'[f].dir == d)
  }

  // The lent pages have the same contents.
  ghost predicate SameLent(mem: Memory, mem': Memory, lent: set<nat>) {
    |mem'| == |mem| && forall f: nat :: f in lent && f < |mem| ==> mem'[f] == mem[f]
  }

  // An address space: the page table entry of every page.
  ghost function Space(mem: Memory, d: nat): (s: seq<nat>)
    ensures |s| == PAGES
  {
    seq(PAGES, v requires 0 <= v < PAGES => Pte(mem, d, v))
  }

  ghost function Spaces(mem: Memory, dirs: set<nat>): (m: map<nat, seq<nat>>)
    ensures m.Keys == dirs && forall d :: d in dirs ==> |m[d]| == PAGES
  {
    map d | d in dirs :: Space(mem, d)
  }

  // The spaces with entry v of directory d replaced.
  ghost function PutAt(m: map<nat, seq<nat>>, d: nat, v: nat, w: nat): (r: map<nat, seq<nat>>)
    requires d in m && v < |m[d]|
  {
    var s: seq<nat> := m[d][v := w];
    m[d := s]
  }

  lemma SpacesEqual(mem: Memory, mem': Memory, dirs: set<nat>)
    requires SameSpaces(mem, mem', dirs)
    ensures Spaces(mem', dirs) == Spaces(mem, dirs)
  {
    forall d | d in dirs ensures Space(mem', d) == Space(mem, d) {
      forall v: nat | v < PAGES ensures Space(mem', d)[v] == Space(mem, d)[v] {
        assert SameAt(mem, mem', d, v);
      }
    }
  }

  lemma SpacesSet(mem: Memory, mem': Memory, dirs: set<nat>, d: nat, v: nat, w: nat)
    requires OnePte(mem, mem', dirs, d, v, w) && d in dirs && v < PAGES
    ensures Spaces(mem', dirs) == PutAt(Spaces(mem, dirs), d, v, w)
  {
    forall e | e in dirs ensures Space(mem', e) == if e == d then Space(mem, d)[v := w] else Space(mem, e) {
      forall u: nat | u < PAGES ensures Space(mem', e)[u] == if e == d && u == v then w else Space(mem, e)[u] {
        assert OneAt(mem, mem', d, v, w, e, u);
      }
    }
  }

  lemma TableLent(mem: Memory, all: set<nat>, dirs: set<nat>, own: map<nat, Use>, free: seq<nat>, lent: set<nat>, d: nat, x: nat, t: nat)
    requires Owned(mem, all, dirs, own, free, lent + {t}) && d in dirs && x < NPDENTRIES && t !in lent
    ensures t < |mem| && d < |mem| && SameLent(mem, WithTable(mem, d, x, t), lent)
  {
    DirsDistinct(mem, all, dirs, own, free, lent + {t}, d);
    assert SplitAt(all, own, free, lent + {t}, t);
  }

  // The state of the machine at some time.
  datatype Snap = Snap(mem: Memory, own: map<nat, Use>, free: seq<nat>, lent: set<nat>, misses: nat)

  // From s to t, directory d gained frames and user data stayed.
  ghost predicate Grew(s: Snap, t: Snap, d: nat) {
    && Extends(s.own, t.own, d) && SameUser(s.mem, t.mem, s.own) && SameLent(s.mem, t.mem, s.lent)
    && (forall f :: f in t.free ==> f in s.free)
    && (forall f :: f in s.lent ==> f in t.lent || (f in t.own && t.own[f].User?))
  }

  lemma GrewTwice(s: Snap, t: Snap, u: Snap, d: nat)
    requires Grew(s, t, d) && Grew(t, u, d)
    ensures Grew(s, u, d)
  {
  }

  // The space s with k pages from v0 on mapped to the frames from f0 on.
  ghost function Mapped(s: seq<nat>, v0: nat, k: nat, f0: nat, perm: nat): (r: seq<nat>)
    requires v0 + k <= |s| && perm < PGSIZE
    ensures |r| == |s|
  {
    if k == 0 then s else Mapped(s, v0, k - 1, f0, perm)[v0 + k - 1 := MakeEntry(f0 + k - 1, perm)]
  }

  lemma {:induction false} MappedAt(s: seq<nat>, v0: nat, k: nat, f0: nat, perm: nat, u: nat)
    requires v0 + k <= |s| && perm < PGSIZE && u < |s|
    ensures Mapped(s, v0, k, f0, perm)[u] == if v0 <= u < v0 + k then MakeEntry(f0 + (u - v0), perm) else s[u]
  {
    if k > 0 {
      MappedAt(s, v0, k - 1, f0, perm, u);
    }
  }

  // The spaces when k pages of directory d are mapped.
  ghost function MapIn(m: map<nat, seq<nat>>, d: nat, v0: nat, k: nat, f0: nat, perm: nat): (r: map<nat, seq<nat>>)
    requires d in m && v0 + k <= |m[d]| && perm < PGSIZE
  {
    m[d := Mapped(m[d], v0, k, f0, perm)]
  }

  lemma MapInStep(m: map<nat, seq<nat>>, d: nat, v0: nat, k: nat, f0: nat, perm: nat)
    requires d in m && v0 + k < |m[d]| && perm < PGSIZE
    ensures PutAt(MapIn(m, d, v0, k, f0, perm), d, v0 + k, MakeEntry(f0 + k, perm)) == MapIn(m, d, v0, k + 1, f0, perm)
    ensures MapIn(m, d, v0, 0, f0, perm) == m
    ensures MapIn(m, d, v0, k, f0, perm)[d][v0 + k] == m[d][v0 + k]
  {
    MappedAt(m[d], v0, k, f0, perm, v0 + k);
  }

  lemma MapInOne(m: map<nat, seq<nat>>, d: nat, v: nat, k: nat, f0: nat, perm: nat)
    requires d in m && v < |m[d]| && perm < PGSIZE && k <= 1
    ensures MapIn(m, d, v, k, f0, perm) == if k == 0 then m else PutAt(m, d, v, MakeEntry(f0, perm))
    ensures Taken(v, k, f0) == if k == 0 || v >= USER then {} else {f0}
  {
    assert Mapped(m[d], v, 0, f0, perm) == m[d];
    assert Taken(v, 0, f0) == {};
  }

  // Pages a to last are absent, and the frames for the user pages among them lent.
  ghost predicate Mappable(sp: seq<nat>, a: nat, last: nat, f0: nat, lent: set<nat>) {
    && last < |sp| && last < PAGES && f0 + (last - a) < PAGES
    && (forall u: nat :: a <= u <= last ==> !Present(sp[u]))
    && forall f: nat :: f0 <= f <= f0 + (last - a) && a + (f - f0) < USER ==> f in lent
  }

  // The frames from f0 on that k pages from v0 on take, if they are user pages.
  ghost function Taken(v0: nat, k: nat, f0: nat): (r: set<nat>) {
    if k == 0 then {} else Taken(v0, k - 1, f0) + (if v0 + k - 1 < USER then {f0 + k - 1} else {})
  }

  lemma {:induction false} TakenBelow(v0: nat, k: nat, f0: nat, f: nat)
    requires f in Taken(v0, k, f0)
    ensures f0 <= f < f0 + k
  {
    if f in Taken(v0, k - 1, f0) {
      TakenBelow(v0, k - 1, f0, f);
    }
  }

  lemma NotTaken(v0: nat, k: nat, f0: nat, lent: set<nat>)
    ensures f0 + k !in Taken(v0, k, f0)
    ensures v0 + k < USER ==> lent - Taken(v0, k, f0) - {f0 + k} == lent - Taken(v0, k + 1, f0)
    ensures v0 + k >= USER ==> lent - Taken(v0, k, f0) == lent - Taken(v0, k + 1, f0)
  {
    if f0 + k in Taken(v0, k, f0) {
      TakenBelow(v0, k, f0, f0 + k);
    }
  }

  // The next page a of a run that has k pages mapped.
  lemma MapNext(m: map<nat, seq<nat>>, lent: set<nat>, d: nat, v0: nat, last: nat, k: nat, f0: nat, perm: nat, a: nat, f: nat)
    requires d in m && v0 <= a <= last && a == v0 + k && f == f0 + k && perm < PGSIZE
    requires Mappable(m[d], v0, last, f0, lent)
    ensures var m1, taken := MapIn(m, d, v0, k, f0, perm), lent - Taken(v0, k, f0);
      && a < PAGES && f < PAGES && !Present(m1[d][a]) && (a < USER ==> f in taken)
      && PutAt(m1, d, a, MakeEntry(f, perm)) == MapIn(m, d, v0, k + 1, f0, perm)
      && (if a < USER then taken - {f} else taken) == lent - Taken(v0, k + 1, f0)
  {
    MapInStep(m, d, v0, k, f0, perm);
    NotTaken(v0, k, f0, lent);
  }

  // ----- deallocuvm() -----

  // The space s when the present pages from lo on and below hi are unmapped.
  ghost function Cleared(s: seq<nat>, lo: nat, hi: nat): (r: seq<nat>)
    requires hi <= |s|
    ensures |r| == |s|
  {
    if hi <= lo then s
    else
      var r := Cleared(s, lo, hi - 1);
      if Present(r[hi - 1]) then r[hi - 1 := 0] else r
  }

  lemma {:induction false} ClearedAt(s: seq<nat>, lo: nat, hi: nat, u: nat)
    requires hi <= |s| && u < |s|
    ensures Cleared(s, lo, hi)[u] == if lo <= u < hi && Present(s[u]) then 0 else s[u]
  {
    if lo < hi {
      ClearedAt(s, lo, hi - 1, u);
      ClearedAt(s, lo, hi - 1, hi - 1);
    }
  }

  ghost function ClearIn(m: map<nat, seq<nat>>, d: nat, lo: nat, hi: nat): (r: map<nat, seq<nat>>)
    requires d in m && hi <= |m[d]|
  {
    m[d := Cleared(m[d], lo, hi)]
  }

  // The owners without the user pages from lo on and below hi of directory d.
  ghost function Keep(own: map<nat, Use>, d: nat, lo: nat, hi: nat): (r: map<nat, Use>) {
    map f | f in own && !(own[f].User? && own[f].dir == d && lo <= own[f].v < hi) :: own[f]
  }

  // Unmapping page v, and then a stretch of absent pages.
  lemma ClearStep(m: map<nat, seq<nat>>, d: nat, lo: nat, v: nat)
    requires d in m && lo <= v < |m[d]|
    ensures ClearIn(m, d, lo, v)[d][v] == m[d][v]
    ensures ClearIn(m, d, lo, v + 1) ==
      if Present(m[d][v]) then PutAt(ClearIn(m, d, lo, v), d, v, 0) else ClearIn(m, d, lo, v)
    ensures ClearIn(m, d, lo, lo) == m
  {
    ClearedAt(m[d], lo, v, v);
  }

  lemma {:induction false} ClearSkip(m: map<nat, seq<nat>>, d: nat, lo: nat, v: nat, h: nat)
    requires d in m && lo <= v <= h <= |m[d]|
    requires forall u :: v <= u < h ==> !Present(m[d][u])
    ensures ClearIn(m, d, lo, h) == ClearIn(m, d, lo, v)
    decreases h - v
  {
    if v < h {
      ClearSkip(m, d, lo, v, h - 1);
      ClearStep(m, d, lo, h - 1);
    }
  }

  // Absent pages own no frames.
  lemma KeepAbsent(mem: Memory, all: set<nat>, dirs: set<nat>, own: map<nat, Use>, free: seq<nat>, lent: set<nat>,
      own0: map<nat, Use>, d: nat, lo: nat, v: nat, h: nat)
    requires Owned(mem, all, dirs, own, free, lent) && own == Keep(own0, d, lo, v) && v <= h && lo <= v
    requires forall u: nat :: v <= u < h ==> !Present(Pte(mem, d, u))
    ensures own == Keep(own0, d, lo, h)
  {
    forall f | f in own0 && f in own ensures f in Keep(own0, d, lo, h) {
      assert FrameOk(mem, dirs, own, f);
    }
  }

  lemma KeepPresent(mem: Memory, all: set<nat>, dirs: set<nat>, own: map<nat, Use>, free: seq<nat>, lent: set<nat>,
      own0: map<nat, Use>, d: nat, lo: nat, v: nat)
    requires Owned(mem, all, dirs, own, free, lent) && own == Keep(own0, d, lo, v) && lo <= v
    requires d in dirs && v < USER && Present(Pte(mem, d, v))
    ensures own - {FrameOf(Pte(mem, d, v))} == Keep(own0, d, lo, v + 1)
  {
    var f0 := FrameOf(Pte(mem, d, v));
    assert UseOk(mem, dirs, own, User(d, v));
    var x, y := own - {f0}, Keep(own0, d, lo, v + 1);
    forall f | f in own && own[f] == User(d, v) ensures f == f0 {
      assert FrameOk(mem, dirs, own, f);
    }
    assert forall f :: f in x <==> f in y;
    assert forall f :: f in x ==> x[f] == y[f];
  }

  // Without a page table, no page of its range is present.
  lemma NoTable(mem: Memory, d: nat, v: nat, u: nat)
    requires !Present(Pde(mem, d, v / NENTRIES)) && u / NENTRIES == v / NENTRIES
    ensures Pte(mem, d, u) == 0
  {
  }

  // deallocuvm() goes on after the range of an absent page table: it misses no page.
  lemma SkipTable(mem: Memory, all: set<nat>, dirs: set<nat>, own: map<nat, Use>, free: seq<nat>, lent: set<nat>,
      own0: map<nat, Use>, m: map<nat, seq<nat>>, d: nat, lo: nat, v: nat, h: nat)
    requires Owned(mem, all, dirs, own, free, lent) && d in dirs && own == Keep(own0, d, lo, v)
    requires d in m && |m[d]| == PAGES && lo <= v <= h <= USER && h <= (v / NENTRIES + 1) * NENTRIES
    requires Spaces(mem, dirs) == ClearIn(m, d, lo, v) && !Present(Pde(mem, d, v / NENTRIES))
    ensures Spaces(mem, dirs) == ClearIn(m, d, lo, h) && own == Keep(own0, d, lo, h)
  {
    forall u: nat | v <= u < h ensures !Present(Pte(mem, d, u)) && !Present(m[d][u]) {
      NoTable(mem, d, v, u);
      ClearedAt(m[d], lo, v, u);
      assert Spaces(mem, dirs)[d][u] == Pte(mem, d, u);
    }
    ClearSkip(m, d, lo, v, h);
    KeepAbsent(mem, all, dirs, own, free, lent, own0, d, lo, v, h);
  }

  // ----- freevm() -----

  // Directory d and its page tables from entry i on.
  ghost function Rest(own: map<nat, Use>, d: nat, i: nat): (r: set<nat>) {
    set f | f in own && own[f].dir == d && (own[f].Directory? || (own[f].Table? && own[f].x >= i))
  }

  lemma RestStep(mem: Memory, all: set<nat>, dirs: set<nat>, own: map<nat, Use>, free: seq<nat>, lent: set<nat>, d: nat, i: nat)
    requires Owned(mem, all, dirs, own, free, lent) && d in dirs && i < NPDENTRIES
    ensures var w := Pde(mem, d, i);
      && (Present(w) ==> FrameOf(w) in Rest(own, d, i) && FrameOf(w) != d && FrameOf(w) !in lent)
      && (Present(w) ==> Rest(own, d, i) - {FrameOf(w)} == Rest(own, d, i + 1))
      && (!Present(w) ==> Rest(own, d, i) == Rest(own, d, i + 1))
  {
    var w := Pde(mem, d, i);
    assert UseOk(mem, dirs, own, Table(d, i)) && UseOk(mem, dirs, own, Directory(d));
    assert SplitAt(all, own, free, lent, FrameOf(w));
    forall f | f in own && own[f] == Table(d, i) ensures Present(w) && f == FrameOf(w) {
      assert FrameOk(mem, dirs, own, f);
    }
  }

  lemma RestEnds(mem: Memory, all: set<nat>, dirs: set<nat>, own: map<nat, Use>, free: seq<nat>, lent: set<nat>, d: nat, own0: map<nat, Use>)
    requires Owned(mem, all, dirs, own, free, lent) && d in dirs && own == Keep(own0, d, 0, USER)
    requires forall f :: f in own0 && own0[f].User? ==> own0[f].v < USER
    ensures Rest(own, d, NPDENTRIES) == {d} && d !in lent
    ensures Rest(own, d, 0) == TablesOf(own, d) && NotOf(own, d) == NotOf(own0, d)
  {
    assert UseOk(mem, dirs, own, Directory(d)) && SplitAt(all, own, free, lent, d);
    forall f | f in own && own[f].dir == d ensures !own[f].User? && (f == d || (own[f].Table? && own[f].x < NPDENTRIES)) {
      assert FrameOk(mem, dirs, own, f);
    }
  }

  lemma UsersBelow(mem: Memory, all: set<nat>, dirs: set<nat>, own: map<nat, Use>, free: seq<nat>, lent: set<nat>)
    requires Owned(mem, all, dirs, own, free, lent)
    ensures forall f :: f in own && own[f].User? ==> own[f].v < USER
  {
    forall f | f in own && own[f].User? ensures own[f].v < USER {
      assert FrameOk(mem, dirs, own, f);
    }
  }

  // The spaces of the other directories.
  lemma SpacesDrop(mem: Memory, dirs: set<nat>, d: nat)
    ensures Spaces(mem, dirs - {d}) == Spaces(mem, dirs) - {d}
  {
  }

  // kfree() of the frame of page v, and its entry cleared.
  lemma UnmapFreed(mem: Memory, p: Page, all: set<nat>, dirs: set<nat>, own: map<nat, Use>, free: seq<nat>, lent: set<nat>, d: nat, v: nat)
    requires Owned(mem, all, dirs, own, free, lent) && d in dirs && v < USER && Present(Pte(mem, d, v))
    ensures var f, t := FrameOf(Pte(mem, d, v)), TableOf(mem, d, v / NENTRIES);
      && 0 < f < |mem| && f != t && 0 < t < |mem| && TableOf(mem[f := p], d, v / NENTRIES) == t
      && var mem2 := WithPte(mem[f := p], d, v, 0);
      && Owned(mem2, all, dirs, own - {f}, [f] + free, lent)
      && Spaces(mem2, dirs) == PutAt(Spaces(mem, dirs), d, v, 0)
      && SameUser(mem, mem2, own - {f}) && SameLent(mem, mem2, lent)
  {
    var f, t := FrameOf(Pte(mem, d, v)), TableOf(mem, d, v / NENTRIES);
    assert UseOk(mem, dirs, own, User(d, v)) && UseOk(mem, dirs, own, Table(d, v / NENTRIES));
    assert FrameOk(mem, dirs, own, f) && FrameOk(mem, dirs, own, t);
    var mem1 := mem[f := p];
    forall x: nat | x in own && !own[x].User? ensures x < |mem| && mem1[x] == mem[x] {
      assert FrameOk(mem, dirs, own, x);
    }
    DataOwned(mem, mem1, all, dirs, own, free, lent);
    SpacesEqual(mem, mem1, dirs);
    assert SameAt(mem, mem1, d, v);
    SetOnePte(mem1, all, dirs, own, free, lent, d, v, 0);
    var mem2 := WithPte(mem1, d, v, 0);
    SpacesSet(mem1, mem2, dirs, d, v, 0);
    UnmapUser(mem1, mem2, all, dirs, own, free, lent, d, v);
    GiveOwned(mem2, all, dirs, own - {f}, free, lent + {f}, f, mem2[f]);
    assert mem2[f := mem2[f]] == mem2;
    assert lent + {f} - {f} == lent;
  }

  // ----- allocuvm() -----

  // Page u of the space sp: new and zero from lo on and below v, else as in sp0.
  ghost predicate NewAt(sp0: seq<nat>, sp: seq<nat>, mem: Memory, s: Snap, lo: nat, v: nat, u: nat)
    requires u < |sp0| == |sp|
  {
    if lo <= u < v then
      && Flags(sp[u]) == 1 + PTE_W + PTE_U && FrameOf(sp[u]) in s.free
      && FrameOf(sp[u]) < |mem| && mem[FrameOf(sp[u])] == Filled(0)
    else sp[u] == sp0[u]
  }

  ghost predicate NewPages(sp0: seq<nat>, sp: seq<nat>, mem: Memory, s: Snap, lo: nat, v: nat) {
    |sp0| == |sp| && forall u: nat :: u < |sp| ==> NewAt(sp0, sp, mem, s, lo, v, u)
  }

  lemma PutOne(m: map<nat, seq<nat>>, d: nat, sp: seq<nat>, v: nat, w: nat)
    requires v < |sp|
    ensures var r := PutAt(m[d := sp], d, v, w); r[d] == sp[v := w] && r == m[d := r[d]]
  {
  }

  lemma NewKeep(sp0: seq<nat>, mem: Memory, mem': Memory, all: set<nat>, dirs: set<nat>, own: map<nat, Use>, free: seq<nat>, lent: set<nat>,
      s: Snap, d: nat, lo: nat, v: nat)
    requires Owned(mem, all, dirs, own, free, lent) && d in dirs && v <= USER
    requires NewPages(sp0, Space(mem, d), mem, s, lo, v) && SameUser(mem, mem', own)
    ensures NewPages(sp0, Space(mem, d), mem', s, lo, v)
  {
    var sp := Space(mem, d);
    forall u: nat | u < |sp| ensures NewAt(sp0, sp, mem', s, lo, v, u) {
      assert NewAt(sp0, sp, mem, s, lo, v, u);
      if lo <= u < v {
        FrameKept(mem, mem', all, dirs, own, free, lent, d, u);
      }
    }
  }

  lemma PresentFlag(w: nat)
    ensures Present(w) <==> Flags(w) % 2 == 1
  {
  }

  // A user frame keeps its contents.
  lemma FrameKept(mem: Memory, mem': Memory, all: set<nat>, dirs: set<nat>, own: map<nat, Use>, free: seq<nat>, lent: set<nat>, d: nat, u: nat)
    requires Owned(mem, all, dirs, own, free, lent) && d in dirs && u < USER && SameUser(mem, mem', own)
    requires Flags(Space(mem, d)[u]) == 1 + PTE_W + PTE_U
    ensures var f := FrameOf(Space(mem, d)[u]); |mem'| == |mem| && (f < |mem| ==> mem'[f] == mem[f])
  {
    var w := Pte(mem, d, u);
    PresentFlag(w);
    assert Space(mem, d)[u] == w && Present(w);
    assert UseOk(mem, dirs, own, User(d, u));
  }

  // Page v is mapped to the zeroed frame f.
  lemma NewStep(sp0: seq<nat>, mem: Memory, mem': Memory, all: set<nat>, dirs: set<nat>, own: map<nat, Use>, free: seq<nat>, lent: set<nat>,
      s: Snap, d: nat, lo: nat, v: nat, f: nat)
    requires Owned(mem, all, dirs, own, free, lent) && d in dirs && lo <= v < USER
    requires NewPages(sp0, Space(mem, d), mem, s, lo, v) && SameUser(mem, mem', own)
    requires f < |mem'| && mem'[f] == Filled(0) && f in s.free
    ensures var sp: seq<nat> := Space(mem, d)[v := MakeEntry(f, PTE_W + PTE_U)]; NewPages(sp0, sp, mem', s, lo, v + 1)
  {
    NewKeep(sp0, mem, mem', all, dirs, own, free, lent, s, d, lo, v);
    var sp: seq<nat> := Space(mem, d)[v := MakeEntry(f, PTE_W + PTE_U)];
    var v' := v + 1;
    forall u: nat | u < |sp| ensures NewAt(sp0, sp, mem', s, lo, v', u) {
      assert NewAt(sp0, Space(mem, d), mem', s, lo, v, u);
    }
  }

  // The same pages are mapped, to the same frames and with the same flags.
  ghost predicate SameMap(sp0: seq<nat>, sp: seq<nat>) {
    |sp| == |sp0| && forall u: nat :: u < |sp| ==> MapAt(sp0, sp, u)
  }

  ghost predicate MapAt(sp0: seq<nat>, sp: seq<nat>, u: nat)
    requires u < |sp| == |sp0|
  {
    (Present(sp[u]) <==> Present(sp0[u])) && (Present(sp[u]) ==> sp[u] == sp0[u])
  }

  // The frames that hold user pages.
  ghost function Users(own: map<nat, Use>): (r: map<nat, Use>) {
    map f | f in own && own[f].User? :: own[f]
  }

  lemma UndoMap(sp0: seq<nat>, sp: seq<nat>, mem: Memory, s: Snap, lo: nat, v: nat, hi: nat)
    requires NewPages(sp0, sp, mem, s, lo, v) && v <= hi <= |sp|
    requires forall u: nat :: lo <= u < hi ==> !Present(sp0[u])
    ensures SameMap(sp0, Cleared(sp, lo, hi))
  {
    forall u: nat | u < |sp| ensures MapAt(sp0, Cleared(sp, lo, hi), u) {
      assert NewAt(sp0, sp, mem, s, lo, v, u);
      ClearedAt(sp, lo, hi, u);
    }
  }

  // A user frame of directory d that stays after the new pages are gone was there before.
  lemma UndoOld(all: set<nat>, dirs: set<nat>, s: Snap, mem: Memory, own: map<nat, Use>, free: seq<nat>, lent: set<nat>, d: nat, lo: nat, v: nat, hi: nat, f: nat)
    requires Owned(s.mem, all, dirs, s.own, s.free, s.lent) && Owned(mem, all, dirs, own, free, lent) && d in dirs
    requires NewPages(Space(s.mem, d), Space(mem, d), mem, s, lo, v) && v <= hi
    requires f in own && own[f].User? && own[f].dir == d && !(lo <= own[f].v < hi)
    ensures f in s.own
  {
    var u := own[f].v;
    assert FrameOk(mem, dirs, own, f);
    assert NewAt(Space(s.mem, d), Space(mem, d), mem, s, lo, v, u);
    assert Space(s.mem, d)[u] == Space(mem, d)[u];
    assert UseOk(s.mem, dirs, s.own, User(d, u));
  }

  lemma UndoKept(all: set<nat>, dirs: set<nat>, s: Snap, own: map<nat, Use>, d: nat, lo: nat, hi: nat)
    requires Owned(s.mem, all, dirs, s.own, s.free, s.lent) && d in dirs && Extends(s.own, own, d) && hi <= USER
    requires forall u: nat :: lo <= u < hi ==> !Present(Space(s.mem, d)[u])
    ensures Extends(s.own, Keep(own, d, lo, hi), d)
  {
    forall f | f in s.own ensures f in Keep(own, d, lo, hi) {
      assert FrameOk(s.mem, dirs, s.own, f);
      assert s.own[f].User? ==> Present(Space(s.mem, s.own[f].dir)[s.own[f].v]);
    }
  }

  // After the new pages are gone, the user frames are those of before.
  lemma UndoOwn(all: set<nat>, dirs: set<nat>, s: Snap, mem: Memory, own: map<nat, Use>, free: seq<nat>, lent: set<nat>, d: nat, lo: nat, v: nat, hi: nat)
    requires Owned(s.mem, all, dirs, s.own, s.free, s.lent) && Owned(mem, all, dirs, own, free, lent) && d in dirs
    requires Extends(s.own, own, d) && NewPages(Space(s.mem, d), Space(mem, d), mem, s, lo, v) && v <= hi <= USER
    requires forall u: nat :: lo <= u < hi ==> !Present(Space(s.mem, d)[u])
    ensures Extends(s.own, Keep(own, d, lo, hi), d) && Users(Keep(own, d, lo, hi)) == Users(s.own)
  {
    UndoKept(all, dirs, s, own, d, lo, hi);
    var own' := Keep(own, d, lo, hi);
    forall f | f in own' && own'[f].User? ensures f in s.own {
      if own[f].dir == d {
        UndoOld(all, dirs, s, mem, own, free, lent, d, lo, v, hi, f);
      }
    }
    UsersExtend(s.own, own', d);
  }

  lemma UsersExtend(own: map<nat, Use>, own': map<nat, Use>, d: nat)
    requires Extends(own, own', d) && forall f :: f in own' && own'[f].User? ==> f in own
    ensures Users(own') == Users(own)
  {
    assert forall f :: f in Users(own') <==> f in Users(own);
  }

  // ----- setupkvm() and copyuvm() -----

  // A row of kmap: physEnd is 0 for the end of the address space.
  datatype Kmap = Kmap(virt: nat, physStart: nat, physEnd: nat, perm: nat)

  // phys_end - phys_start
  function Size(k: Kmap): (n: nat) { (k.physEnd - k.physStart) % WORD }

  // The pages of a row.
  function FirstPage(k: Kmap): nat { k.virt / PGSIZE }

  function EndPage(k: Kmap): nat { (k.virt + Size(k) + PGSIZE - 1) / PGSIZE }

  ghost predicate InRow(k: Kmap, u: nat) {
    FirstPage(k) <= u < EndPage(k)
  }

  ghost predicate KmapOk(k: Kmap) {
    && k.physEnd < WORD && KERNBASE <= k.virt && 0 < Size(k) && k.virt + Size(k) <= WORD && k.perm < PGSIZE
    && k.physStart % PGSIZE == 0 && k.physStart / PGSIZE + (EndPage(k) - FirstPage(k)) <= PAGES
  }

  ghost predicate KmapsOk(ks: seq<Kmap>) {
    && (forall i: nat :: i < |ks| ==> KmapOk(ks[i]))
    && forall i: nat, j: nat, u: nat :: i < j < |ks| ==> !(InRow(ks[i], u) && InRow(ks[j], u))
  }

  // The address space s with the pages of row k.
  ghost function WithRow(s: seq<nat>, k: Kmap): (r: seq<nat>)
    requires KmapOk(k) && |s| == PAGES
    ensures |r| == PAGES
  {
    Mapped(s, FirstPage(k), EndPage(k) - FirstPage(k), k.physStart / PGSIZE, k.perm)
  }

  lemma WithRowAt(s: seq<nat>, k: Kmap, u: nat)
    requires KmapOk(k) && |s| == PAGES && u < PAGES
    ensures InRow(k, u) ==> WithRow(s, k)[u] == MakeEntry(k.physStart / PGSIZE + (u - FirstPage(k)), k.perm) && u >= USER
    ensures !InRow(k, u) ==> WithRow(s, k)[u] == s[u]
  {
    MappedAt(s, FirstPage(k), EndPage(k) - FirstPage(k), k.physStart / PGSIZE, k.perm, u);
  }

  // The address space with the kernel pages of the first n rows alone.
  ghost function KernelSpace(ks: seq<Kmap>, n: nat): (s: seq<nat>)
    requires KmapsOk(ks) && n <= |ks|
    ensures |s| == PAGES
  {
    if n == 0 then seq(PAGES, _ => 0) else WithRow(KernelSpace(ks, n - 1), ks[n - 1])
  }

  // Each kernel page is mapped as its row says, and no other page is.
  lemma {:induction false} KernelSpaceAt(ks: seq<Kmap>, n: nat, u: nat)
    requires KmapsOk(ks) && n <= |ks| && u < PAGES
    ensures (forall i: nat :: i < n ==> !InRow(ks[i], u)) || u < USER ==> KernelSpace(ks, n)[u] == 0
    ensures forall i: nat :: i < n && InRow(ks[i], u) ==>
      KernelSpace(ks, n)[u] == MakeEntry(ks[i].physStart / PGSIZE + (u - FirstPage(ks[i])), ks[i].perm)
  {
    if n > 0 {
      KernelSpaceAt(ks, n - 1, u);
      WithRowAt(KernelSpace(ks, n - 1), ks[n - 1], u);
    }
  }

  // The virtual addresses of a row.
  ghost predicate Covers(k: Kmap, a: nat) {
    k.virt <= a < k.virt + ((if k.physEnd == 0 then WORD else k.physEnd) - k.physStart)
  }

  lemma CoveredInRow(k: Kmap, a: nat)
    requires KmapOk(k) && Covers(k, a)
    ensures InRow(k, a / PGSIZE) && a / PGSIZE < PAGES
  {
    RowLength(k);
    Quotients(k.virt, a);
    Quotients(a + 1, k.virt + Size(k));
  }

  lemma RowLength(k: Kmap)
    requires KmapOk(k)
    ensures k.physStart + Size(k) == if k.physEnd == 0 then WORD else k.physEnd
  {
    var n, m := k.physEnd - k.physStart, (k.physEnd - k.physStart) / WORD;
    assert n == m * WORD + Size(k);
    assert k.physStart + Size(k) == k.physEnd - m * WORD;
    assert k.physStart + Size(k) <= WORD;
    assert m == 0 || m == -1;
  }

  lemma Quotients(a: nat, b: nat)
    requires a <= b
    ensures a / PGSIZE <= b / PGSIZE && (a + PGSIZE - 1) / PGSIZE <= (b + PGSIZE - 1) / PGSIZE
    ensures a > 0 ==> (a + PGSIZE - 1) / PGSIZE == (a - 1) / PGSIZE + 1
  {
  }

  // The hardware takes every address of an aligned row to the physical address as
  // far into the row's range, with the permissions of the row.
  lemma KernelTranslates(ks: seq<Kmap>, n: nat, i: nat, a: nat)
    requires KmapsOk(ks) && i < n <= |ks| && ks[i].virt % PGSIZE == 0 && Covers(ks[i], a)
    ensures a / PGSIZE < PAGES
    ensures var w: nat := KernelSpace(ks, n)[a / PGSIZE];
            w / PGSIZE * PGSIZE + a % PGSIZE == ks[i].physStart + (a - ks[i].virt)
            && w % 2 == 1 && w % PGSIZE / 2 == ks[i].perm / 2
  {
    CoveredInRow(ks[i], a);
    KernelSpaceAt(ks, n, a / PGSIZE);
  }

  // A page is mapped exactly if one of its addresses is in some row.
  lemma KernelMappedIff(ks: seq<Kmap>, n: nat, u: nat)
    requires KmapsOk(ks) && n <= |ks| && u < PAGES
    ensures KernelSpace(ks, n)[u] != 0 <==> exists i: nat, a: nat :: i < n && a / PGSIZE == u && Covers(ks[i], a)
  {
    KernelSpaceAt(ks, n, u);
    if KernelSpace(ks, n)[u] != 0 {
      var i: nat :| i < n && InRow(ks[i], u);
      var a := if u == FirstPage(ks[i]) then ks[i].virt else u * PGSIZE;
      RowLength(ks[i]);
      assert a / PGSIZE == u && Covers(ks[i], a);
    } else {
      forall i: nat, a: nat | i < n && a / PGSIZE == u ensures !Covers(ks[i], a) {
        if Covers(ks[i], a) {
          CoveredInRow(ks[i], a);
        }
      }
    }
  }

  // kmap as it is: I/O space, kernel text up to the symbol `data`, kernel data and
  // memory up to PHYSTOP, and devices.
  function ShippedKmap(data: nat): (ks: seq<Kmap>)
    requires data > KERNBASE
  {
    [Kmap(0x8000_0000, 0, 0x10_0000, 2), Kmap(0x8010_0000, 0x10_0000, data - KERNBASE, 0),
     Kmap(data, data - KERNBASE, 0xE00_0000, 2), Kmap(0xFE00_0000, 0xFE00_0000, 0, 2)]
  }

  // It is as setupkvm() needs it exactly if `data` begins a page, as the linker
  // script sees to; else the page of `data` is in two rows, and mapping it again panics.
  lemma ShippedKmapOk(data: nat)
    requires 0x8010_0000 < data < 0x8E00_0000
    ensures KmapsOk(ShippedKmap(data)) <==> data % PGSIZE == 0
    ensures var ks, u := ShippedKmap(data), data / PGSIZE; data % PGSIZE == 0 || (InRow(ks[1], u) && InRow(ks[2], u))
  {
    var ks := ShippedKmap(data);
    if data % PGSIZE == 0 {
      forall i: nat | i < |ks| ensures KmapOk(ks[i]) {
        ShippedRow(data, i);
      }
      forall i: nat, j: nat, u: nat | i < j < |ks| ensures !(InRow(ks[i], u) && InRow(ks[j], u)) {
        ShippedRow(data, i);
        ShippedRow(data, j);
      }
    } else {
      assert !KmapOk(ks[2]);
    }
  }

  lemma ShippedRow(data: nat, i: nat)
    requires 0x8010_0000 < data < 0x8E00_0000 && data % PGSIZE == 0 && i < 4
    ensures KmapOk(ShippedKmap(data)[i])
    ensures var k := ShippedKmap(data)[i];
      && FirstPage(k) == [0x8_0000, 0x8_0100, data / PGSIZE, 0xF_E000][i]
      && EndPage(k) == [0x8_0100, data / PGSIZE, 0x8_E000, 0x10_0000][i]
  {
  }

  // Page u of the copy t of space sp: below v a new frame with the contents of
  // the original and the same flags, from there on as in kp.
  ghost predicate CopiedAt(sp: seq<nat>, kp: seq<nat>, t: seq<nat>, s: Snap, mem: Memory, v: nat, u: nat)
    requires u < |t| == |kp| == |sp|
  {
    if u < v then
      && Present(t[u]) && Flags(t[u]) == Flags(sp[u]) && FrameOf(t[u]) in s.free
      && FrameOf(t[u]) < |mem| && FrameOf(sp[u]) < |s.mem| && mem[FrameOf(t[u])] == s.mem[FrameOf(sp[u])]
    else t[u] == kp[u]
  }

  ghost predicate Copied(sp: seq<nat>, kp: seq<nat>, t: seq<nat>, s: Snap, mem: Memory, v: nat) {
    |t| == |kp| == |sp| && forall u: nat :: u < |t| ==> CopiedAt(sp, kp, t, s, mem, v, u)
  }

  lemma CopyKeep(sp: seq<nat>, kp: seq<nat>, mem: Memory, mem': Memory, all: set<nat>, dirs: set<nat>, own: map<nat, Use>, free: seq<nat>, lent: set<nat>,
      s: Snap, nd: nat, v: nat)
    requires Owned(mem, all, dirs, own, free, lent) && nd in dirs && v <= USER
    requires Copied(sp, kp, Space(mem, nd), s, mem, v) && SameUser(mem, mem', own)
    ensures Copied(sp, kp, Space(mem, nd), s, mem', v)
  {
    var t := Space(mem, nd);
    forall u: nat | u < |t| ensures CopiedAt(sp, kp, t, s, mem', v, u) {
      assert CopiedAt(sp, kp, t, s, mem, v, u);
      if u < v {
        assert UseOk(mem, dirs, own, User(nd, u));
      }
    }
  }

  lemma CopyStep(sp: seq<nat>, kp: seq<nat>, mem: Memory, mem': Memory, all: set<nat>, dirs: set<nat>, own: map<nat, Use>, free: seq<nat>, lent: set<nat>,
      s: Snap, nd: nat, v: nat, f: nat)
    requires Owned(mem, all, dirs, own, free, lent) && nd in dirs && v < USER
    requires Copied(sp, kp, Space(mem, nd), s, mem, v) && SameUser(mem, mem', own)
    requires Present(sp[v]) && f < |mem'| && f in s.free && FrameOf(sp[v]) < |s.mem| && mem'[f] == s.mem[FrameOf(sp[v])]
    ensures var t: seq<nat> := Space(mem, nd)[v := MakeEntry(f, Flags(sp[v]))]; Copied(sp, kp, t, s, mem', v + 1)
  {
    CopyKeep(sp, kp, mem, mem', all, dirs, own, free, lent, s, nd, v);
    CopyOne(sp, kp, Space(mem, nd), s, mem', v, v + 1, f);
  }

  lemma CopyOne(sp: seq<nat>, kp: seq<nat>, t: seq<nat>, s: Snap, mem: Memory, v: nat, v': nat, f: nat)
    requires Copied(sp, kp, t, s, mem, v) && v < |t| && v' == v + 1
    requires Present(sp[v]) && f < |mem| && f in s.free && FrameOf(sp[v]) < |s.mem| && mem[f] == s.mem[FrameOf(sp[v])]
    ensures var t': seq<nat> := t[v := MakeEntry(f, Flags(sp[v]))]; Copied(sp, kp, t', s, mem, v')
  {
    var t': seq<nat> := t[v := MakeEntry(f, Flags(sp[v]))];
    forall u: nat | u < |t'| ensures CopiedAt(sp, kp, t', s, mem, v', u) {
      assert CopiedAt(sp, kp, t, s, mem, v, u);
    }
  }

  // Dropping what directory d gained leaves what was before.
  lemma NotOfExtends(mem: Memory, all: set<nat>, dirs: set<nat>, own: map<nat, Use>, free: seq<nat>, lent: set<nat>, own': map<nat, Use>, d: nat)
    requires Owned(mem, all, dirs, own, free, lent) && d !in dirs && Extends(own, own', d)
    ensures NotOf(own', d) == own
  {
    forall f | f in own ensures own[f].dir != d {
      assert FrameOk(mem, dirs, own, f);
    }
    assert forall f :: f in NotOf(own', d) <==> f in own;
  }

  // The same owners leave the same free frames.
  lemma FreeSame(mem: Memory, mem': Memory, all: set<nat>, dirs: set<nat>, own: map<nat, Use>, free: seq<nat>, free': seq<nat>, lent: set<nat>)
    requires Owned(mem, all, dirs, own, free, lent) && Owned(mem', all, dirs, own, free', lent)
    ensures forall f :: f in free' <==> f in free
  {
    forall f: nat ensures f in free' <==> f in free {
      assert SplitAt(all, own, free, lent, f) && SplitAt(all, own, free', lent, f);
    }
  }

  lemma PutTwice(m: map<nat, seq<nat>>, d: nat, s: seq<nat>, t: seq<nat>)
    ensures m[d := s][d := t] == m[d := t]
  {
  }

  lemma AddedSpace(mem: Memory, dirs: set<nat>, d: nat)
    requires d !in dirs && forall v: nat :: v < PAGES ==> Pte(mem, d, v) == 0
    ensures Spaces(mem, dirs + {d}) == Spaces(mem, dirs)[d := seq(PAGES, _ => 0)]
  {
    var zero: seq<nat> := seq(PAGES, _ => 0);
    forall v: nat | v < PAGES ensures Space(mem, d)[v] == zero[v] {
    }
    assert Space(mem, d) == zero;
    forall e | e in dirs ensures Spaces(mem, dirs + {d})[e] == Spaces(mem, dirs)[e] {
    }
  }

  lemma {:induction false} NoneTaken(v0: nat, k: nat, f0: nat)
    requires USER <= v0
    ensures Taken(v0, k, f0) == {}
  {
    if k > 0 {
      NoneTaken(v0, k - 1, f0);
    }
  }

  lemma DropPut(m: map<nat, seq<nat>>, d: nat, s: seq<nat>)
    requires d !in m
    ensures m[d := s] - {d} == m
  {
  }

  // ----- clearpteu() and copyout() -----

  predicate HasU(w: nat) { w / PTE_U % 2 == 1 }

  // w & ~PTE_U
  function WithoutU(w: nat): (r: nat) {
    if HasU(w) then w - PTE_U else w
  }

  // Only the user bit changes.
  lemma WithoutUBits(w: nat)
    ensures !HasU(WithoutU(w)) && FrameOf(WithoutU(w)) == FrameOf(w) && (Present(WithoutU(w)) <==> Present(w))
    ensures Flags(WithoutU(w)) == Flags(w) - if HasU(w) then PTE_U else 0
    ensures WithoutU(w) == w - 4 * (w / 4 % 2)
  {
    var q, x := w / PGSIZE, w % PGSIZE;
    var m, b := x / 8, x % 8;
    LowBits(q, m, b);
    if HasU(w) {
      LowBits(q, m, b - PTE_U);
    }
  }

  lemma LowBits(q: nat, m: nat, b: nat)
    requires b < 8 && m < PGSIZE / 8
    ensures var w := q * PGSIZE + (m * 8 + b);
      w / PGSIZE == q && w % PGSIZE == m * 8 + b && (HasU(w) <==> b >= PTE_U) && w % 2 == b % 2
  {
    var w, k := q * PGSIZE + (m * 8 + b), q * 512 + m;
    assert w == k * 8 + b;
    assert w / PTE_U == 2 * k + b / PTE_U;
  }

  // The byte at user address a of directory e, if it is mapped.
  ghost function UserByte(mem: Memory, e: nat, a: nat): (b: byte) {
    var f := FrameOf(Pte(mem, e, a / PGSIZE));
    if f < |mem| then mem[f][a % PGSIZE] else 0
  }

  // It is the one that the processor reads: e and w are the words that its walk
  // through the directory and the page table finds.
  lemma ProcessorReads(mem: Memory, d: nat, a: nat, e: nat, w: nat)
    requires d < |mem| && a < WORD && e == WordAt(mem[d], 4 * (a / 0x40_0000))
    requires e % 2 == 1 && 0 < e / 0x1000 < |mem| && w == WordAt(mem[e / 0x1000], 4 * (a / 0x1000 % 0x400))
    ensures Present(Pte(mem, d, a / PGSIZE)) <==> w % 2 == 1
    ensures w / 0x1000 < |mem| ==> UserByte(mem, d, a) == mem[w / 0x1000][a % 0x1000]
  {
    ProcessorWalk(mem, d, a, e);
  }

  // What allocuvm() leaves, for each address: from the first page that begins at
  // oldsz or above up to newsz, zeros that the user can read and write; else as before.
  lemma NewPagesRead(sp0: seq<nat>, mem: Memory, s: Snap, d: nat, oldsz: nat, newsz: nat, a: nat)
    requires NewPages(sp0, Space(mem, d), mem, s, PageUp(oldsz), PageUp(newsz)) && a / PGSIZE < PAGES
    ensures var sp, u := Space(mem, d), a / PGSIZE;
      if oldsz <= u * PGSIZE < newsz then sp[u] % PGSIZE == 7 && UserByte(mem, d, a) == 0 else sp[u] == sp0[u]
  {
    var u := a / PGSIZE;
    PageUpBelow(oldsz, u);
    PageUpBelow(newsz, u);
    assert NewAt(sp0, Space(mem, d), mem, s, PageUp(oldsz), PageUp(newsz), u);
  }

  // What deallocuvm() leaves of a mapping.
  lemma ClearedRead(sp: seq<nat>, oldsz: nat, newsz: nat, u: nat)
    requires u < |sp| && PageUp(oldsz) <= |sp|
    ensures Cleared(sp, PageUp(newsz), PageUp(oldsz))[u] == if newsz <= u * PGSIZE < oldsz && sp[u] % 2 == 1 then 0 else sp[u]
  {
    PageUpBelow(oldsz, u);
    PageUpBelow(newsz, u);
    ClearedAt(sp, PageUp(newsz), PageUp(oldsz), u);
  }

  // What copyuvm() leaves, for each user address: up to sz the bytes and flags of
  // the original, in a page that was free; above, nothing.
  lemma CopiedRead(ks: seq<Kmap>, mem: Memory, s: Snap, d: nat, nd: nat, sz: nat, a: nat)
    requires KmapsOk(ks) && sz <= KERNBASE && a < KERNBASE
    requires Copied(Space(s.mem, d), KernelSpace(ks, |ks|), Space(mem, nd), s, mem, PageUp(sz))
    ensures var w, u := Pte(mem, nd, a / PGSIZE), a / PGSIZE;
      if u * PGSIZE < sz then
        && w % 2 == 1 && w % PGSIZE == Pte(s.mem, d, u) % PGSIZE && w / PGSIZE in s.free
        && UserByte(mem, nd, a) == UserByte(s.mem, d, a)
      else w == 0
  {
    var u := a / PGSIZE;
    PageUpBelow(sz, u);
    var kp := KernelSpace(ks, |ks|);
    UserPage(a);
    NoUserPage(ks, kp, u);
    CopiedByte(Space(s.mem, d), kp, mem, s, d, nd, PageUp(sz), a, u);
  }

  lemma UserPage(a: nat)
    requires a < KERNBASE
    ensures a / PGSIZE < USER
  {
  }

  lemma NoUserPage(ks: seq<Kmap>, kp: seq<nat>, u: nat)
    requires KmapsOk(ks) && kp == KernelSpace(ks, |ks|) && u < USER
    ensures kp[u] == 0
  {
    KernelSpaceAt(ks, |ks|, u);
  }

  lemma CopiedByte(sp: seq<nat>, kp: seq<nat>, mem: Memory, s: Snap, d: nat, nd: nat, v: nat, a: nat, u: nat)
    requires sp == Space(s.mem, d) && Copied(sp, kp, Space(mem, nd), s, mem, v) && u == a / PGSIZE < PAGES && v <= PAGES
    ensures u >= v ==> Pte(mem, nd, u) == kp[u]
    ensures u < v ==> UserByte(mem, nd, a) == UserByte(s.mem, d, a)
    ensures u < v ==> Present(Pte(mem, nd, u)) && Flags(Pte(mem, nd, u)) == Flags(Pte(s.mem, d, u)) && FrameOf(Pte(mem, nd, u)) in s.free
  {
    assert CopiedAt(sp, kp, Space(mem, nd), s, mem, v, u);
  }

  // c bytes of buf have been copied to address va of directory d.
  ghost predicate OutAt(mem0: Memory, mem: Memory, d: nat, va: nat, buf: seq<byte>, c: nat, e: nat, a: nat)
    requires c <= |buf|
  {
    Present(Pte(mem, e, a / PGSIZE)) ==>
      UserByte(mem, e, a) == if e == d && va <= a < va + c then buf[a - va] else UserByte(mem0, e, a)
  }

  ghost predicate Out(mem0: Memory, mem: Memory, dirs: set<nat>, d: nat, va: nat, buf: seq<byte>, c: nat) {
    c <= |buf| && forall e: nat, a: nat :: e in dirs && a < KERNBASE ==> OutAt(mem0, mem, d, va, buf, c, e, a)
  }

  // The page of address a is open to the user.
  ghost predicate Open(sp: seq<nat>, a: nat) {
    a / PGSIZE < |sp| && Present(sp[a / PGSIZE]) && HasU(sp[a / PGSIZE])
  }

  ghost predicate AllOpen(sp: seq<nat>, va: nat, c: nat) {
    forall a: nat :: va <= a < va + c ==> Open(sp, a)
  }

  lemma OpenMore(sp: seq<nat>, va: nat, c: nat, n: nat)
    requires AllOpen(sp, va, c) && Open(sp, va + c) && n <= PGSIZE - (va + c) % PGSIZE
    ensures AllOpen(sp, va, c + n)
  {
    var c' := c + n;
    forall a: nat | va <= a < va + c' ensures Open(sp, a) {
      if a >= va + c {
        assert a / PGSIZE == (va + c) / PGSIZE;
      }
    }
  }

  // memmove() of piece into a page at o.
  function Patch(p: Page, o: nat, piece: seq<byte>): (r: Page)
    requires o + |piece| <= PGSIZE
    ensures forall i :: 0 <= i < PGSIZE ==> r[i] == if o <= i < o + |piece| then piece[i - o] else p[i]
  {
    p[..o] + piece + p[o + |piece|..]
  }

  ghost predicate TableAt(mem: Memory, d: nat, u: nat) {
    Present(Pde(mem, d, u / NENTRIES))
  }

  // The first page of the range that is not the user's has no page table, k bytes
  // from its start.
  ghost predicate NullAt(mem: Memory, sp: seq<nat>, d: nat, va: nat, k: nat) {
    AllOpen(sp, va, k) && !TableAt(mem, d, (va + k) / PGSIZE)
  }

  // Where copyout() stops is the first page that is not the user's.
  lemma StopsAt(mem: Memory, sp: seq<nat>, d: nat, va: nat, n: nat, c: nat)
    requires |sp| == PAGES && sp == Space(mem, d) && va + n <= KERNBASE && c <= n && AllOpen(sp, va, c)
    requires c < n ==> !Open(sp, va + c)
    ensures AllOpen(sp, va, n) <==> c == n
    ensures (exists k: nat :: k < n && NullAt(mem, sp, d, va, k)) <==> c < n && !TableAt(mem, d, (va + c) / PGSIZE)
  {
    if k: nat :| k < n && NullAt(mem, sp, d, va, k) {
      assert sp[(va + k) / PGSIZE] == Pte(mem, d, (va + k) / PGSIZE);
      assert !Open(sp, va + k);
    }
    if c < n && !TableAt(mem, d, (va + c) / PGSIZE) {
      assert NullAt(mem, sp, d, va, c);
    }
  }

  lemma TablesStay(mem: Memory, mem': Memory, d: nat)
    requires |mem'| == |mem| && d < |mem| && mem'[d] == mem[d]
    ensures forall u: nat :: TableAt(mem', d, u) == TableAt(mem, d, u)
  {
  }

  // The bytes of one page are copied; no other user byte changes.
  lemma OutStep(mem0: Memory, mem: Memory, all: set<nat>, dirs: set<nat>, own: map<nat, Use>, free: seq<nat>, lent: set<nat>,
      d: nat, va: nat, buf: seq<byte>, c: nat, n: nat)
    requires Owned(mem, all, dirs, own, free, lent) && d in dirs && Out(mem0, mem, dirs, d, va, buf, c)
    requires c + n <= |buf| && va + |buf| <= KERNBASE && 0 < n <= PGSIZE - (va + c) % PGSIZE
    requires Present(Pte(mem, d, (va + c) / PGSIZE))
    ensures var f := FrameOf(Pte(mem, d, (va + c) / PGSIZE));
      && f in own && own[f] == User(d, (va + c) / PGSIZE) && 0 < f < |mem| && f !in free && f !in lent
      && var mem' := mem[f := Patch(mem[f], (va + c) % PGSIZE, buf[c..c + n])];
      && Owned(mem', all, dirs, own, free, lent) && Spaces(mem', dirs) == Spaces(mem, dirs)
      && Out(mem0, mem', dirs, d, va, buf, c + n)
  {
    var v, o := (va + c) / PGSIZE, (va + c) % PGSIZE;
    var f := FrameOf(Pte(mem, d, v));
    assert UseOk(mem, dirs, own, User(d, v)) && FrameOk(mem, dirs, own, f) && SplitAt(all, own, free, lent, f);
    var mem' := mem[f := Patch(mem[f], o, buf[c..c + n])];
    forall x: nat | x in own && !own[x].User? ensures x < |mem| && mem'[x] == mem[x] {
      assert FrameOk(mem, dirs, own, x);
    }
    DataOwned(mem, mem', all, dirs, own, free, lent);
    SpacesEqual(mem, mem', dirs);
    var c' := c + n;
    forall e: nat, a: nat | e in dirs && a < KERNBASE ensures OutAt(mem0, mem', d, va, buf, c', e, a) {
      OutIndex(mem0, mem, mem', all, dirs, own, free, lent, d, va, buf, c, n, e, a);
    }
  }

  // The n bytes from x on, all in one page.
  lemma InPage(x: nat, n: nat, a: nat)
    requires n <= PGSIZE - x % PGSIZE
    ensures x <= a < x + n <==> a / PGSIZE == x / PGSIZE && x % PGSIZE <= a % PGSIZE < x % PGSIZE + n
    ensures x <= a < x + n ==> a % PGSIZE - x % PGSIZE == a - x
  {
  }

  // The page of (e, a) is the one that is written, or its frame is another one.
  lemma OutFrame(mem: Memory, mem': Memory, all: set<nat>, dirs: set<nat>, own: map<nat, Use>, free: seq<nat>, lent: set<nat>,
      d: nat, v: nat, p: Page, e: nat, u: nat)
    requires Owned(mem, all, dirs, own, free, lent) && d in dirs && e in dirs && v < USER && u < USER
    requires Present(Pte(mem, d, v)) && Present(Pte(mem, e, u)) && SameSpaces(mem, mem', dirs)
    requires FrameOf(Pte(mem, d, v)) < |mem| && mem' == mem[FrameOf(Pte(mem, d, v)) := p]
    ensures FrameOf(Pte(mem, e, u)) < |mem| && Pte(mem', e, u) == Pte(mem, e, u)
    ensures mem'[FrameOf(Pte(mem, e, u))] == if e == d && u == v then p else mem[FrameOf(Pte(mem, e, u))]
  {
    assert SameAt(mem, mem', e, u);
    assert UseOk(mem, dirs, own, User(d, v)) && UseOk(mem, dirs, own, User(e, u));
    assert FrameOk(mem, dirs, own, FrameOf(Pte(mem, e, u)));
  }

  lemma OutIndex(mem0: Memory, mem: Memory, mem': Memory, all: set<nat>, dirs: set<nat>, own: map<nat, Use>, free: seq<nat>, lent: set<nat>,
      d: nat, va: nat, buf: seq<byte>, c: nat, n: nat, e: nat, a: nat)
    requires Owned(mem, all, dirs, own, free, lent) && d in dirs && e in dirs && a < KERNBASE
    requires c + n <= |buf| && va + |buf| <= KERNBASE && 0 < n <= PGSIZE - (va + c) % PGSIZE
    requires Present(Pte(mem, d, (va + c) / PGSIZE)) && OutAt(mem0, mem, d, va, buf, c, e, a)
    requires SameSpaces(mem, mem', dirs)
    requires var f := FrameOf(Pte(mem, d, (va + c) / PGSIZE));
      f < |mem| && mem' == mem[f := Patch(mem[f], (va + c) % PGSIZE, buf[c..c + n])]
    ensures OutAt(mem0, mem', d, va, buf, c + n, e, a)
  {
    var v, u := (va + c) / PGSIZE, a / PGSIZE;
    assert SameAt(mem, mem', e, u);
    if Present(Pte(mem, e, u)) {
      OutFrame(mem, mem', all, dirs, own, free, lent, d, v, mem'[FrameOf(Pte(mem, d, v))], e, u);
    }
    OutByte(mem0, mem, mem', d, va, buf, c, n, e, a);
  }

  lemma OutByte(mem0: Memory, mem: Memory, mem': Memory, d: nat, va: nat, buf: seq<byte>, c: nat, n: nat, e: nat, a: nat)
    requires |mem'| == |mem| && c + n <= |buf| && 0 < n <= PGSIZE - (va + c) % PGSIZE && OutAt(mem0, mem, d, va, buf, c, e, a)
    requires Pte(mem', e, a / PGSIZE) == Pte(mem, e, a / PGSIZE)
    requires var f := FrameOf(Pte(mem, e, a / PGSIZE));
      && (Present(Pte(mem, e, a / PGSIZE)) ==> f < |mem|)
      && (Present(Pte(mem, e, a / PGSIZE)) ==>
        mem'[f] == if e == d && a / PGSIZE == (va + c) / PGSIZE then Patch(mem[f], (va + c) % PGSIZE, buf[c..c + n]) else mem[f])
    ensures OutAt(mem0, mem', d, va, buf, c + n, e, a)
  {
    InPage(va + c, n, a);
    if va + c <= a < va + c + n {
      assert buf[c..c + n][a % PGSIZE - (va + c) % PGSIZE] == buf[a - va];
    }
  }

  class Machine {
    const kmap: seq<Kmap>
    ghost const all: set<nat>       // the frames that kalloc.c manages
    const end: nat                  // the first frame after the kernel
    var mem: Memory
    var freelist: nat               // kmem.freelist
    ghost var dirs: set<nat>        // the page directories
    ghost var own: map<nat, Use>
    ghost var free: seq<nat>        // the frames on the free list
    ghost var lent: set<nat>        // frames handed out by kalloc() for other uses
    ghost var misses: nat           // how often kalloc() returned 0

    ghost predicate Tables(lentTo: set<nat>)
      reads this`mem, this`dirs, this`own, this`free
    {
      Owned(mem, all, dirs, own, free, lentTo)
    }

    ghost predicate Valid()
      reads this`mem, this`freelist, this`dirs, this`own, this`free, this`lent
    {
      && 0 < end && (forall f :: f in all ==> end <= f)
      && freelist < WORD && Chain(mem, freelist, free) && Tables(lent)
    }

    // The address spaces.
    ghost function View(): (m: map<nat, seq<nat>>)
      reads this`mem, this`dirs
      ensures m.Keys == dirs && forall d :: d in dirs ==> |m[d]| == PAGES
    {
      Spaces(mem, dirs)
    }

    ghost function Now(): Snap
      reads this`mem, this`own, this`free, this`lent, this`misses
    {
      Snap(mem, own, free, lent, misses)
    }

    // Before kinit1(): every managed frame is still to be freed.
    constructor (image: Memory, kernel: nat, managed: set<nat>, rows: seq<Kmap>)
      requires KmapsOk(rows) && 0 < kernel && |image| <= USER && forall f :: f in managed ==> kernel <= f < |image|
      ensures Valid() && all == managed && end == kernel && kmap == rows && mem == image
      ensures dirs == {} && own == map[] && free == [] && lent == managed
    {
      all, end, kmap, mem, freelist := managed, kernel, rows, image, 0;
      dirs, own, free, lent, misses := {}, map[], [], managed, 0;
    }

    // kfree() of a page in any state of the page tables: on the front of the list.
    method Push(f: nat)
      requires 0 < end <= f < |mem| <= USER && freelist < WORD && Chain(mem, freelist, free) && f !in free
      modifies this`mem, this`freelist, this`free
      ensures mem == old(mem)[f := Freed(old(freelist))] && freelist == Pointer(f) < WORD
      ensures free == [f] + old(free) && Chain(mem, freelist, free)
    {
      ChainPush(mem, freelist, free, f);
      mem := mem[f := Filled(1)];
      mem := mem[f := WithEntry(mem[f], 0, freelist)];
      freelist := Pointer(f);
      free := [f] + free;
    }

    // kfree()
    method Kfree(f: nat)
      requires Valid() && f in lent
      modifies this`mem, this`freelist, this`free, this`lent
      ensures Valid() && free == [f] + old(free) && lent == old(lent) - {f}
      ensures 0 < f < |old(mem)| && mem == old(mem)[f := Freed(old(freelist))]
      ensures View() == old(View()) && SameUser(old(mem), mem, own) && SameLent(old(mem), mem, lent)
    {
      GiveOwned(mem, all, dirs, own, free, lent, f, Freed(freelist));
      SpacesEqual(mem, mem[f := Freed(freelist)], dirs);
      Push(f);
      lent := lent - {f};
    }

    // freerange(): the pages that lie wholly between two addresses.
    method Freerange(start: nat, limit: nat)
      requires Valid() && forall f :: PageUp(start) <= f && (f + 1) * PGSIZE <= limit ==> f in lent
      modifies this`mem, this`freelist, this`free, this`lent
      ensures Valid() && own == old(own)
      ensures forall f: nat :: f in free <==> f in old(free) || (PageUp(start) <= f && (f + 1) * PGSIZE <= limit)
    {
      var p := PageUp(start);
      while (p + 1) * PGSIZE <= limit
        invariant Valid() && own == old(own) && PageUp(start) <= p
        invariant forall f: nat :: f in free <==> f in old(free) || (PageUp(start) <= f < p && (f + 1) * PGSIZE <= limit)
        invariant forall f :: p <= f && (f + 1) * PGSIZE <= limit ==> f in lent
        decreases limit - p * PGSIZE
      {
        Kfree(p);
        p := p + 1;
      }
    }

    // kalloc(): the first free page, or 0 exactly if there is none.
    method Kalloc() returns (f: nat)
      requires Valid()
      modifies this`freelist, this`free, this`lent, this`misses
      ensures Valid() && (f == 0 <==> old(free) == []) && misses == old(misses) + if f == 0 then 1 else 0
      ensures f == 0 ==> free == [] && lent == old(lent)
      ensures f != 0 ==> f == old(free)[0] && free == old(free)[1..] && lent == old(lent) + {f}
      ensures f != 0 ==> f in all && f !in old(lent) && f !in own
    {
      if freelist == 0 {
        misses := misses + 1;
        return 0;
      }
      f := FrameAt(freelist);
      assert FrameAt(Pointer(free[0])) == free[0];
      TakeOwned(mem, all, dirs, own, free, lent);
      assert SplitAt(all, own, free, lent, f);
      freelist := Entry(mem[f], 0);
      lent := lent + {f};
      free := free[1..];
    }

    // A page the caller has from kalloc() is written.
    method Fill(f: nat, p: Page)
      requires Valid() && f in lent
      modifies this`mem
      ensures Valid() && 0 < f < |old(mem)| && mem == old(mem)[f := p] && View() == old(View()) && SameUser(old(mem), mem, own)
    {
      LentOwned(mem, all, dirs, own, free, lent, f, p);
      SpacesEqual(mem, mem[f := p], dirs);
      ChainKept(mem, mem[f := p], freelist, free);
      mem := mem[f := p];
    }

    // walkpgdir(): the page table with the entry of page v.  0 exactly if there
    // is none and none is to be made or no page is free.
    method Walkpgdir(d: nat, v: nat, alloc: bool) returns (t: nat)
      requires Valid() && d in dirs && v < PAGES
      modifies this`mem, this`freelist, this`own, this`free, this`lent, this`misses
      ensures Valid() && lent == old(lent) && Extends(old(own), own, d)
      ensures View() == old(View()) && SameUser(old(mem), mem, old(own)) && SameLent(old(mem), mem, lent)
      ensures t == 0 <==> !Present(Pde(old(mem), d, v / NENTRIES)) && (!alloc || old(free) == [])
      ensures misses == old(misses) + if t == 0 && alloc then 1 else 0
      ensures t != 0 ==> t < |mem| && Present(Pde(mem, d, v / NENTRIES)) && t == TableOf(mem, d, v / NENTRIES)
      ensures t == 0 || Present(Pde(old(mem), d, v / NENTRIES)) ==> mem == old(mem) && own == old(own) && free == old(free)
      ensures forall f :: f in own && f !in old(own) ==> own[f].Table?
      ensures forall f :: f in free ==> f in old(free)
    {
      DirsDistinct(mem, all, dirs, own, free, lent, d);
      var w := Entry(mem[d], v / NENTRIES);
      if Present(w) {
        assert UseOk(mem, dirs, own, Table(d, v / NENTRIES));
        assert FrameOk(mem, dirs, own, FrameOf(w));
        t := FrameOf(w);
      } else if !alloc {
        t := 0;
      } else {
        t := NewTable(d, v / NENTRIES);
      }
    }

    // An empty page table for entry x of the directory.
    method NewTable(d: nat, x: nat) returns (t: nat)
      requires Valid() && d in dirs && x < NPDENTRIES && !Present(Pde(mem, d, x))
      modifies this`mem, this`freelist, this`own, this`free, this`lent, this`misses
      ensures Valid() && lent == old(lent) && View() == old(View())
      ensures SameUser(old(mem), mem, old(own)) && SameLent(old(mem), mem, lent)
      ensures (t == 0 <==> old(free) == []) && misses == old(misses) + if t == 0 then 1 else 0
      ensures t == 0 ==> mem == old(mem) && own == old(own) && free == old(free)
      ensures t != 0 ==> t < |mem| && Present(Pde(mem, d, x)) && t == TableOf(mem, d, x)
      ensures t != 0 ==> t !in old(own) && own == old(own)[t := Table(d, x)] && free == old(free)[1..]
    {
      t := Kalloc();
      if t == 0 {
        return 0;
      }
      AddTable(mem, all, dirs, own, free, lent, d, x, t);
      ghost var mem' := WithTable(mem, d, x, t);
      assert forall f :: f in free && f < |mem| ==> mem'[f] == mem[f];
      ChainKept(mem, mem', freelist, free);
      assert lent - {t} == old(lent);
      SpacesEqual(mem, mem', dirs);
      TableLent(mem, all, dirs, own, free, old(lent), d, x, t);
      MakeEntryFits(t, PTE_W + PTE_U);
      mem := mem[t := Filled(0)];
      mem := mem[d := WithEntry(mem[d], x, MakeEntry(t, PTE_W + PTE_U))];
      own := own[t := Table(d, x)];
      lent := lent - {t};
    }

    // The loop body of mappages(): page v gets an entry for frame f.
    method MapPage(d: nat, v: nat, f: nat, perm: nat) returns (ok: bool)
      requires Valid() && d in dirs && v < PAGES && f < PAGES && perm < PGSIZE
      requires !Present(View()[d][v]) && (v < USER ==> f in lent)
      modifies this`mem, this`freelist, this`own, this`free, this`lent, this`misses
      ensures Valid() && Grew(old(Now()), Now(), d)
      ensures ok ==> View() == PutAt(old(View()), d, v, MakeEntry(f, perm))
      ensures ok ==> lent == if v < USER then old(lent) - {f} else old(lent)
      ensures !ok ==> mem == old(mem) && own == old(own) && lent == old(lent) && free == old(free) == []
      ensures misses == old(misses) + if ok then 0 else 1
    {
      var t := Walkpgdir(d, v, true);
      if t == 0 {
        return false;
      }
      // the panic "remap" is not reached
      assert !Present(Entry(mem[t], v % NENTRIES)) by {
        assert Entry(mem[t], v % NENTRIES) == View()[d][v];
      }
      StorePte(d, v, t, f, perm);
      ok := true;
    }

    // *pte = pa | perm | PTE_P
    method StorePte(d: nat, v: nat, t: nat, f: nat, perm: nat)
      requires Valid() && d in dirs && v < PAGES && f < PAGES && perm < PGSIZE
      requires !Present(Pte(mem, d, v)) && (v < USER ==> f in lent)
      requires 0 < t == TableOf(mem, d, v / NENTRIES) && Present(Pde(mem, d, v / NENTRIES))
      modifies this`mem, this`own, this`lent
      ensures Valid() && SameUser(old(mem), mem, old(own)) && SameLent(old(mem), mem, old(lent))
      ensures View() == PutAt(old(View()), d, v, MakeEntry(f, perm))
      ensures lent == if v < USER then old(lent) - {f} else old(lent)
      ensures own == if v < USER then old(own)[f := User(d, v)] else old(own)
      ensures v < USER ==> f !in old(own)
    {
      MakeEntryFits(f, perm);
      ghost var w := MakeEntry(f, perm);
      SetOnePte(mem, all, dirs, own, free, lent, d, v, w);
      ghost var mem' := WithPte(mem, d, v, w);
      ChainKept(mem, mem', freelist, free);
      SpacesSet(mem, mem', dirs, d, v, w);
      if v < USER {
        MapUser(mem, mem', all, dirs, own, free, lent, d, v, f, perm);
        own := own[f := User(d, v)];
        lent := lent - {f};
      } else {
        MapKernel(mem, mem', all, dirs, own, free, lent, d, v, w);
      }
      mem := mem[t := WithEntry(mem[t], v % NENTRIES, MakeEntry(f, perm))];
    }

    // mappages(): 0, or -1 when there is no page for a page table; then the
    // first k pages are mapped.
    method Mappages(d: nat, va: nat, size: nat, pa: nat, perm: nat) returns (r: int, ghost k: nat)
      requires Valid() && d in dirs && 0 < size && va + size <= WORD && pa % PGSIZE == 0 && perm < PGSIZE
      requires CanMap(d, va / PGSIZE, (va + size - 1) / PGSIZE, pa / PGSIZE)
      modifies this`mem, this`freelist, this`own, this`free, this`lent, this`misses
      ensures Valid() && Grew(old(Now()), Now(), d)
      ensures k <= (va + size - 1) / PGSIZE - va / PGSIZE + 1
      ensures View() == MapIn(old(View()), d, va / PGSIZE, k, pa / PGSIZE, perm)
      ensures lent == old(lent) - Taken(va / PGSIZE, k, pa / PGSIZE)
      ensures r == 0 ==> k == (va + size - 1) / PGSIZE - va / PGSIZE + 1 && misses == old(misses)
      ensures r != 0 ==> r == -1 && k < (va + size - 1) / PGSIZE - va / PGSIZE + 1 && free == [] && misses == old(misses) + 1
    {
      assert (va + size - 1) / PGSIZE < PAGES;
      r, k := MapPages(d, va / PGSIZE, (va + size - 1) / PGSIZE, pa / PGSIZE, perm);
    }

    ghost predicate CanMap(d: nat, a: nat, last: nat, f0: nat)
      reads this`mem, this`dirs, this`lent
    {
      d in dirs && Mappable(View()[d], a, last, f0, lent)
    }

    // The loop of mappages() after k pages.
    ghost predicate MapState(d: nat, v0: nat, last: nat, k: nat, f0: nat, perm: nat, missed: nat, s: Snap, m: map<nat, seq<nat>>)
      reads this`mem, this`freelist, this`dirs, this`own, this`free, this`lent, this`misses
    {
      && Valid() && Grew(s, Now(), d) && d in dirs && d in m && |m[d]| == PAGES && perm < PGSIZE && misses == s.misses + missed
      && k <= last + 1 - v0 && v0 <= last < PAGES
      && View() == MapIn(m, d, v0, k, f0, perm) && lent == s.lent - Taken(v0, k, f0)
    }

    method MapTurn(d: nat, v0: nat, last: nat, a: nat, f: nat, ghost k: nat, f0: nat, perm: nat, ghost s: Snap, ghost m: map<nat, seq<nat>>)
      returns (ok: bool)
      requires v0 <= a <= last && a == v0 + k && f == f0 + k && MapState(d, v0, last, k, f0, perm, 0, s, m)
      requires Mappable(m[d], v0, last, f0, s.lent)
      modifies this`mem, this`freelist, this`own, this`free, this`lent, this`misses
      ensures ok ==> MapState(d, v0, last, k + 1, f0, perm, 0, s, m)
      ensures !ok ==> MapState(d, v0, last, k, f0, perm, 1, s, m) && free == []
    {
      MapNext(m, s.lent, d, v0, last, k, f0, perm, a, f);
      ghost var now := Now();
      ok := MapPage(d, a, f, perm);
      GrewTwice(s, now, Now(), d);
    }

    // mappages() on page numbers: k pages are mapped.
    method MapPages(d: nat, v0: nat, last: nat, f0: nat, perm: nat) returns (r: int, ghost k: nat)
      requires Valid() && v0 <= last && perm < PGSIZE && CanMap(d, v0, last, f0)
      modifies this`mem, this`freelist, this`own, this`free, this`lent, this`misses
      ensures r == 0 || r == -1
      ensures r == 0 ==> k == last - v0 + 1 && MapState(d, v0, last, k, f0, perm, 0, old(Now()), old(View()))
      ensures r != 0 ==> k < last - v0 + 1 && MapState(d, v0, last, k, f0, perm, 1, old(Now()), old(View())) && free == []
    {
      MapInStep(View(), d, v0, 0, f0, perm);
      assert lent == lent - Taken(v0, 0, f0);
      r, k := MapLoop(d, v0, last, f0, perm, Now(), View());
    }

    // The loop of mappages().
    method MapLoop(d: nat, v0: nat, last: nat, f0: nat, perm: nat, ghost s: Snap, ghost m: map<nat, seq<nat>>) returns (r: int, ghost k: nat)
      requires v0 <= last && MapState(d, v0, last, 0, f0, perm, 0, s, m) && Mappable(m[d], v0, last, f0, s.lent)
      modifies this`mem, this`freelist, this`own, this`free, this`lent, this`misses
      ensures r == 0 || r == -1
      ensures r == 0 ==> k == last - v0 + 1 && MapState(d, v0, last, k, f0, perm, 0, s, m)
      ensures r != 0 ==> k < last - v0 + 1 && MapState(d, v0, last, k, f0, perm, 1, s, m) && free == []
    {
      var a, f := v0, f0;
      k := 0;
      while true
        invariant v0 <= a <= last && a == v0 + k && f == f0 + k && MapState(d, v0, last, k, f0, perm, 0, s, m)
        decreases last - a
      {
        var ok := MapTurn(d, v0, last, a, f, k, f0, perm, s, m);
        if !ok {
          return -1, k;
        }
        if a == last {
          return 0, k + 1;
        }
        k := k + 1;
        a := a + 1;
        f := f + 1;
      }
    }

    // The loop of deallocuvm() before page v.
    ghost predicate ClearState(d: nat, lo: nat, v: nat, s: Snap, m: map<nat, seq<nat>>)
      reads this`mem, this`freelist, this`dirs, this`own, this`free, this`lent
    {
      && Valid() && lent == s.lent && d in dirs && d in m && |m[d]| == PAGES && lo <= v <= USER
      && View() == ClearIn(m, d, lo, v) && own == Keep(s.own, d, lo, v)
      && SameUser(s.mem, mem, own) && SameLent(s.mem, mem, lent)
    }

    // kfree() the frame of a page, and clear its entry.
    method FreePage(d: nat, v: nat, t: nat)
      requires Valid() && d in dirs && v < USER && Present(Pte(mem, d, v))
      requires 0 < t == TableOf(mem, d, v / NENTRIES) && Present(Pde(mem, d, v / NENTRIES))
      modifies this`mem, this`freelist, this`own, this`free
      ensures Valid() && View() == PutAt(old(View()), d, v, 0)
      ensures own == old(own) - {FrameOf(old(Pte(mem, d, v)))}
      ensures free == [FrameOf(old(Pte(mem, d, v)))] + old(free)
      ensures SameUser(old(mem), mem, own) && SameLent(old(mem), mem, lent)
    {
      ghost var mem0 := mem;
      assert UseOk(mem, dirs, own, User(d, v)) && UseOk(mem, dirs, own, Table(d, v / NENTRIES));
      assert FrameOk(mem, dirs, own, t) && FrameOk(mem, dirs, own, FrameOf(Pte(mem, d, v)));
      assert SplitAt(all, own, free, lent, FrameOf(Pte(mem, d, v)));
      var f := FrameOf(Entry(mem[t], v % NENTRIES));
      // the panic "kfree" is not reached
      assert f != 0;
      UnmapFreed(mem, Freed(freelist), all, dirs, own, free, lent, d, v);
      ghost var mem2 := WithPte(mem[f := Freed(freelist)], d, v, 0);
      Push(f);
      assert !(t in free) by { assert SplitAt(all, own, old(free), lent, t); }
      ChainKept(mem, mem2, freelist, free);
      mem := mem[t := WithEntry(mem[t], v % NENTRIES, 0)];
      own := own - {f};
    }

    // The loop body of deallocuvm(); next is the page it goes on with.
    method ClearTurn(d: nat, ghost lo: nat, v: nat, ghost hi: nat, ghost s: Snap, ghost m: map<nat, seq<nat>>) returns (next: nat)
      requires ClearState(d, lo, v, s, m) && v < hi <= USER
      modifies this`mem, this`freelist, this`own, this`free, this`lent, this`misses
      ensures v < next && misses == old(misses) && ClearState(d, lo, if next < hi then next else hi, s, m)
    {
      ClearStep(m, d, lo, v);
      assert View()[d][v] == Pte(mem, d, v);
      next := v;
      var t := Walkpgdir(d, v, false);
      if t == 0 {
        next := (v / NENTRIES + 1) * NENTRIES - 1;
        ghost var stop := if next + 1 < hi then next + 1 else hi;
        SkipTable(mem, all, dirs, own, free, lent, s.own, m, d, lo, v, stop);
      } else if Present(Entry(mem[t], v % NENTRIES)) {
        KeepPresent(mem, all, dirs, own, free, lent, s.own, d, lo, v);
        FreePage(d, v, t);
      } else {
        KeepAbsent(mem, all, dirs, own, free, lent, s.own, d, lo, v, v + 1);
      }
      next := next + 1;
    }

    // deallocuvm(): exactly the mapped pages from newsz up to oldsz are unmapped
    // and their frames freed; the skip over absent page tables misses none.
    method Deallocuvm(d: nat, oldsz: nat, newsz: nat) returns (r: nat)
      requires Valid() && d in dirs && oldsz <= KERNBASE
      modifies this`mem, this`freelist, this`own, this`free, this`lent, this`misses
      ensures misses == old(misses) && r == if newsz >= oldsz then oldsz else newsz
      ensures newsz >= oldsz ==> Now() == old(Now()) && freelist == old(freelist)
      ensures newsz < oldsz ==> ClearState(d, PageUp(newsz), PageUp(oldsz), old(Now()), old(View()))
    {
      if newsz >= oldsz {
        return oldsz;
      }
      var v := PageUp(newsz);
      ghost var lo, hi := v, PageUp(oldsz);
      ClearStep(View(), d, lo, lo);
      KeepAbsent(mem, all, dirs, own, free, lent, own, d, lo, lo, lo);
      ClearLoop(d, v, oldsz, hi, Now(), View());
      r := newsz;
    }

    // The loop of deallocuvm().
    method ClearLoop(d: nat, lo: nat, oldsz: nat, ghost hi: nat, ghost s: Snap, ghost m: map<nat, seq<nat>>)
      requires lo <= hi == PageUp(oldsz) <= USER && ClearState(d, lo, lo, s, m)
      modifies this`mem, this`freelist, this`own, this`free, this`lent, this`misses
      ensures misses == old(misses) && ClearState(d, lo, hi, s, m)
    {
      var v := lo;
      PageUpBelow(oldsz, v);
      while v * PGSIZE < oldsz
        invariant lo <= v && misses == old(misses) && ClearState(d, lo, if v < hi then v else hi, s, m)
        decreases hi - v
      {
        PageUpBelow(oldsz, v);
        v := ClearTurn(d, lo, v, hi, s, m);
      }
      PageUpBelow(oldsz, v);
    }

    // The loop of freevm() before entry i: the tables from there on, and the
    // directory, are still to be freed.
    ghost predicate FreeState(d: nat, i: nat, own1: map<nat, Use>, s: Snap, m: map<nat, seq<nat>>, pd: Page)
      reads this`mem, this`freelist, this`dirs, this`own, this`free, this`lent
    {
      && Valid() && lent == s.lent + Rest(own1, d, i) && dirs == m.Keys && View() == m && own == s.own
      && d < |mem| && mem[d] == pd && SameUser(s.mem, mem, own) && SameLent(s.mem, mem, s.lent)
    }

    method FreeTurn(d: nat, i: nat, ghost mem1: Memory, ghost dirs1: set<nat>, ghost own1: map<nat, Use>, ghost free1: seq<nat>,
        ghost s: Snap, ghost m: map<nat, seq<nat>>)
      requires Owned(mem1, all, dirs1, own1, free1, s.lent) && d in dirs1 && i < NPDENTRIES && d < |mem1|
      requires FreeState(d, i, own1, s, m, mem1[d])
      modifies this`mem, this`freelist, this`free, this`lent
      ensures FreeState(d, i + 1, own1, s, m, mem1[d])
    {
      RestStep(mem1, all, dirs1, own1, free1, s.lent, d, i);
      var w := Entry(mem[d], i);
      assert w == Pde(mem1, d, i);
      if Present(w) {
        assert lent - {FrameOf(w)} == s.lent + Rest(own1, d, i + 1);
        Kfree(FrameOf(w));
      }
    }

    // The loop of freevm(), and the directory last.
    method FreeTables(d: nat, ghost own0: map<nat, Use>)
      requires Valid() && d in dirs && own == Keep(own0, d, 0, USER)
      requires forall f :: f in own0 && own0[f].User? ==> own0[f].v < USER
      modifies this`mem, this`freelist, this`dirs, this`own, this`free, this`lent
      ensures Valid() && dirs == old(dirs) - {d} && View() == old(View()) - {d} && own == NotOf(own0, d)
      ensures lent == old(lent) && SameUser(old(mem), mem, own) && SameLent(old(mem), mem, lent)
    {
      ghost var mem1, dirs1, own1, free1, lent1 := mem, dirs, own, free, lent;
      DirsDistinct(mem, all, dirs, own, free, lent, d);
      RestEnds(mem, all, dirs, own, free, lent, d, own0);
      DropDirectory(mem, all, dirs, own, free, lent, d);
      SpacesDrop(mem, dirs, d);
      dirs, own, lent := dirs - {d}, NotOf(own, d), lent + TablesOf(own, d);
      ghost var s, m := Snap(mem, own, free, lent1, misses), View();
      var i := 0;
      while i < NPDENTRIES
        invariant i <= NPDENTRIES && FreeState(d, i, own1, s, m, mem1[d])
      {
        FreeTurn(d, i, mem1, dirs1, own1, free1, s, m);
        i := i + 1;
      }
      assert lent - {d} == lent1;
      Kfree(d);
    }

    // freevm(): directory d is gone, and every frame of it free; nothing else
    // changes.
    method Freevm(d: nat)
      requires Valid() && d in dirs
      modifies this`mem, this`freelist, this`dirs, this`own, this`free, this`lent, this`misses
      ensures Valid() && dirs == old(dirs) - {d} && View() == old(View()) - {d} && own == NotOf(old(own), d) && misses == old(misses)
      ensures lent == old(lent) && SameUser(old(mem), mem, own) && SameLent(old(mem), mem, lent)
    {
      UsersBelow(mem, all, dirs, own, free, lent);
      var r := Deallocuvm(d, KERNBASE, 0);
      FreeTables(d, old(own));
    }

    // mappages() of one user page: the lent frame f becomes page v, or nothing
    // but page tables is added.
    method MapFrame(d: nat, v: nat, f: nat, perm: nat) returns (ok: bool)
      requires Valid() && d in dirs && v < USER && f in lent && perm < PGSIZE && !Present(View()[d][v])
      modifies this`mem, this`freelist, this`own, this`free, this`lent, this`misses
      ensures Valid() && Grew(old(Now()), Now(), d)
      ensures ok ==> View() == PutAt(old(View()), d, v, MakeEntry(f, perm)) && lent == old(lent) - {f}
      ensures !ok ==> View() == old(View()) && lent == old(lent) && free == []
      ensures misses == old(misses) + if ok then 0 else 1
    {
      assert f < USER by { assert SplitAt(all, own, free, lent, f); }
      assert (v * PGSIZE + PGSIZE - 1) / PGSIZE == v && v * PGSIZE / PGSIZE == v && f * PGSIZE / PGSIZE == f;
      var r, k := Mappages(d, v * PGSIZE, PGSIZE, f * PGSIZE, perm);
      MapInOne(old(View()), d, v, k, f, perm);
      ok := r == 0;
    }

    // kalloc() and memset() or memmove(): a page with contents p.
    method NewPage(p: Page) returns (f: nat)
      requires Valid()
      modifies this`mem, this`freelist, this`free, this`lent, this`misses
      ensures Valid() && View() == old(View()) && misses == old(misses) + if f == 0 then 1 else 0
      ensures f == 0 ==> mem == old(mem) && free == old(free) == [] && lent == old(lent)
      ensures f != 0 ==> f in old(free) && free == old(free)[1..] && f !in old(lent) && lent == old(lent) + {f}
      ensures f != 0 ==> f < |mem| && mem[f] == p
      ensures SameUser(old(mem), mem, own) && SameLent(old(mem), mem, old(lent))
    {
      f := Kalloc();
      if f != 0 {
        Fill(f, p);
      }
    }

    // One page of allocuvm().  If it fails, a page may be left over as f.
    method AllocTurn(d: nat, ghost lo: nat, v: nat, ghost s: Snap, ghost m: map<nat, seq<nat>>) returns (ok: bool, f: nat)
      requires AllocState(d, lo, v, 0, 0, s, m) && v < USER && !Present(m[d][v])
      modifies this`mem, this`freelist, this`own, this`free, this`lent, this`misses
      ensures ok ==> AllocState(d, lo, v + 1, 0, 0, s, m)
      ensures !ok ==> AllocState(d, lo, v, f, 1, s, m)
    {
      ok := false;
      f := NewPage(Filled(0));
      if f != 0 {
        assert Grew(old(Now()), Now(), d);
        GrewTwice(s, old(Now()), Now(), d);
        NewKeep(m[d], old(mem), mem, all, dirs, own, old(free), s.lent, s, d, lo, v);
        ok := MapNew(d, lo, v, f, s, m);
      }
    }

    method MapNew(d: nat, ghost lo: nat, v: nat, f: nat, ghost s: Snap, ghost m: map<nat, seq<nat>>) returns (ok: bool)
      requires AllocState(d, lo, v, f, 0, s, m) && v < USER && !Present(m[d][v])
      requires 0 < f < |mem| && mem[f] == Filled(0) && f in s.free
      modifies this`mem, this`freelist, this`own, this`free, this`lent, this`misses
      ensures ok ==> AllocState(d, lo, v + 1, 0, 0, s, m)
      ensures !ok ==> AllocState(d, lo, v, f, 1, s, m)
    {
      assert NewAt(m[d], View()[d], mem, s, lo, v, v);
      ghost var now := Now();
      ok := MapFrame(d, v, f, PTE_W + PTE_U);
      GrewTwice(s, now, Now(), d);
      if ok {
        NewStep(m[d], now.mem, mem, all, dirs, now.own, now.free, now.lent, s, d, lo, v, f);
        PutOne(m, d, Space(now.mem, d), v, MakeEntry(f, PTE_W + PTE_U));
      } else {
        NewKeep(m[d], now.mem, mem, all, dirs, now.own, now.free, now.lent, s, d, lo, v);
      }
    }

    // allocuvm() before page v; frame f, if there is one, is not yet mapped.
    ghost predicate AllocState(d: nat, lo: nat, v: nat, f: nat, missed: nat, s: Snap, m: map<nat, seq<nat>>)
      reads this`mem, this`freelist, this`dirs, this`own, this`free, this`lent, this`misses
    {
      && Valid() && d in dirs && dirs == m.Keys && |m[d]| == PAGES && lo <= v <= USER && misses == s.misses + missed
      && Grew(s, Now(), d) && (f == 0 || f !in s.lent) && lent == (if f == 0 then s.lent else s.lent + {f})
      && View() == m[d := View()[d]] && NewPages(m[d], View()[d], mem, s, lo, v)
    }

    // allocuvm(): newsz, and the pages up to it are mapped to zeroed frames; or 0
    // because kalloc() failed, and the same pages are mapped as before, with no
    // user frame lost or gained.
    method Allocuvm(d: nat, oldsz: nat, newsz: nat) returns (r: nat)
      requires Valid() && d in dirs
      requires newsz < KERNBASE ==> forall u: nat :: PageUp(oldsz) <= u < PageUp(newsz) ==> !Present(View()[d][u])
      modifies this`mem, this`freelist, this`own, this`free, this`lent, this`misses
      ensures newsz >= KERNBASE || newsz < oldsz ==> Now() == old(Now()) && r == if newsz >= KERNBASE then 0 else oldsz
      ensures Valid() && lent == old(lent) && Extends(old(own), own, d) && View() == old(View())[d := View()[d]]
      ensures SameUser(old(mem), mem, old(own)) && SameLent(old(mem), mem, lent)
      ensures oldsz <= newsz < KERNBASE && r == newsz ==>
        misses == old(misses) && NewPages(old(View())[d], View()[d], mem, old(Now()), PageUp(oldsz), PageUp(newsz))
      ensures oldsz <= newsz < KERNBASE && r != newsz ==>
        misses > old(misses) && r == 0 && SameMap(old(View())[d], View()[d]) && Users(own) == Users(old(own))
    {
      if newsz >= KERNBASE {
        return 0;
      }
      if newsz < oldsz {
        return oldsz;
      }
      var ok, v, f := AllocPages(d, oldsz, newsz, PageUp(oldsz), PageUp(newsz), Now(), View());
      if !ok {
        UndoAlloc(d, oldsz, newsz, v, f, old(Now()), old(View()));
        return 0;
      }
      r := newsz;
    }

    // The loop of allocuvm().
    method AllocPages(d: nat, oldsz: nat, newsz: nat, ghost lo: nat, ghost hi: nat, ghost s: Snap, ghost m: map<nat, seq<nat>>)
      returns (ok: bool, ghost v: nat, f: nat)
      requires lo == PageUp(oldsz) <= hi == PageUp(newsz) <= USER && AllocState(d, lo, lo, 0, 0, s, m)
      requires forall u: nat :: lo <= u < hi ==> !Present(m[d][u])
      modifies this`mem, this`freelist, this`own, this`free, this`lent, this`misses
      ensures ok ==> AllocState(d, lo, hi, 0, 0, s, m)
      ensures !ok ==> v < hi && AllocState(d, lo, v, f, 1, s, m)
    {
      var a := PageUp(oldsz);
      while a * PGSIZE < newsz
        invariant lo <= a <= hi && AllocState(d, lo, a, 0, 0, s, m)
      {
        PageUpBelow(newsz, a);
        ok, f := AllocTurn(d, lo, a, s, m);
        if !ok {
          return false, a, f;
        }
        a := a + 1;
      }
      PageUpBelow(newsz, a);
      assert a == hi;
      ok, v, f := true, a, 0;
    }

    // allocuvm() when memory has run out at page v.
    method UndoAlloc(d: nat, oldsz: nat, newsz: nat, ghost v: nat, f: nat, ghost s: Snap, ghost m: map<nat, seq<nat>>)
      requires oldsz < newsz < KERNBASE && v < PageUp(newsz) && AllocState(d, PageUp(oldsz), v, f, 1, s, m)
      requires Owned(s.mem, all, dirs, s.own, s.free, s.lent) && m == Spaces(s.mem, dirs)
      requires forall u: nat :: PageUp(oldsz) <= u < PageUp(newsz) ==> !Present(m[d][u])
      modifies this`mem, this`freelist, this`own, this`free, this`lent, this`misses
      ensures Valid() && misses == old(misses) && lent == s.lent && Extends(s.own, own, d) && View() == m[d := View()[d]]
      ensures SameUser(s.mem, mem, s.own) && SameLent(s.mem, mem, s.lent)
      ensures SameMap(m[d], View()[d]) && Users(own) == Users(s.own)
    {
      ghost var lo, hi := PageUp(oldsz), PageUp(newsz);
      UndoMap(m[d], View()[d], mem, s, lo, v, hi);
      UndoOwn(all, dirs, s, mem, own, free, lent, d, lo, v, hi);
      PutTwice(m, d, View()[d], Cleared(View()[d], lo, hi));
      var r := Deallocuvm(d, newsz, oldsz);
      if f != 0 {
        Kfree(f);
      }
    }

    // A new directory nd that is all that changed; its space is View()[nd].
    // Frame f, if there is one, is not yet mapped.
    ghost predicate NewDir(nd: nat, f: nat, missed: nat, s: Snap, m: map<nat, seq<nat>>)
      reads this`mem, this`freelist, this`dirs, this`own, this`free, this`lent, this`misses
    {
      && Valid() && nd !in m && dirs == m.Keys + {nd} && View() == m[nd := View()[nd]]
      && Grew(s, Now(), nd) && misses == s.misses + missed
      && (f == 0 || f !in s.lent) && lent == (if f == 0 then s.lent else s.lent + {f})
    }

    // As before, but for the order of the free list.
    ghost predicate Restored(s: Snap, m: map<nat, seq<nat>>)
      reads this`mem, this`freelist, this`dirs, this`own, this`free, this`lent
    {
      && Valid() && dirs == m.Keys && View() == m && own == s.own && lent == s.lent
      && (forall f :: f in free <==> f in s.free)
      && SameUser(s.mem, mem, own) && SameLent(s.mem, mem, lent)
    }

    // freevm() of a directory that was made and given up.
    method Abandon(nd: nat, ghost s: Snap, ghost m: map<nat, seq<nat>>)
      requires NewDir(nd, 0, 1, s, m) && Owned(s.mem, all, m.Keys, s.own, s.free, s.lent)
      modifies this`mem, this`freelist, this`dirs, this`own, this`free, this`lent, this`misses
      ensures Restored(s, m) && misses == old(misses)
    {
      NotOfExtends(s.mem, all, m.Keys, s.own, s.free, s.lent, own, nd);
      DropPut(m, nd, View()[nd]);
      assert m.Keys + {nd} - {nd} == m.Keys;
      Freevm(nd);
      FreeSame(s.mem, mem, all, dirs, own, s.free, free, lent);
    }

    // kalloc() and memset() of a page directory.
    method NewDirectory() returns (nd: nat)
      requires Valid()
      modifies this`mem, this`freelist, this`dirs, this`own, this`free, this`lent, this`misses
      ensures nd == 0 ==> Restored(old(Now()), old(View())) && misses == old(misses) + 1
      ensures nd == 0 ==> old(free) == []
      ensures nd != 0 ==> NewDir(nd, 0, 0, old(Now()), old(View())) && View()[nd] == seq(PAGES, _ => 0)
      ensures nd != 0 ==> forall x: nat :: Pde(mem, nd, x) == 0
    {
      nd := NewPage(Filled(0));
      if nd == 0 {
        return;
      }
      AddDirectory(mem, all, dirs, own, free, lent, nd);
      AddedSpace(mem, dirs, nd);
      dirs, own := dirs + {nd}, own[nd := Directory(nd)];
      assert lent - {nd} == old(lent);
      lent := lent - {nd};
    }

    // One row of kmap.
    method MapRow(nd: nat, k: nat, ghost s: Snap, ghost m: map<nat, seq<nat>>) returns (ok: bool)
      requires NewDir(nd, 0, 0, s, m) && KmapsOk(kmap) && k < |kmap| && View()[nd] == KernelSpace(kmap, k)
      modifies this`mem, this`freelist, this`own, this`free, this`lent, this`misses
      ensures ok ==> NewDir(nd, 0, 0, s, m) && View()[nd] == KernelSpace(kmap, k + 1)
      ensures !ok ==> NewDir(nd, 0, 1, s, m)
    {
      forall u: nat | InRow(kmap[k], u) && u < PAGES ensures KernelSpace(kmap, k)[u] == 0 {
        KernelSpaceAt(kmap, k, u);
      }
      ghost var now, sp := Now(), View()[nd];
      ok := MapAbsentRow(nd, kmap[k]);
      GrewTwice(s, now, Now(), nd);
      PutTwice(m, nd, sp, View()[nd]);
    }

    method MapAbsentRow(nd: nat, row: Kmap) returns (ok: bool)
      requires Valid() && nd in dirs && KmapOk(row)
      requires forall u: nat :: InRow(row, u) && u < PAGES ==> View()[nd][u] == 0
      modifies this`mem, this`freelist, this`own, this`free, this`lent, this`misses
      ensures Valid() && Grew(old(Now()), Now(), nd) && lent == old(lent)
      ensures View() == old(View())[nd := View()[nd]] && misses == old(misses) + if ok then 0 else 1
      ensures ok ==> View()[nd] == WithRow(old(View())[nd], row)
    {
      assert (row.virt + Size(row) - 1) / PGSIZE + 1 == EndPage(row);
      var r, j := Mappages(nd, row.virt, Size(row), row.physStart, row.perm);
      NoneTaken(FirstPage(row), j, row.physStart / PGSIZE);
      ok := r == 0;
    }

    // setupkvm(): a directory with the kernel pages alone; or 0 because kalloc()
    // failed, and everything is as before.
    method Setupkvm() returns (nd: nat)
      requires Valid() && KmapsOk(kmap)
      modifies this`mem, this`freelist, this`dirs, this`own, this`free, this`lent, this`misses
      ensures nd == 0 ==> Restored(old(Now()), old(View())) && misses > old(misses)
      ensures nd != 0 ==> NewDir(nd, 0, 0, old(Now()), old(View())) && View()[nd] == KernelSpace(kmap, |kmap|)
    {
      nd := NewDirectory();
      if nd == 0 {
        return;
      }
      var k := 0;
      while k < |kmap|
        invariant k <= |kmap| && NewDir(nd, 0, 0, old(Now()), old(View())) && View()[nd] == KernelSpace(kmap, k)
      {
        var ok := MapRow(nd, k, old(Now()), old(View()));
        if !ok {
          Abandon(nd, old(Now()), old(View()));
          return 0;
        }
        k := k + 1;
      }
    }

    // copyuvm() before page v.
    ghost predicate CopyState(d: nat, nd: nat, v: nat, f: nat, missed: nat, s: Snap, m: map<nat, seq<nat>>)
      reads this`mem, this`freelist, this`dirs, this`own, this`free, this`lent, this`misses
    {
      && NewDir(nd, f, missed, s, m) && d in m && d != nd && v <= USER && KmapsOk(kmap)
      && Copied(m[d], KernelSpace(kmap, |kmap|), View()[nd], s, mem, v)
    }

    // What is copied: the pages of d below hi, which were all mapped.
    ghost predicate Source(d: nat, hi: nat, s: Snap, m: map<nat, seq<nat>>) {
      && Owned(s.mem, all, m.Keys, s.own, s.free, s.lent) && m == Spaces(s.mem, m.Keys)
      && d in m && hi <= USER && forall u: nat :: u < hi ==> Present(m[d][u])
    }

    // The page table entry of a page that is mapped, and its frame's contents.
    method ReadPte(d: nat, v: nat) returns (w: nat)
      requires Valid() && d in dirs && v < USER && Present(View()[d][v])
      modifies this`mem, this`freelist, this`own, this`free, this`lent, this`misses
      ensures Valid() && Now() == old(Now()) && w == View()[d][v]
      ensures FrameOf(w) < |mem| && FrameOf(w) in own && own[FrameOf(w)] == User(d, v)
    {
      var t := Walkpgdir(d, v, false);
      w := Entry(mem[t], v % NENTRIES);
      assert UseOk(mem, dirs, own, User(d, v));
      assert FrameOk(mem, dirs, own, FrameOf(w));
    }

    // The loop body of copyuvm().
    method CopyTurn(d: nat, nd: nat, v: nat, ghost hi: nat, ghost s: Snap, ghost m: map<nat, seq<nat>>) returns (ok: bool)
      requires CopyState(d, nd, v, 0, 0, s, m) && v < hi && Source(d, hi, s, m)
      modifies this`mem, this`freelist, this`own, this`free, this`lent, this`misses
      ensures ok ==> CopyState(d, nd, v + 1, 0, 0, s, m)
      ensures !ok ==> NewDir(nd, 0, 1, s, m)
    {
      assert View()[d] == m[d];
      // the panics "pte should exist" and "page not present" are not reached
      var w := ReadPte(d, v);
      assert UseOk(s.mem, m.Keys, s.own, User(d, v)) && FrameOk(s.mem, m.Keys, s.own, FrameOf(w));
      ghost var now := Now();
      var f := NewPage(mem[FrameOf(w)]);
      if f == 0 {
        return false;
      }
      assert Grew(now, Now(), nd);
      GrewTwice(s, now, Now(), nd);
      CopyKeep(m[d], KernelSpace(kmap, |kmap|), now.mem, mem, all, dirs, own, now.free, now.lent, s, nd, v);
      ok := MapCopy(d, nd, v, f, w, s, m);
      if !ok {
        GiveBack(nd, f, s, m);
      }
    }

    method MapCopy(d: nat, nd: nat, v: nat, f: nat, w: nat, ghost s: Snap, ghost m: map<nat, seq<nat>>) returns (ok: bool)
      requires CopyState(d, nd, v, f, 0, s, m) && v < USER && w == m[d][v] && Present(w)
      requires 0 < f < |mem| && f in s.free && FrameOf(w) < |s.mem| && mem[f] == s.mem[FrameOf(w)]
      modifies this`mem, this`freelist, this`own, this`free, this`lent, this`misses
      ensures ok ==> CopyState(d, nd, v + 1, 0, 0, s, m)
      ensures !ok ==> NewDir(nd, f, 1, s, m)
    {
      ghost var kp := KernelSpace(kmap, |kmap|);
      KernelSpaceAt(kmap, |kmap|, v);
      assert CopiedAt(m[d], kp, View()[nd], s, mem, v, v);
      ghost var now := Now();
      ok := MapFrame(nd, v, f, Flags(w));
      GrewTwice(s, now, Now(), nd);
      if ok {
        CopyStep(m[d], kp, now.mem, mem, all, dirs, now.own, now.free, now.lent, s, nd, v, f);
        PutOne(m, nd, Space(now.mem, nd), v, MakeEntry(f, Flags(w)));
      }
    }

    // kfree() of the page that could not be mapped.
    method GiveBack(nd: nat, f: nat, ghost s: Snap, ghost m: map<nat, seq<nat>>)
      requires NewDir(nd, f, 1, s, m) && f in s.free && f != 0
      modifies this`mem, this`freelist, this`free, this`lent
      ensures NewDir(nd, 0, 1, s, m)
    {
      ghost var now := Now();
      Kfree(f);
      assert lent == s.lent;
      assert Extends(s.own, own, nd);
    }

    // copyuvm(): a directory with the same user pages up to sz, each in a frame
    // of its own with the same contents and flags; or 0 because kalloc() failed,
    // and every frame taken is free again.
    method Copyuvm(d: nat, sz: nat) returns (nd: nat)
      requires Valid() && KmapsOk(kmap) && d in dirs && sz <= KERNBASE
      requires forall u: nat :: u < PageUp(sz) ==> Present(View()[d][u])
      modifies this`mem, this`freelist, this`dirs, this`own, this`free, this`lent, this`misses
      ensures nd == 0 ==> Restored(old(Now()), old(View())) && misses > old(misses)
      ensures nd != 0 ==> CopyState(d, nd, PageUp(sz), 0, 0, old(Now()), old(View()))
    {
      nd := Setupkvm();
      if nd == 0 {
        return;
      }
      var ok := CopyPages(d, nd, sz, PageUp(sz), old(Now()), old(View()));
      if !ok {
        Abandon(nd, old(Now()), old(View()));
        nd := 0;
      }
    }

    // The loop of copyuvm().
    method CopyPages(d: nat, nd: nat, sz: nat, ghost hi: nat, ghost s: Snap, ghost m: map<nat, seq<nat>>) returns (ok: bool)
      requires CopyState(d, nd, 0, 0, 0, s, m) && Source(d, hi, s, m) && hi == PageUp(sz)
      modifies this`mem, this`freelist, this`own, this`free, this`lent, this`misses
      ensures ok ==> CopyState(d, nd, hi, 0, 0, s, m)
      ensures !ok ==> NewDir(nd, 0, 1, s, m)
    {
      var i := 0;
      while i * PGSIZE < sz
        invariant i <= hi && CopyState(d, nd, i, 0, 0, s, m)
      {
        PageUpBelow(sz, i);
        ok := CopyTurn(d, nd, i, hi, s, m);
        if !ok {
          return;
        }
        i := i + 1;
      }
      PageUpBelow(sz, i);
      assert i == hi;
      ok := true;
    }

    // clearpteu(): the page is no longer open to the user; nothing else changes.
    method Clearpteu(d: nat, v: nat)
      requires Valid() && d in dirs && v < PAGES && Present(Pde(mem, d, v / NENTRIES))
      modifies this`mem, this`freelist, this`own, this`free, this`lent, this`misses
      ensures Valid() && own == old(own) && lent == old(lent) && free == old(free)
      ensures View() == PutAt(old(View()), d, v, WithoutU(old(View())[d][v]))
      ensures SameUser(old(mem), mem, own) && SameLent(old(mem), mem, lent)
    {
      var t := Walkpgdir(d, v, false);
      var w := WithoutU(Entry(mem[t], v % NENTRIES));
      WithoutUBits(Entry(mem[t], v % NENTRIES));
      assert Entry(mem[t], v % NENTRIES) == View()[d][v];
      SetOnePte(mem, all, dirs, own, free, lent, d, v, w);
      ghost var mem' := WithPte(mem, d, v, w);
      ChainKept(mem, mem', freelist, free);
      SpacesSet(mem, mem', dirs, d, v, w);
      RemapUser(mem, mem', all, dirs, own, free, lent, d, v, w);
      mem := mem[t := WithEntry(mem[t], v % NENTRIES, w)];
    }

    // uva2ka(): the frame of a user page; 0 if it is absent or closed to the user.
    // Without a page table it reads through a null pointer: ok is false.
    method Uva2ka(d: nat, v: nat) returns (ok: bool, f: nat)
      requires Valid() && d in dirs && v < USER
      modifies this`mem, this`freelist, this`own, this`free, this`lent, this`misses
      ensures Valid() && Now() == old(Now())
      ensures ok <==> TableAt(mem, d, v)
      ensures ok ==> (f == 0 <==> !(Pte(mem, d, v) % 2 == 1 && Pte(mem, d, v) / 4 % 2 == 1))
      ensures ok && f != 0 ==> f == FrameOf(Pte(mem, d, v))
    {
      assert UseOk(mem, dirs, own, User(d, v));
      var t := Walkpgdir(d, v, false);
      if t == 0 {
        return false, 0;
      }
      ok := true;
      var w := Entry(mem[t], v % NENTRIES);
      if !Present(w) || !HasU(w) {
        return true, 0;
      }
      assert FrameOk(mem, dirs, own, FrameOf(w));
      f := FrameOf(w);
    }

    // copyout() when c bytes are copied.
    ghost predicate OutState(d: nat, va: nat, buf: seq<byte>, c: nat, s: Snap, m: map<nat, seq<nat>>)
      reads this`mem, this`freelist, this`dirs, this`own, this`free, this`lent, this`misses
    {
      && Valid() && d in dirs && va + |buf| <= KERNBASE && View() == m && Out(s.mem, mem, dirs, d, va, buf, c)
      && own == s.own && free == s.free && lent == s.lent && SameLent(s.mem, mem, lent) && AllOpen(m[d], va, c)
      && (forall u: nat :: TableAt(mem, d, u) == TableAt(s.mem, d, u))
    }

    // The loop body of copyout(): c' is c if the page is not the user's; ok is false
    // if it has no page table.
    method OutTurn(d: nat, ghost va: nat, buf: seq<byte>, a: nat, c: nat, ghost s: Snap, ghost m: map<nat, seq<nat>>) returns (ok: bool, c': nat)
      requires OutState(d, va, buf, c, s, m) && c < |buf| && a == va + c
      modifies this`mem, this`freelist, this`own, this`free, this`lent, this`misses
      ensures ok <==> TableAt(s.mem, d, (va + c) / PGSIZE)
      ensures !ok ==> c' == c
      ensures c <= c' <= |buf| && OutState(d, va, buf, c', s, m)
      ensures c' == c ==> !Open(m[d], va + c)
    {
      var v := a / PGSIZE;
      assert View()[d][v] == Pte(mem, d, v);
      var f;
      ok, f := Uva2ka(d, v);
      if !ok || f == 0 {
        return ok, c;
      }
      var n := if PGSIZE - a % PGSIZE > |buf| - c then |buf| - c else PGSIZE - a % PGSIZE;
      OpenMore(m[d], va, c, n);
      WriteUser(d, va, buf, a, c, n, f, s, m);
      c' := c + n;
    }

    method WriteUser(d: nat, ghost va: nat, buf: seq<byte>, a: nat, c: nat, n: nat, f: nat, ghost s: Snap, ghost m: map<nat, seq<nat>>)
      requires OutState(d, va, buf, c, s, m) && c + n <= |buf| && a == va + c && 0 < n <= PGSIZE - a % PGSIZE
      requires Present(Pte(mem, d, a / PGSIZE)) && f == FrameOf(Pte(mem, d, a / PGSIZE)) && AllOpen(m[d], va, c + n)
      modifies this`mem
      ensures OutState(d, va, buf, c + n, s, m)
    {
      OutStep(s.mem, mem, all, dirs, own, free, lent, d, va, buf, c, n);
      ghost var mem' := mem[f := Patch(mem[f], a % PGSIZE, buf[c..c + n])];
      ChainKept(mem, mem', freelist, free);
      DirsDistinct(mem, all, dirs, own, free, lent, d);
      TablesStay(mem, mem', d);
      mem := mem[f := Patch(mem[f], a % PGSIZE, buf[c..c + n])];
    }

    // copyout(): 0, and exactly the bytes from va on are those of buf; or -1 at
    // the first page that is not the user's, and the bytes before it are copied;
    // -2 stands for reading through a null pointer, exactly if that page has no
    // page table.
    method Copyout(d: nat, va: nat, buf: seq<byte>) returns (r: int, c: nat)
      requires Valid() && d in dirs && va + |buf| <= KERNBASE
      modifies this`mem, this`freelist, this`own, this`free, this`lent, this`misses
      ensures OutState(d, va, buf, c, old(Now()), old(View()))
      ensures r == 0 ==> c == |buf|
      ensures r != 0 ==> (r == -1 || r == -2) && c < |buf| && !Open(old(View())[d], va + c)
      ensures r != 0 ==> (r == -2 <==> !TableAt(old(mem), d, (va + c) / PGSIZE))
      ensures r == 0 <==> AllOpen(old(View())[d], va, |buf|)
      ensures r == -2 <==> exists k: nat :: k < |buf| && NullAt(old(mem), old(View())[d], d, va, k)
    {
      r, c := CopyoutLoop(d, va, buf, Now(), View());
      StopsAt(old(mem), old(View())[d], d, va, |buf|, c);
    }

    // The loop of copyout().
    method CopyoutLoop(d: nat, va: nat, buf: seq<byte>, ghost s: Snap, ghost m: map<nat, seq<nat>>) returns (r: int, c: nat)
      requires OutState(d, va, buf, 0, s, m)
      modifies this`mem, this`freelist, this`own, this`free, this`lent, this`misses
      ensures OutState(d, va, buf, c, s, m)
      ensures r == 0 ==> c == |buf|
      ensures r != 0 ==> (r == -1 || r == -2) && c < |buf| && d in m && !Open(m[d], va + c)
      ensures r != 0 ==> (r == -2 <==> !TableAt(s.mem, d, (va + c) / PGSIZE))
    {
      c := 0;
      var a := va;
      while c < |buf|
        invariant a == va + c && OutState(d, va, buf, c, s, m)
      {
        var ok, c' := OutTurn(d, va, buf, a, c, s, m);
        if c' == c {
          return if ok then -1 else -2, c;
        }
        c := c';
        a := va + c;
      }
      r := 0;
    }
  }

  // copyout() into a new directory reads through a null pointer.
  method NullCopy() returns (m: Machine, d: nat, r: int)
    ensures m.Valid() && d in m.dirs && r == -2
  {
    m := new Machine([Filled(0), Filled(0)], 1, {1}, []);
    m.Kfree(1);
    d := m.NewDirectory();
    assert !TableAt(m.mem, d, 0);
    assert NullAt(m.mem, m.View()[d], d, 0, 0);
    var c;
    r, c := m.Copyout(d, 0, [7]);
  }
}
