// The Kernighan and Ritchie storage allocator of umalloc.c.
//
// Addresses count header-sized units, so `bp + bp->s.size` of the source is
// plain addition here.  The two words of a header are the entries of `ptr` and
// `size` at its address, and 0 is the null pointer.
module UMalloc {

  const WORD: nat := 0x1_0000_0000
  const HEADER: nat := 8
  const MIN_UNITS: nat := 4096

  // Units for a request of `nbytes` bytes, with the wrap-around of C's
  // unsigned arithmetic.
  function UnitsFor(nbytes: nat): (n: nat)
    ensures n >= 1 && n * HEADER <= WORD
    ensures nbytes + HEADER - 1 < WORD ==> nbytes <= (n - 1) * HEADER < nbytes + HEADER
  {
    (nbytes + HEADER - 1) % WORD / HEADER + 1
  }

  // A block of UnitsFor(nbytes) units spends one on its header.  The rest
  // holds the request exactly when the rounding did not wrap.
  lemma PayloadHoldsRequestIff(nbytes: nat)
    requires nbytes < WORD
    ensures (UnitsFor(nbytes) - 1) * HEADER >= nbytes <==> nbytes + HEADER - 1 < WORD
  {
    var t := nbytes + HEADER - 1;
    if t < WORD {
      assert t % WORD == t;
    } else {
      assert t % WORD == t - WORD;
    }
  }

  // The requests whose units, in bytes, are a positive argument of sbrk: all
  // but those of about two gigabytes or more, and the few that wrap to 1.
  lemma SbrkArgumentPositiveIff(nbytes: nat)
    requires nbytes < WORD
    ensures UnitsFor(nbytes) * HEADER < WORD / 2 <==> nbytes <= WORD / 2 - 16 || nbytes + HEADER - 1 >= WORD
  {
    var t := nbytes + HEADER - 1;
    if t < WORD {
      assert t % WORD == t;
    } else {
      assert t % WORD == t - WORD;
    }
  }

  // ----- the free list as a value -----

  datatype Blk = Blk(a: int, n: nat) {
    function End(): int { a + n }
  }

  // Address order, and a gap between neighbours: no two blocks overlap or touch.
  ghost predicate Spaced(b: seq<Blk>) {
    forall i :: 0 <= i < |b| - 1 ==> b[i].End() < b[i + 1].a
  }

  // The header at p.a holds the size of p and points to `next`.
  ghost predicate Cell(p: Blk, next: int, ptr: map<int, int>, size: map<int, nat>) {
    p.a in ptr && p.a in size && ptr[p.a] == next && size[p.a] == p.n
  }

  ghost function First(b: seq<Blk>, otherwise: int): int {
    if b == [] then otherwise else b[0].a
  }

  ghost predicate LinkedAt(b: seq<Blk>, i: int, last: int, ptr: map<int, int>, size: map<int, nat>)
    requires 0 <= i < |b|
  {
    Cell(b[i], if i + 1 < |b| then b[i + 1].a else last, ptr, size)
  }

  // The blocks are linked in list order, and the last one points to `last`.
  ghost predicate Chain(b: seq<Blk>, last: int, ptr: map<int, int>, size: map<int, nat>) {
    forall i :: 0 <= i < |b| ==> LinkedAt(b, i, last, ptr, size)
  }

  // The empty anchor comes first; all other blocks are not empty.
  ghost predicate Anchored(base: int, b: seq<Blk>) {
    b != [] && b[0] == Blk(base, 0) && forall i :: 1 <= i < |b| ==> b[i].n > 0
  }

  ghost predicate Within(u: int, a: int, n: nat) {
    a <= u < a + n
  }

  ghost function Range(a: int, n: nat): set<int> {
    set u | a <= u < a + n && Within(u, a, n)
  }

  lemma InRange(u: int, a: int, n: nat)
    ensures u in Range(a, n) <==> a <= u < a + n
  {
    assert Within(u, a, n) <==> a <= u < a + n;
  }

  // sbrk() handed out at least MIN_UNITS units above the old end of memory, enough
  // for `nu`, and all of them joined the heap.
  ghost predicate Granted(nu: nat, oldBrk: int, brk: int, oldOwned: set<int>, owned: set<int>) {
    var units := if nu < MIN_UNITS then MIN_UNITS else nu;
    oldBrk + units <= brk && owned == oldOwned + Range(brk - units, units)
  }

  // The block of n units behind address r - 1 is live, and was not.
  predicate Hands(live: map<int, nat>, live': map<int, nat>, r: int, n: nat) {
    r - 1 !in live && live' == live[r - 1 := n]
  }

  lemma RangeJoin(a: int, n: nat, m: nat)
    ensures Range(a, n + m) == Range(a, n) + Range(a + n, m)
    ensures Range(a, n) !! Range(a + n, m)
  {
    assert forall u :: !Within(u, a, n) || !Within(u, a + n, m);
    assert forall u :: Within(u, a, n + m) <==> Within(u, a, n) || Within(u, a + n, m);
  }

  ghost function Units(b: seq<Blk>): set<int> {
    if b == [] then {} else Range(b[0].a, b[0].n) + Units(b[1..])
  }

  ghost function LiveUnits(live: map<int, nat>): set<int> {
    set a, u | a in live && u in Range(a, live[a]) :: u
  }

  lemma {:induction false} SpacedOrder(b: seq<Blk>, i: nat, j: nat)
    requires Spaced(b) && i < j < |b|
    ensures b[i].End() < b[j].a
    decreases j
  {
    if i + 1 < j {
      SpacedOrder(b, i, j - 1);
      assert b[j - 1].End() < b[j - 1 + 1].a;
    }
  }

  lemma SpacedSplit(x: seq<Blk>, y: seq<Blk>)
    ensures Spaced(x + y) <==>
      Spaced(x) && Spaced(y) && (x != [] && y != [] ==> x[|x| - 1].End() < y[0].a)
  {
    var b := x + y;
    if Spaced(b) {
      forall i | 0 <= i < |x| - 1 ensures x[i].End() < x[i + 1].a {
        assert b[i] == x[i] && b[i + 1] == x[i + 1];
      }
      forall i | 0 <= i < |y| - 1 ensures y[i].End() < y[i + 1].a {
        assert b[|x| + i] == y[i] && b[|x| + i + 1] == y[i + 1];
      }
      if x != [] && y != [] {
        assert b[|x| - 1] == x[|x| - 1] && b[|x| - 1 + 1] == y[0];
      }
    }
  }

  lemma ChainSplit(x: seq<Blk>, y: seq<Blk>, last: int, ptr: map<int, int>, size: map<int, nat>)
    ensures Chain(x + y, last, ptr, size) <==>
      Chain(x, First(y, last), ptr, size) && Chain(y, last, ptr, size)
  {
    var b := x + y;
    forall i | 0 <= i < |x|
      ensures LinkedAt(b, i, last, ptr, size) <==> LinkedAt(x, i, First(y, last), ptr, size)
    {
    }
    forall i | 0 <= i < |y|
      ensures LinkedAt(b, |x| + i, last, ptr, size) <==> LinkedAt(y, i, last, ptr, size)
    {
    }
    if Chain(x, First(y, last), ptr, size) && Chain(y, last, ptr, size) {
      forall i | 0 <= i < |b| ensures LinkedAt(b, i, last, ptr, size) {
        if i < |x| {
          assert LinkedAt(x, i, First(y, last), ptr, size);
        } else {
          assert LinkedAt(y, i - |x|, last, ptr, size);
        }
      }
    }
  }

  lemma ChainAt(b: seq<Blk>, i: nat, last: int, ptr: map<int, int>, size: map<int, nat>)
    requires Chain(b, last, ptr, size) && i < |b|
    ensures Cell(b[i], if i + 1 < |b| then b[i + 1].a else last, ptr, size)
  {
    assert LinkedAt(b, i, last, ptr, size);
  }

  // A chain does not see writes to other headers.
  lemma ChainFrame(b: seq<Blk>, last: int, ptr: map<int, int>, size: map<int, nat>,
      ptr': map<int, int>, size': map<int, nat>)
    requires Chain(b, last, ptr, size)
    requires forall p :: p in b && p.a in ptr && p.a in size ==>
      p.a in ptr' && p.a in size' && ptr'[p.a] == ptr[p.a] && size'[p.a] == size[p.a]
    ensures Chain(b, last, ptr', size')
  {
    forall i | 0 <= i < |b| ensures LinkedAt(b, i, last, ptr', size') {
      assert LinkedAt(b, i, last, ptr, size);
      assert b[i] in b;
    }
  }

  lemma ChainOne(p: Blk, last: int, ptr: map<int, int>, size: map<int, nat>)
    ensures Chain([p], last, ptr, size) <==> Cell(p, last, ptr, size)
  {
    assert LinkedAt([p], 0, last, ptr, size) <==> Cell(p, last, ptr, size);
  }

  lemma {:induction false} UnitsSplit(x: seq<Blk>, y: seq<Blk>)
    ensures Units(x + y) == Units(x) + Units(y)
  {
    if x == [] {
      assert x + y == y;
    } else {
      assert (x + y)[1..] == x[1..] + y;
      UnitsSplit(x[1..], y);
    }
  }

  lemma UnitsOne(p: Blk)
    ensures Units([p]) == Range(p.a, p.n)
  {
    assert [p][1..] == [];
  }

  // All units of a spaced list lie between its first block and its last.
  lemma {:induction false} UnitsWithin(b: seq<Blk>, u: int)
    requires Spaced(b) && u in Units(b)
    ensures b != [] && b[0].a <= u < b[|b| - 1].End()
  {
    if u in Range(b[0].a, b[0].n) {
      if |b| > 1 { SpacedOrder(b, 0, |b| - 1); }
    } else {
      assert Spaced(b[1..]) by { assert b == b[..1] + b[1..]; SpacedSplit(b[..1], b[1..]); }
      UnitsWithin(b[1..], u);
      assert b[0].End() < b[0 + 1].a;
    }
  }

  // ----- giving a block back -----

  // The blocks that replace the pair p, bp: one if they touch.
  ghost function Join(p: Blk, bp: Blk): (r: seq<Blk>) {
    if p.End() == bp.a then [Blk(p.a, p.n + bp.n)] else [p, bp]
  }

  ghost predicate TouchesNext(bp: Blk, post: seq<Blk>) {
    post != [] && bp.End() == post[0].a
  }

  // bp grown over the block after it, if they touch.
  ghost function Grown(bp: Blk, post: seq<Blk>): (r: Blk)
  {
    if TouchesNext(bp, post) then Blk(bp.a, bp.n + post[0].n) else bp
  }

  ghost function Rest(bp: Blk, post: seq<Blk>): (r: seq<Blk>)
  {
    if TouchesNext(bp, post) then post[1..] else post
  }

  // The list pre + [p] + post with bp put in its place after p.
  ghost function Insert(pre: seq<Blk>, p: Blk, bp: Blk, post: seq<Blk>): (r: seq<Blk>)
  {
    pre + (Join(p, Grown(bp, post)) + Rest(bp, post))
  }

  lemma InsertUnits(pre: seq<Blk>, p: Blk, bp: Blk, post: seq<Blk>)
    ensures Units(Insert(pre, p, bp, post)) == Units(pre + ([p] + post)) + Range(bp.a, bp.n)
  {
    var g, rest := Grown(bp, post), Rest(bp, post);
    UnitsSplit(pre, Join(p, g) + rest);
    UnitsSplit(Join(p, g), rest);
    UnitsSplit(pre, [p] + post);
    UnitsSplit([p], post);
    UnitsOne(p);
    UnitsOne(g);
    UnitsSplit([p], [g]);
    assert [p] + [g] == [p, g];
    if p.End() == g.a {
      UnitsOne(Blk(p.a, p.n + g.n));
      RangeJoin(p.a, p.n, g.n);
    }
    if TouchesNext(bp, post) {
      RangeJoin(bp.a, bp.n, post[0].n);
    }
  }

  lemma InsertSpaced(pre: seq<Blk>, p: Blk, bp: Blk, post: seq<Blk>)
    requires Spaced(pre + ([p] + post)) && bp.n > 0
    requires p.End() <= bp.a
    requires post != [] ==> bp.End() <= post[0].a
    ensures Spaced(Insert(pre, p, bp, post))
  {
    var g, rest := Grown(bp, post), Rest(bp, post);
    SpacedSplit(pre, [p] + post);
    SpacedSplit([p], post);
    assert post != [] ==> post == post[..1] + post[1..];
    SpacedSplit(post[..if post == [] then 0 else 1], rest);
    assert rest != [] ==> g.End() < rest[0].a;
    SpacedSplit(Join(p, g), rest);
    SpacedSplit(pre, Join(p, g) + rest);
  }

  lemma InsertAnchored(base: int, pre: seq<Blk>, p: Blk, bp: Blk, post: seq<Blk>)
    requires Anchored(base, pre + ([p] + post)) && bp.n > 0
    requires pre == [] ==> p.End() < bp.a
    ensures Anchored(base, Insert(pre, p, bp, post))
  {
    var b, r := pre + ([p] + post), Insert(pre, p, bp, post);
    assert b[|pre|] == p;
    assert forall i :: 0 <= i < |post| ==> b[|pre| + 1 + i] == post[i];
    var m := |Join(p, Grown(bp, post))|;
    forall i | 1 <= i < |r|
      ensures r[i].n > 0
    {
      if i < |pre| {
        assert r[i] == b[i];
      } else if i >= |pre| + m {
        assert r[i] in Rest(bp, post);
        var j :| 0 <= j < |Rest(bp, post)| && Rest(bp, post)[j] == r[i];
        assert r[i] in post;
      }
    }
  }

  // ----- the heap as a value -----

  // Every unit obtained from the system is in exactly one block, free or live.
  ghost predicate Partition(b: seq<Blk>, live: map<int, nat>, owned: set<int>) {
    owned == Units(b) + LiveUnits(live) && Units(b) !! LiveUnits(live)
  }

  ghost predicate Live(live: map<int, nat>, size: map<int, nat>) {
    && (forall a :: a in live ==> live[a] > 0 && a in size && size[a] == live[a])
    && (forall a, c :: a in live && c in live && a != c ==> Apart(live, a, c))
  }

  ghost predicate Apart(live: map<int, nat>, a: int, c: int) {
    a in live && c in live && (a + live[a] <= c || c + live[c] <= a)
  }

  ghost predicate Inside(base: int, owned: set<int>, brk: int) {
    0 < base < brk && forall u :: u in owned ==> base < u < brk
  }

  lemma LiveStart(live: map<int, nat>, bp: int)
    requires bp in live && live[bp] > 0
    ensures bp in LiveUnits(live)
  {
    InRange(bp, bp, live[bp]);
  }

  lemma LiveSplit(live: map<int, nat>, size: map<int, nat>, bp: int)
    requires Live(live, size) && bp in live
    ensures LiveUnits(live) == LiveUnits(live - {bp}) + Range(bp, live[bp])
    ensures LiveUnits(live - {bp}) !! Range(bp, live[bp])
  {
    var rest := live - {bp};
    forall u | u in LiveUnits(live)
      ensures u in LiveUnits(rest) + Range(bp, live[bp])
    {
      var a :| a in live && u in Range(a, live[a]);
      assert a != bp ==> a in rest && rest[a] == live[a];
    }
    forall u | u in LiveUnits(rest)
      ensures u in LiveUnits(live) && u !in Range(bp, live[bp])
    {
      var a :| a in rest && u in Range(a, rest[a]);
      assert a in live && live[a] == rest[a] && a != bp;
      assert Apart(live, a, bp);
      InRange(u, a, live[a]);
      InRange(u, bp, live[bp]);
    }
  }

  // The units of a block belong to its list.
  lemma UnitsHas(b: seq<Blk>, i: nat)
    requires i < |b|
    ensures Range(b[i].a, b[i].n) <= Units(b)
  {
    assert b == b[..i] + ([b[i]] + b[i + 1..]);
    UnitsSplit(b[..i], [b[i]] + b[i + 1..]);
    UnitsSplit([b[i]], b[i + 1..]);
    UnitsOne(b[i]);
  }

  // A live block keeps clear of the free block before it and of the one after.
  lemma LiveClear(b: seq<Blk>, live: map<int, nat>, owned: set<int>, bp: int, i: nat)
    requires Partition(b, live, owned) && bp in live && live[bp] > 0 && i < |b|
    ensures b[i].a <= bp ==> b[i].End() <= bp
    ensures bp <= b[i].a && b[i].n > 0 ==> bp + live[bp] <= b[i].a
  {
    UnitsHas(b, i);
    LiveStart(live, bp);
    InRange(bp, b[i].a, b[i].n);
    InRange(b[i].a, b[i].a, b[i].n);
    InRange(b[i].a, bp, live[bp]);
    assert b[i].a in Range(bp, live[bp]) ==> b[i].a in LiveUnits(live);
  }

  // The place of address u: the last block that starts below it.
  lemma {:induction false} Place(b: seq<Blk>, u: int) returns (t: nat)
    requires Spaced(b) && b != [] && b[0].a < u
    ensures t < |b| && b[t].a < u && (t + 1 < |b| ==> u <= b[t + 1].a)
  {
    t := 0;
    while t + 1 < |b| && b[t + 1].a < u
      invariant t < |b| && b[t].a < u
    {
      t := t + 1;
    }
  }

  lemma HeadCells(b: seq<Blk>, k: nat, base: int, ptr: map<int, int>, size: map<int, nat>)
    requires Chain(b, base, ptr, size) && k < |b|
    ensures Cell(b[k], First(b[k + 1..], base), ptr, size)
    ensures k + 1 < |b| ==> Cell(b[k + 1], First(b[k + 1..][1..], base), ptr, size)
  {
    ChainAt(b, k, base, ptr, size);
    if k + 1 < |b| {
      ChainAt(b, k + 1, base, ptr, size);
    }
  }

  // What the search loop of free() compares, at every position k.
  lemma PlaceOrder(b: seq<Blk>, u: int, t: nat, k: nat)
    requires Spaced(b) && t < |b| && k < |b| && b[t].a < u && (t + 1 < |b| ==> u <= b[t + 1].a)
    ensures b[0].a <= b[k].a
    ensures k + 1 < |b| ==> b[k].a < b[k + 1].a
    ensures k < t ==> b[k + 1].a < u
    ensures k <= t ==> b[k].a < u
    ensures t < k ==> u <= b[k].a
  {
    if k > 0 { SpacedOrder(b, 0, k); }
    if k + 1 < |b| { SpacedOrder(b, k, k + 1); }
    if k < t { SpacedOrder(b, k, t); }
    if k + 1 < t { SpacedOrder(b, k + 1, t); }
    if t + 1 < k { SpacedOrder(b, t + 1, k); }
  }

  lemma Neighbours(pre: seq<Blk>, p: Blk, bp: Blk, post: seq<Blk>)
    requires Spaced(pre + ([p] + post))
    requires p.End() <= bp.a && p.a < bp.a && (post != [] ==> bp.End() <= post[0].a) && bp.n > 0
    ensures forall q :: q in pre ==> q.a < p.a
    ensures forall q :: q in post ==> q.a > bp.a
  {
    var b := pre + ([p] + post);
    forall q | q in pre ensures q.a < p.a {
      var i :| 0 <= i < |pre| && pre[i] == q;
      assert b[i] == q && b[|pre|] == p;
      SpacedOrder(b, i, |pre|);
    }
    forall q | q in post ensures q.a > bp.a {
      var i :| 0 <= i < |post| && post[i] == q;
      assert b[|pre| + 1 + i] == q && b[|pre| + 1] == post[0];
      if i > 0 { SpacedOrder(b, |pre| + 1, |pre| + 1 + i); }
    }
  }

  // After the four writes of free() the new list is linked.
  lemma Relinked(pre: seq<Blk>, p: Blk, bp: Blk, post: seq<Blk>, base: int,
      ptr: map<int, int>, size: map<int, nat>, ptr': map<int, int>, size': map<int, nat>)
    requires Spaced(pre + ([p] + post)) && Chain(pre + ([p] + post), base, ptr, size)
    requires p.End() <= bp.a && p.a < bp.a && (post != [] ==> bp.End() <= post[0].a) && bp.n > 0
    requires forall a :: a != p.a && a != bp.a && a in ptr ==> a in ptr' && ptr'[a] == ptr[a]
    requires forall a :: a != p.a && a != bp.a && a in size ==> a in size' && size'[a] == size[a]
    requires var g, rest := Grown(bp, post), Rest(bp, post);
      if p.End() == g.a then Cell(Blk(p.a, p.n + g.n), First(rest, base), ptr', size')
      else Cell(p, bp.a, ptr', size') && Cell(g, First(rest, base), ptr', size')
    ensures Chain(Insert(pre, p, bp, post), base, ptr', size')
  {
    var g, rest := Grown(bp, post), Rest(bp, post);
    Cut(pre, p, post, base, ptr, size);
    if TouchesNext(bp, post) {
      assert post == [] + ([post[0]] + rest);
      Cut([], post[0], rest, base, ptr, size);
    }
    Neighbours(pre, p, bp, post);
    assert forall q :: q in rest ==> q in post;
    ChainFrame(pre, p.a, ptr, size, ptr', size');
    ChainFrame(rest, base, ptr, size, ptr', size');
    if p.End() == g.a {
      Cut(pre, Blk(p.a, p.n + g.n), rest, base, ptr', size');
    } else {
      assert Join(p, g) + rest == [p] + ([] + ([g] + rest));
      assert [] + ([g] + rest) == [g] + rest;
      Cut([], g, rest, base, ptr', size');
      Cut(pre, p, [g] + rest, base, ptr', size');
    }
  }

  lemma LiveNotFree(base: int, b: seq<Blk>, live: map<int, nat>, size: map<int, nat>, owned: set<int>, brk: int, a: int, i: nat)
    requires Inside(base, owned, brk) && Live(live, size) && Partition(b, live, owned) && Anchored(base, b)
    requires a in live && i < |b|
    ensures a in owned && base < a && b[i].a != a
  {
    LiveStart(live, a);
    UnitsHas(b, i);
    InRange(b[i].a, b[i].a, b[i].n);
  }

  // A spaced list of non-empty blocks is determined by the set of its units, so
  // what free() and malloc() leave in the list is determined by which units
  // are live, whatever the order of the calls was.
  lemma {:induction false} SpacedDetermined(b: seq<Blk>, c: seq<Blk>)
    requires Spaced(b) && Spaced(c) && Units(b) == Units(c)
    requires (forall p :: p in b ==> p.n > 0) && (forall p :: p in c ==> p.n > 0)
    ensures b == c
  {
    if b != [] {
      HeadUnit(b);
      UnitsWithin(c, b[0].a);
      SameHead(b, c);
      SameHead(c, b);
      TailUnits(b);
      TailUnits(c);
      SpacedDetermined(b[1..], c[1..]);
      assert b == [b[0]] + b[1..] && c == [c[0]] + c[1..];
    } else if c != [] {
      HeadUnit(c);
      assert false;
    }
  }

  lemma HeadUnit(b: seq<Blk>)
    requires b != [] && b[0].n > 0
    ensures b[0].a in Units(b)
  {
    UnitsHas(b, 0);
    InRange(b[0].a, b[0].a, b[0].n);
  }

  lemma TailUnits(b: seq<Blk>)
    requires b != [] && Spaced(b)
    ensures Spaced(b[1..]) && Units(b[1..]) == Units(b) - Range(b[0].a, b[0].n)
    ensures forall p :: p in b[1..] ==> p in b
  {
    assert b == [b[0]] + b[1..];
    SpacedSplit([b[0]], b[1..]);
    SpacedDisjoint([b[0]], b[1..]);
    UnitsOne(b[0]);
  }

  lemma SameHead(b: seq<Blk>, c: seq<Blk>)
    requires Spaced(b) && Spaced(c) && Units(b) == Units(c) && b != [] && c != []
    requires b[0].n > 0 && c[0].n > 0
    ensures c[0].a <= b[0].a
    ensures c[0].a == b[0].a ==> b[0].n <= c[0].n
  {
    UnitsHas(b, 0);
    InRange(b[0].a, b[0].a, b[0].n);
    UnitsWithin(c, b[0].a);
    var u := c[0].End();
    InRange(u, b[0].a, b[0].n);
    if c[0].a == b[0].a && u < b[0].End() {
      assert u in Units(c);
      InRange(u, c[0].a, c[0].n);
      assert u in Units(c[1..]);
      assert c == [c[0]] + c[1..];
      SpacedSplit([c[0]], c[1..]);
      UnitsWithin(c[1..], u);
      assert false;
    }
  }

  // free() as a step of the heap: bp moves from the live blocks to the list.
  lemma FreeStep(base: int, pre: seq<Blk>, p: Blk, bp: Blk, post: seq<Blk>, live: map<int, nat>,
      size: map<int, nat>, size': map<int, nat>, owned: set<int>, brk: int)
    requires var b := pre + ([p] + post);
      Inside(base, owned, brk) && Live(live, size) && Partition(b, live, owned) && Anchored(base, b) && Spaced(b)
    requires bp.a in live && live[bp.a] == bp.n && p.a < bp.a && (post != [] ==> bp.a < post[0].a)
    requires forall a :: a != p.a && a != bp.a && a in size ==> a in size' && size'[a] == size[a]
    ensures p.End() <= bp.a && (post != [] ==> bp.End() <= post[0].a)
    ensures Live(live - {bp.a}, size')
    ensures Partition(Insert(pre, p, bp, post), live - {bp.a}, owned)
    ensures Spaced(Insert(pre, p, bp, post)) && Anchored(base, Insert(pre, p, bp, post))
  {
    var b := pre + ([p] + post);
    assert b[|pre|] == p;
    LiveClear(b, live, owned, bp.a, |pre|);
    LiveNotFree(base, b, live, size, owned, brk, bp.a, |pre|);
    if post != [] {
      assert b[|pre| + 1] == post[0];
      LiveClear(b, live, owned, bp.a, |pre| + 1);
    }
    InsertSpaced(pre, p, bp, post);
    assert pre == [] ==> b[0] == p;
    InsertAnchored(base, pre, p, bp, post);
    LiveSplit(live, size, bp.a);
    InsertUnits(pre, p, bp, post);
    var live' := live - {bp.a};
    forall a | a in live'
      ensures live'[a] > 0 && a in size' && size'[a] == live'[a]
    {
      LiveNotFree(base, b, live, size, owned, brk, a, |pre|);
    }
    forall a, c | a in live' && c in live' && a != c
      ensures Apart(live', a, c)
    {
      assert Apart(live, a, c);
    }
  }

  // What is left of the free block q once n units are cut off its end.
  ghost function Left(q: Blk, n: nat): (r: seq<Blk>)
    requires n <= q.n
  {
    if q.n == n then [] else [Blk(q.a, q.n - n)]
  }

  // malloc() as a step of the heap: the last n units of q become live.
  lemma TakeStep(base: int, pre: seq<Blk>, q: Blk, post: seq<Blk>, n: nat, live: map<int, nat>,
      size: map<int, nat>, size': map<int, nat>, owned: set<int>, brk: int)
    requires var b := pre + ([q] + post);
      Inside(base, owned, brk) && Live(live, size) && Partition(b, live, owned) && Anchored(base, b) && Spaced(b)
    requires 0 < n <= q.n && pre != []
    requires forall a :: a != q.a && a != q.End() - n && a in size ==> a in size' && size'[a] == size[a]
    requires q.End() - n in size' && size'[q.End() - n] == n
    ensures q.End() - n !in live
    ensures Live(live[q.End() - n := n], size')
    ensures Partition(pre + (Left(q, n) + post), live[q.End() - n := n], owned)
    ensures Spaced(pre + (Left(q, n) + post)) && Anchored(base, pre + (Left(q, n) + post))
  {
    var b, bp := pre + ([q] + post), q.End() - n;
    assert b[|pre|] == q;
    var live' := live[bp := n];
    forall a | a in live
      ensures a != bp && a != q.a && (a + live[a] <= q.a || q.End() <= a)
    {
      LiveClear(b, live, owned, a, |pre|);
    }
    assert live' - {bp} == live;
    forall a, c | a in live' && c in live' && a != c
      ensures Apart(live', a, c)
    {
      if a != bp && c != bp { assert Apart(live, a, c); }
    }
    LiveSplit(live', size', bp);
    TakeUnits(pre, q, post, n);
    SpacedSplit(pre, [q] + post);
    SpacedSplit([q], post);
    SpacedSplit(Left(q, n), post);
    SpacedSplit(pre, Left(q, n) + post);
    TakeAnchored(base, pre, q, post, n);
  }

  lemma SpacedDisjoint(x: seq<Blk>, y: seq<Blk>)
    requires Spaced(x + y)
    ensures Units(x) !! Units(y)
  {
    SpacedSplit(x, y);
    forall u | u in Units(x) ensures u !in Units(y) {
      UnitsWithin(x, u);
      if u in Units(y) { UnitsWithin(y, u); }
    }
  }

  lemma TakeUnits(pre: seq<Blk>, q: Blk, post: seq<Blk>, n: nat)
    requires n <= q.n && Spaced(pre + ([q] + post))
    ensures Units(pre + ([q] + post)) == Units(pre + (Left(q, n) + post)) + Range(q.End() - n, n)
    ensures Units(pre + (Left(q, n) + post)) !! Range(q.End() - n, n)
  {
    SpacedDisjoint(pre, [q] + post);
    SpacedSplit(pre, [q] + post);
    SpacedDisjoint([q], post);
    UnitsSplit(pre, [q] + post);
    UnitsSplit([q], post);
    UnitsSplit(pre, Left(q, n) + post);
    UnitsSplit(Left(q, n), post);
    UnitsOne(q);
    UnitsOne(Blk(q.a, q.n - n));
    RangeJoin(q.a, q.n - n, n);
  }

  lemma TakeAnchored(base: int, pre: seq<Blk>, q: Blk, post: seq<Blk>, n: nat)
    requires Anchored(base, pre + ([q] + post)) && n <= q.n && pre != []
    ensures Anchored(base, pre + (Left(q, n) + post))
  {
    var b, r := pre + ([q] + post), pre + (Left(q, n) + post);
    assert b[0] == pre[0];
    forall i | 1 <= i < |r|
      ensures r[i].n > 0
    {
      if i < |pre| {
        assert r[i] == b[i];
      } else if i >= |pre| + |Left(q, n)| {
        assert r[i] == b[i - |Left(q, n)| + 1];
      }
    }
  }

  lemma Cut(pre: seq<Blk>, q: Blk, post: seq<Blk>, last: int, ptr: map<int, int>, size: map<int, nat>)
    ensures Chain(pre + ([q] + post), last, ptr, size) <==>
      Chain(pre, q.a, ptr, size) && Cell(q, First(post, last), ptr, size) && Chain(post, last, ptr, size)
  {
    ChainSplit(pre, [q] + post, last, ptr, size);
    ChainSplit([q], post, last, ptr, size);
    ChainOne(q, First(post, last), ptr, size);
  }

  lemma Around(pre: seq<Blk>, q: Blk, post: seq<Blk>)
    requires Spaced(pre + ([q] + post))
    ensures forall r :: r in pre ==> r.a < q.a
    ensures forall r :: r in post ==> q.End() < r.a
  {
    SpacedSplit(pre, [q] + post);
    assert pre + ([q] + post) == (pre + [q]) + post;
    SpacedSplit(pre + [q], post);
    forall r | r in pre ensures r.a < q.a { BeforeLast(pre, q, r); }
    AfterFirst(q, post);
  }

  // After the writes of malloc() the list without the taken units is linked:
  // the previous block now skips q, or q is shorter.
  lemma TakeLinkedExact(rest: seq<Blk>, prev: Blk, q: Blk, post: seq<Blk>, base: int, ptr: map<int, int>, size: map<int, nat>)
    requires Spaced(rest + ([prev] + ([q] + post))) && Chain(rest + ([prev] + ([q] + post)), base, ptr, size)
    ensures Chain(rest + ([prev] + post), base, ptr[prev.a := First(post, base)], size)
  {
    var ptr' := ptr[prev.a := First(post, base)];
    Cut(rest, prev, [q] + post, base, ptr, size);
    ChainSplit([q], post, base, ptr, size);
    Around(rest, prev, [q] + post);
    forall r | r in post ensures r.a != prev.a { assert r in [q] + post; }
    ChainFrame(rest, prev.a, ptr, size, ptr', size);
    ChainFrame(post, base, ptr, size, ptr', size);
    Cut(rest, prev, post, base, ptr', size);
  }

  lemma TakeLinkedTail(pre: seq<Blk>, q: Blk, post: seq<Blk>, n: nat, base: int, ptr: map<int, int>, size: map<int, nat>)
    requires Spaced(pre + ([q] + post)) && Chain(pre + ([q] + post), base, ptr, size) && 0 < n < q.n
    ensures Chain(pre + ([Blk(q.a, q.n - n)] + post), base, ptr, size[q.a := q.n - n][q.End() - n := n])
  {
    var size' := size[q.a := q.n - n][q.End() - n := n];
    Cut(pre, q, post, base, ptr, size);
    Around(pre, q, post);
    ChainFrame(pre, q.a, ptr, size, ptr, size');
    ChainFrame(post, base, ptr, size, ptr, size');
    Cut(pre, Blk(q.a, q.n - n), post, base, ptr, size');
  }

  lemma BeforeLast(pre: seq<Blk>, q: Blk, r: Blk)
    requires Spaced(pre + [q]) && r in pre
    ensures r.a < q.a
  {
    var i :| 0 <= i < |pre| && pre[i] == r;
    assert (pre + [q])[i] == r && (pre + [q])[|pre|] == q;
    SpacedOrder(pre + [q], i, |pre|);
  }

  lemma AfterFirst(q: Blk, post: seq<Blk>)
    requires Spaced([q] + post)
    ensures forall r :: r in post ==> q.End() < r.a
  {
    forall r | r in post ensures q.End() < r.a {
      var i :| 0 <= i < |post| && post[i] == r;
      assert ([q] + post)[1 + i] == r && ([q] + post)[0] == q;
      SpacedOrder([q] + post, 0, 1 + i);
    }
  }

  ghost predicate Heap(base: int, freep: int, fi: nat, b: seq<Blk>, ptr: map<int, int>, size: map<int, nat>,
      live: map<int, nat>, owned: set<int>, brk: int)
  {
    && Inside(base, owned, brk) && Live(live, size) && Partition(b, live, owned)
    && (freep == 0 ==> b == [])
    && (freep != 0 ==>
          && Chain(b, base, ptr, size) && Spaced(b) && Anchored(base, b)
          && fi < |b| && freep == b[fi].a)
  }

  // The free blocks next to a live one leave room for it.
  lemma FreeRoom(base: int, freep: int, fi: nat, b: seq<Blk>, k: nat, bp: int, ptr: map<int, int>, size: map<int, nat>,
      live: map<int, nat>, owned: set<int>, brk: int)
    requires freep != 0 && Heap(base, freep, fi, b, ptr, size, live, owned, brk) && bp in live
    requires k < |b| && b[k].a < bp && (k + 1 < |b| ==> bp < b[k + 1].a)
    ensures b[k].End() <= bp && base <= b[k].a && live[bp] > 0 && bp in size && size[bp] == live[bp]
    ensures k + 1 < |b| ==> bp + live[bp] <= b[k + 1].a
  {
    LiveClear(b, live, owned, bp, k);
    if k + 1 < |b| {
      LiveClear(b, live, owned, bp, k + 1);
    }
    PlaceOrder(b, bp, k, k);
  }

  // The whole effect of free(), from the facts its writes establish.
  lemma FreeHeap(base: int, freep: int, fi: nat, b: seq<Blk>, k: nat, bp: Blk, live: map<int, nat>, owned: set<int>, brk: int,
      ptr: map<int, int>, size: map<int, nat>, ptr': map<int, int>, size': map<int, nat>) returns (b': seq<Blk>)
    requires freep != 0 && Heap(base, freep, fi, b, ptr, size, live, owned, brk)
    requires bp.a in live && live[bp.a] == bp.n
    requires k < |b| && b[k].a < bp.a && (k + 1 < |b| ==> bp.a < b[k + 1].a)
    requires forall a :: a != b[k].a && a != bp.a && a in ptr ==> a in ptr' && ptr'[a] == ptr[a]
    requires forall a :: a != b[k].a && a != bp.a && a in size ==> a in size' && size'[a] == size[a]
    requires var g, rest := Grown(bp, b[k + 1..]), Rest(bp, b[k + 1..]);
      if b[k].End() == g.a then Cell(Blk(b[k].a, b[k].n + g.n), First(rest, base), ptr', size')
      else Cell(b[k], bp.a, ptr', size') && Cell(g, First(rest, base), ptr', size')
    ensures b' == Insert(b[..k], b[k], bp, b[k + 1..])
    ensures Heap(base, b[k].a, k, b', ptr', size', live - {bp.a}, owned, brk)
    ensures b'[k].n >= bp.n || (k + 1 < |b'| && b'[k + 1].n >= bp.n)
  {
    var pre, p, post := b[..k], b[k], b[k + 1..];
    assert b == pre + ([p] + post);
    b' := Insert(pre, p, bp, post);
    FreeStep(base, pre, p, bp, post, live, size, size', owned, brk);
    Relinked(pre, p, bp, post, base, ptr, size, ptr', size');
    LiveNotFree(base, b, live, size, owned, brk, bp.a, k);
    PlaceOrder(b, bp.a, k, k);
    assert b'[k] == Join(p, Grown(bp, post))[0];
    assert p.End() != bp.a ==> b'[k + 1] == Join(p, Grown(bp, post))[1];
  }

  function Next(k: nat, n: nat): (r: nat)
    requires k < n
    ensures r < n
  {
    if k + 1 < n then k + 1 else 0
  }

  // Steps around a ring of n places from k to t.
  function Ahead(k: nat, t: nat, n: nat): (d: int)
  {
    if k <= t then t - k else n - k + t
  }

  // The positions after `from`, up to and including `upto`, around the ring.
  predicate Passed(i: nat, from: nat, upto: nat) {
    if from <= upto then from < i <= upto else i > from || i <= upto
  }

  // All blocks the scan has passed since `from` are too small.
  ghost predicate TooSmall(b: seq<Blk>, from: nat, upto: nat, n: nat) {
    forall i: nat :: i < |b| && Passed(i, from, upto) ==> b[i].n < n
  }

  // Block k is the first one after place `from`, around the ring, that has n units.
  ghost predicate FirstFit(b: seq<Blk>, from: nat, k: nat, n: nat) {
    && k < |b| && b[k].n >= n
    && forall i: nat :: i < |b| && (if from < k then from < i < k else i > from || i < k) ==> b[i].n < n
  }

  // No block has n units.
  ghost predicate AllSmall(b: seq<Blk>, n: nat) {
    forall x :: x in b ==> x.n < n
  }

  // The units behind address r - 1 are the high end of the first block that has n.
  ghost predicate CutFrom(b: seq<Blk>, from: nat, n: nat, r: int) {
    exists k: nat :: FirstFit(b, from, k, n) && r - 1 + n == b[k].End()
  }

  lemma CutFromAt(b: seq<Blk>, from: nat, k: nat, n: nat)
    requires FirstFit(b, from, k, n)
    ensures CutFrom(b, from, n, b[k].End() - n + 1)
  {
  }

  lemma FirstFitAfter(b: seq<Blk>, from: nat, upto: nat, n: nat)
    requires TooSmall(b, from, upto, n) && from < |b| && upto < |b|
    requires b[Next(upto, |b|)].n >= n
    ensures FirstFit(b, from, Next(upto, |b|), n)
  {
    forall i: nat | i < |b| && (if from < Next(upto, |b|) then from < i < Next(upto, |b|) else i > from || i < Next(upto, |b|))
      ensures b[i].n < n
    {
      assert Passed(i, from, upto);
    }
  }

  lemma TooSmallStep(b: seq<Blk>, from: nat, upto: nat, n: nat)
    requires TooSmall(b, from, upto, n) && from < |b| && upto < |b|
    requires b[Next(upto, |b|)].n < n
    ensures Next(upto, |b|) != from ==> TooSmall(b, from, Next(upto, |b|), n)
    ensures Next(upto, |b|) == from ==> forall p :: p in b ==> p.n < n
  {
    if Next(upto, |b|) == from {
      forall p | p in b ensures p.n < n {
        var i: nat :| i < |b| && b[i] == p;
        assert i == from || Passed(i, from, upto);
      }
    } else {
      forall i: nat | i < |b| && Passed(i, from, Next(upto, |b|)) ensures b[i].n < n {
        assert i == Next(upto, |b|) || Passed(i, from, upto);
      }
    }
  }

  lemma HeapAt(base: int, freep: int, fi: nat, b: seq<Blk>, k: nat, ptr: map<int, int>, size: map<int, nat>,
      live: map<int, nat>, owned: set<int>, brk: int)
    requires freep != 0 && Heap(base, freep, fi, b, ptr, size, live, owned, brk) && k < |b|
    ensures b[k].a in ptr && b[k].a in size && ptr[b[k].a] == b[Next(k, |b|)].a && size[b[k].a] == b[k].n
    ensures b[k].n > 0 ==> k > 0
    ensures fi < |b| && freep == b[fi].a && b[k].a != 0
    ensures b[k].a == freep ==> k == fi
  {
    ChainAt(b, k, base, ptr, size);
    if b[k].a == freep { SameBlock(b, k, fi); }
    PlaceOrder(b, b[k].a + 1, k, k);
  }

  lemma StartHeap(base: int, ptr: map<int, int>, size: map<int, nat>, live: map<int, nat>, owned: set<int>, brk: int)
    requires Heap(base, 0, 0, [], ptr, size, live, owned, brk)
    ensures Heap(base, base, 0, [Blk(base, 0)], ptr[base := base], size[base := 0], live, owned, brk)
  {
    UnitsOne(Blk(base, 0));
    assert Range(base, 0) == {};
    ChainOne(Blk(base, 0), base, ptr[base := base], size[base := 0]);
    forall a | a in live ensures a != base { LiveStart(live, a); }
  }

  lemma SameBlock(b: seq<Blk>, i: nat, j: nat)
    requires Spaced(b) && i < |b| && j < |b| && b[i].a == b[j].a
    ensures i == j
  {
    if i < j { SpacedOrder(b, i, j); }
    if j < i { SpacedOrder(b, j, i); }
  }

  // The whole effect of taking n units from block k, in either way.
  lemma TakeHeap(base: int, freep: int, fi: nat, b: seq<Blk>, k: nat, n: nat, ptr: map<int, int>, size: map<int, nat>,
      live: map<int, nat>, owned: set<int>, brk: int, ptr': map<int, int>, size': map<int, nat>) returns (b': seq<Blk>)
    requires freep != 0 && Heap(base, freep, fi, b, ptr, size, live, owned, brk)
    requires 0 < k < |b| && 0 < n <= b[k].n
    requires b[k].n == n ==> ptr' == ptr[b[k - 1].a := First(b[k + 1..], base)] && size' == size
    requires b[k].n > n ==> ptr' == ptr && size' == size[b[k].a := b[k].n - n][b[k].End() - n := n]
    ensures b[k].End() - n !in live && b[k].End() - n > 0 && b[k - 1].a > 0
    ensures b' == b[..k] + (Left(b[k], n) + b[k + 1..])
    ensures Heap(base, b[k - 1].a, k - 1, b', ptr', size', live[b[k].End() - n := n], owned, brk)
  {
    b' := b[..k] + (Left(b[k], n) + b[k + 1..]);
    ChainAt(b, k, base, ptr, size);
    PlaceOrder(b, b[k - 1].a + 1, k - 1, k);
    PlaceOrder(b, b[k - 1].a + 1, k - 1, k - 1);
    TakeStepAt(base, b, k, n, live, size, size', owned, brk);
    TakeLinked(base, b, k, n, ptr, size, ptr', size');
    assert b'[k - 1] == b[k - 1];
  }

  lemma TakeStepAt(base: int, b: seq<Blk>, k: nat, n: nat, live: map<int, nat>,
      size: map<int, nat>, size': map<int, nat>, owned: set<int>, brk: int)
    requires Inside(base, owned, brk) && Live(live, size) && Partition(b, live, owned) && Anchored(base, b) && Spaced(b)
    requires 0 < k < |b| && 0 < n <= b[k].n
    requires forall a :: a != b[k].a && a != b[k].End() - n && a in size ==> a in size' && size'[a] == size[a]
    requires b[k].End() - n in size' && size'[b[k].End() - n] == n
    ensures b[k].End() - n !in live
    ensures Live(live[b[k].End() - n := n], size')
    ensures Partition(b[..k] + (Left(b[k], n) + b[k + 1..]), live[b[k].End() - n := n], owned)
    ensures Spaced(b[..k] + (Left(b[k], n) + b[k + 1..]))
    ensures Anchored(base, b[..k] + (Left(b[k], n) + b[k + 1..]))
  {
    Pieces(b, k);
    TakeStep(base, b[..k], b[k], b[k + 1..], n, live, size, size', owned, brk);
  }

  lemma Pieces(b: seq<Blk>, k: nat)
    requires k < |b|
    ensures b == b[..k] + ([b[k]] + b[k + 1..])
    ensures k > 0 ==> b[..k] == b[..k - 1] + [b[k - 1]]
  {
  }

  lemma TakeLinked(base: int, b: seq<Blk>, k: nat, n: nat, ptr: map<int, int>, size: map<int, nat>,
      ptr': map<int, int>, size': map<int, nat>)
    requires Spaced(b) && Chain(b, base, ptr, size)
    requires 0 < k < |b| && 0 < n <= b[k].n
    requires b[k].n == n ==> ptr' == ptr[b[k - 1].a := First(b[k + 1..], base)] && size' == size
    requires b[k].n > n ==> ptr' == ptr && size' == size[b[k].a := b[k].n - n][b[k].End() - n := n]
    ensures Chain(b[..k] + (Left(b[k], n) + b[k + 1..]), base, ptr', size')
  {
    Pieces(b, k);
    if b[k].n == n {
      JoinLeft(b[..k - 1], b[k - 1], [b[k]] + b[k + 1..]);
      JoinLeft(b[..k - 1], b[k - 1], [] + b[k + 1..]);
      assert [] + b[k + 1..] == b[k + 1..];
      TakeLinkedExact(b[..k - 1], b[k - 1], b[k], b[k + 1..], base, ptr, size);
    } else {
      TakeLinkedTail(b[..k], b[k], b[k + 1..], n, base, ptr, size);
    }
  }

  lemma JoinLeft(x: seq<Blk>, p: Blk, y: seq<Blk>)
    ensures x + [p] + y == x + ([p] + y)
  {
  }

  // Fresh units may be counted as a live block before they are freed.
  lemma GrowHeap(base: int, freep: int, fi: nat, b: seq<Blk>, ptr: map<int, int>, size: map<int, nat>,
      live: map<int, nat>, owned: set<int>, brk: int, brk': int, hp: int, n: nat)
    requires freep != 0 && Heap(base, freep, fi, b, ptr, size, live, owned, brk)
    requires brk <= hp && brk' == hp + n && n > 0
    ensures hp !in live && hp !in owned
    ensures Heap(base, freep, fi, b, ptr, size[hp := n], live[hp := n], owned + Range(hp, n), brk')
  {
    forall a | a in live
      ensures a + live[a] <= hp && a != hp
    {
      LiveStart(live, a);
      InRange(a + live[a] - 1, a, live[a]);
      assert a + live[a] - 1 in LiveUnits(live);
    }
    forall u | u in Range(hp, n) ensures u !in owned && base < u < brk' {
      InRange(u, hp, n);
    }
    forall u | u in owned ensures u < hp {}
    var live', size' := live[hp := n], size[hp := n];
    assert live' - {hp} == live;
    forall a, c | a in live' && c in live' && a != c
      ensures Apart(live', a, c)
    {
      if a != hp && c != hp { assert Apart(live, a, c); }
    }
    LiveSplit(live', size', hp);
    forall i | 0 <= i < |b|
      ensures b[i].a < hp
    {
      UnitsHas(b, i);
      InRange(b[i].a, b[i].a, b[i].n);
    }
    forall q | q in b
      ensures q.a != hp
    {
      var i :| 0 <= i < |b| && b[i] == q;
    }
    ChainFrame(b, base, ptr, size, ptr, size');
  }

  // How malloc() ends: Fine is a block or 0.  Wild is going on with a block that
  // begins at the end of the process's memory or beyond.  Gone is 0, after
  // sbrk() has given all of the memory back.
  datatype Fate = Fine | Wild | Gone

  // The end of memory after a negative argument.
  function Shrunk(brk: int, nu: nat): (r: int) {
    if nu + brk > WORD / HEADER then brk + nu - WORD / HEADER else brk
  }

  // sbrk() takes the size for a negative number.
  predicate Negative(nu: nat) {
    nu * HEADER >= WORD / 2
  }

  class Allocator {
    const base: int
    var freep: int
    var ptr: map<int, int>
    var size: map<int, nat>
    var brk: int                     // the end of the data segment

    ghost var blocks: seq<Blk>       // the free list in address order
    ghost var fi: nat                // position of freep
    ghost var live: map<int, nat>    // headers handed out, with their sizes
    ghost var owned: set<int>        // units obtained from sbrk
    ghost var sbrkCalls: nat

    ghost predicate Valid()
      reads this
    {
      Heap(base, freep, fi, blocks, ptr, size, live, owned, brk)
    }

    constructor (anchor: int, start: int)
      requires 0 < anchor < start
      ensures Valid() && base == anchor && brk == start
      ensures freep == 0 && live == map[] && owned == {} && sbrkCalls == 0 && blocks == []
    {
      base := anchor;
      freep := 0;
      ptr := map[];
      size := map[];
      brk := start;
      blocks := [];
      fi := 0;
      live := map[];
      owned := {};
      sbrkCalls := 0;
    }

    // The search loop of free(): the free block after which bp belongs.
    method FindPlace(bp: int) returns (p: int, ghost k: nat)
      requires Chain(blocks, base, ptr, size) && Spaced(blocks) && Anchored(base, blocks) && base < bp
      requires fi < |blocks| && freep == blocks[fi].a
      requires forall i :: 0 <= i < |blocks| ==> blocks[i].a != bp
      ensures k < |blocks| && p == blocks[k].a
      ensures blocks[k].a < bp && (k + 1 < |blocks| ==> bp < blocks[k + 1].a)
    {
      p := freep;
      k := fi;
      ghost var n := |blocks|;
      ghost var t := Place(blocks, bp);
      ChainAt(blocks, k, base, ptr, size);
      PlaceOrder(blocks, bp, t, k);
      while !(bp > p && bp < ptr[p])
        invariant k < n && p == blocks[k].a && p in ptr
        invariant ptr[p] == if k + 1 < n then blocks[k + 1].a else base
        modifies {}
        decreases if k <= t then t - k else n - k + t
      {
        PlaceOrder(blocks, bp, t, k);
        if p >= ptr[p] && (bp > p || bp < ptr[p]) {
          break;
        }
        p := ptr[p];
        k := if k + 1 < n then k + 1 else 0;
        ChainAt(blocks, k, base, ptr, size);
      }
      PlaceOrder(blocks, bp, t, k);
    }

    // The writes of free(): join bp with the block after it, then with p.
    method LinkAfter(p: int, bp: int, ghost pb: Blk, ghost b: Blk, ghost post: seq<Blk>)
      requires pb.a == p && b.a == bp && p < bp && pb.End() <= bp && bp in size && size[bp] == b.n
      requires Cell(pb, First(post, base), ptr, size) && base <= p && b.n > 0
      requires post != [] ==> b.End() <= post[0].a && Cell(post[0], First(post[1..], base), ptr, size)
      modifies this`ptr, this`size, this`freep
      ensures freep == p
      ensures forall a :: a != p && a != bp ==>
        (a in ptr <==> a in old(ptr)) && (a in old(ptr) ==> ptr[a] == old(ptr[a]))
      ensures forall a :: a != p && a != bp ==>
        (a in size <==> a in old(size)) && (a in old(size) ==> size[a] == old(size[a]))
      ensures var g, rest := Grown(b, post), Rest(b, post);
        if pb.End() == g.a then Cell(Blk(pb.a, pb.n + g.n), First(rest, base), ptr, size)
        else Cell(pb, bp, ptr, size) && Cell(g, First(rest, base), ptr, size)
    {
      var next := ptr[p];
      if bp + size[bp] == next {
        size := size[bp := size[bp] + size[next]];
        ptr := ptr[bp := ptr[next]];
      } else {
        ptr := ptr[bp := next];
      }
      if p + size[p] == bp {
        size := size[p := size[p] + size[bp]];
        ptr := ptr[p := ptr[bp]];
      } else {
        ptr := ptr[p := bp];
      }
      freep := p;
    }

    // free(): link the block in at its place and join it with a neighbour it
    // touches.  The block leaves the live ones; all other live blocks and the
    // set of owned units stay.  Valid() then says the free list is the fully
    // joined list of exactly the other units.
    method Free(bp: int)
      requires Valid() && freep != 0 && bp in live
      modifies this
      ensures Valid() && freep != 0
      ensures live == old(live) - {bp} && owned == old(owned) && brk == old(brk)
      ensures sbrkCalls == old(sbrkCalls)
      ensures || blocks[fi].n >= old(live[bp])
              || (fi + 1 < |blocks| && blocks[fi + 1].n >= old(live[bp]))
    {
      forall i | 0 <= i < |blocks|
        ensures base < bp && blocks[i].a != bp
      {
        LiveNotFree(base, blocks, live, size, owned, brk, bp, i);
      }
      assert base < bp by { assert blocks[0].a != bp; }
      ghost var k;
      var p;
      p, k := FindPlace(bp);
      HeadCells(blocks, k, base, ptr, size);
      FreeRoom(base, freep, fi, blocks, k, bp, ptr, size, live, owned, brk);
      ghost var ptr0, size0 := ptr, size;
      LinkAfter(p, bp, blocks[k], Blk(bp, live[bp]), blocks[k + 1..]);
      blocks := FreeHeap(base, old(freep), fi, blocks, k, Blk(bp, live[bp]), live, owned, brk, ptr0, size0, ptr, size);
      live := live - {bp};
      fi := k;
    }

    // The sbrk system call: it fails, or it hands out n units at or above the
    // old end of the data segment.  Its argument is a signed count of bytes.
    method Sbrk(n: nat) returns (p: int)
      requires 0 < brk && n * HEADER < WORD / 2
      modifies this`brk, this`sbrkCalls
      ensures sbrkCalls == old(sbrkCalls) + 1
      ensures p == -1 ==> brk == old(brk)
      ensures p != -1 ==> p >= old(brk) && brk == p + n
    {
      sbrkCalls := sbrkCalls + 1;
      if * {
        return -1;
      }
      var gap :| gap >= 0;
      p := brk + gap;
      brk := p + n;
    }

    // sbrk() for a size of 2^31 bytes or more, as growproc() and deallocuvm() treat
    // it: the process gives up the units by which the size falls short of 2^32.
    // If they are all of its memory, sbrk() fails when they are gone; if they are
    // more, the new size wraps around and nothing happens.
    method Shrink(n: nat) returns (p: int, gone: bool)
      requires 0 < brk && Negative(n) && n * HEADER <= WORD
      modifies this`brk, this`sbrkCalls
      ensures sbrkCalls == old(sbrkCalls) + 1
      ensures gone <==> n + old(brk) == WORD / HEADER
      ensures gone ==> p == -1 && brk == old(brk)
      ensures !gone ==> p == old(brk) && brk == Shrunk(old(brk), n)
    {
      sbrkCalls := sbrkCalls + 1;
      var m := WORD / HEADER - n;
      p := brk;
      gone := false;
      if m < brk {
        brk := brk - m;
      } else if m == brk {
        return -1, true;
      }
    }

    // morecore(): new units enter the heap through free().
    method Morecore(nu: nat) returns (p: int, fate: Fate)
      requires Valid() && freep != 0 && nu > 0 && nu * HEADER <= WORD
      modifies this
      ensures sbrkCalls == old(sbrkCalls) + 1
      ensures fate.Fine? <==> !Negative(nu)
      ensures fate.Gone? <==> Negative(nu) && nu + old(brk) == WORD / HEADER
      // the header that is written next
      ensures fate.Wild? ==> p == old(brk) >= brk == Shrunk(old(brk), nu)
      ensures fate.Fine? ==> Valid() && freep != 0 && live == old(live)
      ensures fate.Fine? && p == 0 ==> owned == old(owned) && blocks == old(blocks) && freep == old(freep)
      ensures fate.Fine? ==> (p == 0 <==> brk == old(brk))
      ensures fate.Fine? && p != 0 ==> p == freep && Granted(nu, old(brk), brk, old(owned), owned)
      ensures fate.Fine? && p != 0 ==> blocks[fi].n >= nu || (fi + 1 < |blocks| && blocks[fi + 1].n >= nu)
    {
      if Negative(nu) {
        var gone;
        p, gone := Shrink(nu);
        return p, if gone then Gone else Wild;
      }
      p := Extend(nu);
      fate := Fine;
    }

    // morecore() for a size that sbrk() takes as it is meant.
    method Extend(nu: nat) returns (p: int)
      requires Valid() && freep != 0 && nu > 0 && !Negative(nu)
      modifies this
      ensures Valid() && freep != 0 && live == old(live) && sbrkCalls == old(sbrkCalls) + 1
      ensures p == 0 <==> brk == old(brk)
      ensures p == 0 ==> owned == old(owned) && blocks == old(blocks) && freep == old(freep)
      ensures p != 0 ==> p == freep && Granted(nu, old(brk), brk, old(owned), owned)
      ensures p != 0 ==> blocks[fi].n >= nu || (fi + 1 < |blocks| && blocks[fi + 1].n >= nu)
    {
      var units := if nu < MIN_UNITS then MIN_UNITS else nu;
      var hp := Sbrk(units);
      if hp == -1 {
        return 0;
      }
      GrowHeap(base, freep, fi, blocks, ptr, size, live, owned, old(brk), brk, hp, units);
      size := size[hp := units];
      live := live[hp := units];
      owned := owned + Range(hp, units);
      Free(hp);
      assert live == old(live);
      InRange(hp, hp, units);
      p := freep;
    }

    // malloc() once a large enough block is found after prevp: cut the units
    // off its end, or unlink it when it fits exactly.
    method Take(prevp: int, p: int, nunits: nat, ghost k: nat) returns (r: int)
      requires Valid() && freep != 0 && 0 < k < |blocks| && 0 < nunits <= blocks[k].n
      requires p == blocks[k].a && prevp == blocks[k - 1].a
      modifies this
      ensures Valid() && freep == prevp && freep != 0 && r != 0
      ensures r - 1 !in old(live) && live == old(live)[r - 1 := nunits]
      ensures r - 1 + nunits == old(blocks[k].End())
      ensures owned == old(owned) && brk == old(brk) && sbrkCalls == old(sbrkCalls)
    {
      ghost var ptr0, size0, free0 := ptr, size, freep;
      HeadCells(blocks, k, base, ptr, size);
      HeadCells(blocks, k - 1, base, ptr, size);
      var q := p;
      if size[p] == nunits {
        ptr := ptr[prevp := ptr[p]];
      } else {
        size := size[p := size[p] - nunits];
        q := q + size[p];
        size := size[q := nunits];
      }
      freep := prevp;
      r := q + 1;
      blocks := TakeHeap(base, free0, fi, blocks, k, nunits, ptr0, size0, live, owned, brk, ptr, size);
      live := live[q := nunits];
      fi := k - 1;
    }

    // The first call of malloc() makes a list of the empty anchor alone.
    method Start()
      requires Valid()
      modifies this`freep, this`ptr, this`size, this`blocks, this`fi
      ensures Valid() && freep != 0
      ensures old(freep) != 0 ==> blocks == old(blocks) && fi == old(fi) && freep == old(freep)
      ensures old(freep) == 0 ==> old(blocks) == [] && blocks == [Blk(base, 0)] && fi == 0
    {
      if freep == 0 {
        StartHeap(base, ptr, size, live, owned, brk);
        ptr := ptr[base := base];
        freep := base;
        size := size[base := 0];
        blocks, fi := [Blk(base, 0)], 0;
      }
    }

    // One turn of malloc()'s loop around the list, from the block after freep
    // until a block is large enough or the scan is back at freep.
    method Scan(nunits: nat) returns (found: bool, prevp: int, p: int, ghost k: nat)
      requires Valid() && freep != 0 && nunits > 0
      ensures k < |blocks| && p == blocks[k].a
      ensures found ==> k > 0 && FirstFit(blocks, fi, k, nunits) && prevp == blocks[k - 1].a
      ensures !found ==> p == freep && forall b :: b in blocks ==> b.n < nunits
    {
      prevp := freep;
      ghost var kp: nat := fi;
      HeapAt(base, freep, fi, blocks, kp, ptr, size, live, owned, brk);
      p := ptr[prevp];
      k := Next(kp, |blocks|);
      while true
        invariant kp < |blocks| && prevp == blocks[kp].a && k == Next(kp, |blocks|) && p == blocks[k].a
        invariant TooSmall(blocks, fi, kp, nunits)
        decreases Ahead(k, fi, |blocks|)
      {
        HeapAt(base, freep, fi, blocks, k, ptr, size, live, owned, brk);
        if size[p] >= nunits {
          FirstFitAfter(blocks, fi, kp, nunits);
          return true, prevp, p, k;
        }
        TooSmallStep(blocks, fi, kp, nunits);
        if p == freep {
          return false, prevp, p, k;
        }
        prevp, kp := p, k;
        p := ptr[p];
        k := Next(k, |blocks|);
      }
    }

    // The loop of malloc() until it cuts a block or is back at freep, which is 0.
    method Fit(nunits: nat) returns (r: int)
      requires Valid() && freep != 0 && nunits > 0
      modifies this
      ensures Valid() && freep != 0
      ensures owned == old(owned) && brk == old(brk) && sbrkCalls == old(sbrkCalls)
      ensures r != 0 ==> Hands(old(live), live, r, nunits)
      ensures r != 0 ==> CutFrom(old(blocks), old(fi), nunits, r)
      ensures r == 0 ==> live == old(live) && blocks == old(blocks) && fi == old(fi) && freep == old(freep)
      ensures r == 0 <==> AllSmall(old(blocks), nunits)
    {
      ghost var k;
      var found, prevp, p;
      found, prevp, p, k := Scan(nunits);
      if !found {
        return 0;
      }
      assert blocks[k] in blocks;
      CutFromAt(blocks, fi, k, nunits);
      r := Take(prevp, p, nunits, k);
    }

    // malloc() when no block is large enough: morecore() leaves freep just before the
    // new units, and the loop goes on from there, and finds a block among them.
    method FitMore(nunits: nat) returns (r: int, fate: Fate)
      requires Valid() && freep != 0 && 0 < nunits && nunits * HEADER <= WORD
      modifies this
      ensures sbrkCalls == old(sbrkCalls) + 1
      ensures fate.Fine? <==> !Negative(nunits)
      ensures fate.Gone? <==> Negative(nunits) && nunits + old(brk) == WORD / HEADER
      ensures fate.Wild? ==> r == old(brk) >= brk == Shrunk(old(brk), nunits)
      ensures fate.Fine? ==> Valid() && freep != 0 && (r == 0 <==> brk == old(brk))
      ensures fate.Fine? && r == 0 ==> live == old(live) && owned == old(owned)
      ensures fate.Fine? && r != 0 ==> Hands(old(live), live, r, nunits)
      ensures fate.Fine? && r != 0 ==> Granted(nunits, old(brk), brk, old(owned), owned)
    {
      r, fate := Morecore(nunits);
      if fate != Fine || r == 0 {
        return;
      }
      assert !AllSmall(blocks, nunits);
      r := Fit(nunits);
    }

    // malloc(): take the first large enough block after freep, from new units if
    // there is none, so that its loop is at freep at most once before it ends.
    // It is not Fine exactly if no block is large enough
    // and the size is 2^31 bytes or more.
    method Malloc(nbytes: nat) returns (r: int, fate: Fate)
      requires Valid() && nbytes < WORD
      modifies this
      ensures fate.Fine? <==> !(Negative(UnitsFor(nbytes)) && AllSmall(old(blocks), UnitsFor(nbytes)))
      ensures fate.Gone? <==> !fate.Fine? && UnitsFor(nbytes) + old(brk) == WORD / HEADER
      ensures fate.Wild? ==> r == old(brk) >= brk == Shrunk(old(brk), UnitsFor(nbytes))
      ensures fate.Fine? ==> Valid() && freep != 0
      ensures fate.Fine? && r != 0 ==> Hands(old(live), live, r, UnitsFor(nbytes))
      ensures fate.Fine? && r == 0 ==> live == old(live) && owned == old(owned) && sbrkCalls == old(sbrkCalls) + 1
      ensures fate.Fine? && r == 0 ==> brk == old(brk)
      // the units come off the high end of the first block that has them
      ensures fate.Fine? && sbrkCalls == old(sbrkCalls) ==>
                r != 0 && CutFrom(old(blocks), old(fi), UnitsFor(nbytes), r)
      ensures fate.Fine? && sbrkCalls == old(sbrkCalls) ==> owned == old(owned) && brk == old(brk)
      ensures fate.Fine? && r != 0 && sbrkCalls != old(sbrkCalls) ==>
                Granted(UnitsFor(nbytes), old(brk), brk, old(owned), owned)
      ensures fate.Fine? ==> sbrkCalls <= old(sbrkCalls) + 1 && old(owned) <= owned
      ensures sbrkCalls > old(sbrkCalls) ==> forall b :: b in old(blocks) ==> b.n < UnitsFor(nbytes)
    {
      var nunits := UnitsFor(nbytes);
      Start();
      r := Fit(nunits);
      fate := Fine;
      if r == 0 {
        r, fate := FitMore(nunits);
      }
    }
  }

  // The first call of malloc(), for 16 bytes less than 2^32: the process loses a unit, and malloc() goes on with a block beyond its memory.
  method WildBlock() returns (a: Allocator, r: int)
    ensures r == 4096 > a.brk == 4095
  {
    a := new Allocator(1, 4096);
    var fate;
    r, fate := a.Malloc(0xFFFF_FFF0);
  }
}
