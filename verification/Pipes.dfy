// Pipes of pipe.c: a ring of bytes with 32-bit counters that wrap around, and
// the sections that readers and writers run under the lock of the pipe.
module Pipes {
  import opened Blocks

  // ----- a ring with wrapping counters -----

  lemma {:induction false} ModAdd(x: nat, k: nat, s: nat)
    requires 0 < s
    ensures (x + k * s) % s == x % s
  {
    if k > 0 {
      ModAdd(x, k - 1, s);
      ModStep(x + (k - 1) * s, s);
      assert x + k * s == x + (k - 1) * s + s;
    }
  }

  lemma ModStep(y: nat, s: nat)
    requires 0 < s
    ensures (y + s) % s == y % s
  {
    var q, m := y / s, y % s;
    assert y + s == (q + 1) * s + m;
    ModUnique(y + s, s, q + 1, m);
  }

  lemma Multiples(d: int, s: int)
    requires s >= 0
    ensures d >= 1 ==> d * s >= s
    ensures d <= 0 ==> d * s <= 0
    ensures d <= -1 ==> d * s <= -s
  {
  }

  lemma ModUnique(y: nat, s: nat, q: nat, m: nat)
    requires m < s && y == q * s + m
    ensures y % s == m
  {
    var d := y / s - q;
    assert d * s == m - y % s;
    Multiples(d, s);
  }

  // The wrapped counter gives the same place in the ring, if the size divides 2^32.
  lemma WrapIndex(w: nat, s: nat)
    requires 0 < s && WORD % s == 0
    ensures w % WORD % s == w % s
  {
    var q, c := w / WORD, WORD / s;
    assert q * WORD == q * c * s;
    ModAdd(w % WORD, q * c, s);
  }

  lemma PlacesDiffer(k: nat, w: nat, s: nat)
    requires k < w < k + s
    ensures k % s != w % s
  {
    var d := w / s - k / s;
    assert d * s == w - k - (w % s - k % s);
    Multiples(d, s);
  }

  // The bytes from r up to w of all that were written are in the ring.
  ghost predicate Ring(data: seq<byte>, written: seq<byte>, r: nat) {
    && 0 < |data| && r <= |written| <= r + |data|
    && forall k: nat :: r <= k < |written| ==> InRing(data, written, k)
  }

  ghost predicate InRing(data: seq<byte>, written: seq<byte>, k: nat)
    requires 0 < |data| && k < |written|
  {
    data[k % |data|] == written[k]
  }

  lemma RingPut(data: seq<byte>, written: seq<byte>, r: nat, b: byte)
    requires Ring(data, written, r) && |written| < r + |data|
    ensures Ring(data[|written| % |data| := b], written + [b], r)
  {
    var data', written' := data[|written| % |data| := b], written + [b];
    forall k: nat | r <= k < |written'| ensures InRing(data', written', k) {
      if k < |written| {
        assert InRing(data, written, k);
        PlacesDiffer(k, |written|, |data|);
      }
    }
  }

  // The test nwrite == nread + PIPESIZE in 32 bits is exact.
  lemma FullTest(r: nat, w: nat, s: nat)
    requires r <= w <= r + s && s < WORD
    ensures w % WORD == (r % WORD + s) % WORD <==> w == r + s
    ensures r % WORD == w % WORD <==> r == w
  {
  }

  // A wrapped counter steps with the count.
  lemma Bump(x: nat)
    ensures (x % WORD + 1) % WORD == (x + 1) % WORD
  {
  }

  lemma RingTake(data: seq<byte>, written: seq<byte>, r: nat)
    requires Ring(data, written, r) && r < |written|
    ensures Ring(data, written, r + 1) && data[r % |data|] == written[r]
    ensures written[..r] + [written[r]] == written[..r + 1]
  {
    assert InRing(data, written, r);
  }

  // How a section ends: the call returns, fails, or sleeps.
  datatype Outcome = Done | Failed | Asleep

  class Pipe {
    var data: seq<byte>
    var nread: nat
    var nwrite: nat
    var readopen: bool
    var writeopen: bool
    ghost var written: seq<byte>     // all bytes written so far
    ghost var taken: seq<byte>       // all bytes read so far
    ghost var readers: set<nat>      // processes asleep on nread
    ghost var writers: set<nat>      // processes asleep on nwrite

    // First in, first out: what has been read is a prefix of what was written, and
    // what is pending fits the ring.
    ghost predicate Valid()
      reads this
    {
      && 0 < |data| < WORD && WORD % |data| == 0
      && nread == |taken| % WORD && nwrite == |written| % WORD
      && Ring(data, written, |taken|) && taken == written[..|taken|]
    }

    ghost predicate Empty()
      reads this`written, this`taken
    {
      |taken| == |written|
    }

    ghost predicate Full()
      reads this`written, this`taken, this`data
    {
      |written| == |taken| + |data|
    }

    // How many bytes can be put before the ring is full.
    ghost function Room(): int
      reads this`written, this`taken, this`data
    {
      |data| - (|written| - |taken|)
    }

    // No reader sleeps although it could go on.
    ghost predicate ReadersOk()
      reads this
    {
      readers != {} ==> Empty() && writeopen
    }

    // No writer sleeps although it could go on.
    ghost predicate WritersOk()
      reads this
    {
      writers != {} ==> Full() && readopen
    }

    // pipealloc()
    constructor (size: nat)
      requires 0 < size < WORD && WORD % size == 0
      ensures Valid() && ReadersOk() && WritersOk() && |data| == size && readopen && writeopen
      ensures written == [] && taken == [] && readers == {} && writers == {}
    {
      data, nread, nwrite, readopen, writeopen := seq(size, _ => 0), 0, 0, true, true;
      written, taken, readers, writers := [], [], {}, {};
    }

    // pipewrite() from byte i on, until it returns or sleeps.  Readers that sleep
    // are woken unless it fails: then they are left asleep with bytes to read.
    method Write(me: nat, addr: seq<byte>, i: nat, killed: bool) returns (r: Outcome, j: nat)
      requires Valid() && i <= |addr| && me !in writers
      modifies this`data, this`nwrite, this`written, this`readers, this`writers
      ensures Valid() && |data| == |old(data)| && i <= j <= |addr| && written == old(written) + addr[i..j]
      ensures r.Done? <==> |addr| - i <= old(Room())
      ensures r.Failed? <==> |addr| - i > old(Room()) && (!readopen || killed)
      ensures r.Done? ==> j == |addr| && readers == {} && writers == old(writers)
      ensures r.Failed? ==> j < |addr| && Full() && readers == old(readers) && writers == old(writers)
      ensures r.Asleep? ==> j < |addr| && Full() && readopen && !killed && readers == {} && writers == old(writers) + {me}
      ensures old(WritersOk()) ==> WritersOk()
      ensures ReadersOk() <==> !(old(readers) != {} && (!old(readopen) || killed) && |addr| - i > old(Room()))
    {
      j := i;
      while j < |addr| && nwrite != (nread + |data|) % WORD
        invariant Valid() && |data| == |old(data)| && i <= j <= |addr| && written == old(written) + addr[i..j]
        invariant readers == old(readers) && writers == old(writers)
        invariant |written| - |taken| == old(|written| - |taken|) + (j - i)
        invariant old(WritersOk()) && j > i ==> writers == {}
      {
        FullTest(|taken|, |written|, |data|);
        Put(addr[j]);
        j := j + 1;
      }
      FullTest(|taken|, |written|, |data|);
      if j < |addr| {
        if !readopen || killed {
          return Failed, j;
        }
        readers := {};
        writers := writers + {me};
        return Asleep, j;
      }
      readers := {};
      r := Done;
    }

    // p->data[p->nwrite++ % PIPESIZE] = b
    method Put(b: byte)
      requires Valid() && !Full()
      modifies this`data, this`nwrite, this`written
      ensures Valid() && |data| == |old(data)| && written == old(written) + [b]
    {
      RingPut(data, written, |taken|, b);
      WrapIndex(|written|, |data|);
      Bump(|written|);
      data := data[nwrite % |data| := b];
      nwrite := (nwrite + 1) % WORD;
      written := written + [b];
    }

    // piperead() from the test for an empty pipe on, until it returns or sleeps.
    method Read(me: nat, n: nat, killed: bool) returns (r: Outcome, dst: seq<byte>)
      requires Valid() && me !in readers
      modifies this`nread, this`taken, this`readers, this`writers
      ensures Valid() && taken == old(taken) + dst
      ensures (old(ReadersOk()) ==> ReadersOk()) && (old(WritersOk()) ==> WritersOk())
      ensures r.Done? ==> |dst| == (if n < |written| - |old(taken)| then n else |written| - |old(taken)|)
      ensures r.Done? ==> writers == {} && readers == old(readers)
      ensures r.Failed? <==> old(Empty()) && writeopen && killed
      ensures r.Asleep? <==> old(Empty()) && writeopen && !killed
      ensures !r.Done? ==> dst == [] && writers == old(writers)
      ensures r.Asleep? ==> readers == old(readers) + {me}
    {
      FullTest(|taken|, |written|, |data|);
      dst := [];
      if nread == nwrite && writeopen {
        if killed {
          return Failed, [];
        }
        readers := readers + {me};
        return Asleep, [];
      }
      while |dst| < n && nread != nwrite
        invariant Valid() && taken == old(taken) + dst && |dst| <= n && readers == old(readers)
        invariant old(Empty()) ==> dst == []
      {
        FullTest(|taken|, |written|, |data|);
        var b := Take();
        dst := dst + [b];
      }
      FullTest(|taken|, |written|, |data|);
      writers := {};
      r := Done;
    }

    // addr[i] = p->data[p->nread++ % PIPESIZE]
    method Take() returns (b: byte)
      requires Valid() && !Empty()
      modifies this`nread, this`taken
      ensures Valid() && b == written[|old(taken)|] && taken == old(taken) + [b]
    {
      RingTake(data, written, |taken|);
      WrapIndex(|taken|, |data|);
      Bump(|taken|);
      b := data[nread % |data|];
      nread := (nread + 1) % WORD;
      taken := taken + [b];
    }

    // pipeclose(): nobody sleeps for want of the end that closes; freed says
    // whether the pipe is freed.
    method Close(writable: bool) returns (freed: bool)
      requires Valid()
      modifies this`readopen, this`writeopen, this`readers, this`writers
      ensures Valid() && (old(ReadersOk()) ==> ReadersOk()) && (old(WritersOk()) ==> WritersOk())
      ensures writeopen == (old(writeopen) && !writable) && readopen == (old(readopen) && writable)
      ensures if writable then readers == {} && writers == old(writers) else writers == {} && readers == old(readers)
      ensures freed <==> !readopen && !writeopen
    {
      if writable {
        writeopen := false;
        readers := {};
      } else {
        readopen := false;
        writers := {};
      }
      freed := !readopen && !writeopen;
    }

    // kill() wakes a process wherever it sleeps.
    method Rouse(pid: nat)
      requires Valid()
      modifies this`readers, this`writers
      ensures Valid() && readers == old(readers) - {pid} && writers == old(writers) - {pid}
      ensures old(ReadersOk()) ==> ReadersOk()
      ensures old(WritersOk()) ==> WritersOk()
    {
      readers := readers - {pid};
      writers := writers - {pid};
    }
  }

  // A killed writer fills the ring and leaves a reader asleep.
  method KilledWriter() returns (p: Pipe)
    ensures p.Valid() && !p.ReadersOk() && p.readers == {0} && p.Full() && p.readopen && p.writeopen
  {
    p := new Pipe(1);
    var r, dst := p.Read(0, 1, false);
    var w, j := p.Write(1, [7, 8], 0, true);
  }
}
