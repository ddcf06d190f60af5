// Bytes, the block bitmap and the entries of an indirect block, as fs.c lays
// them out in 512-byte blocks.
module Blocks {

  type byte = x: int | 0 <= x < 256

  const BSIZE: nat := 512
  const BPB: nat := 4096
  const NINDIRECT: nat := 128
  const WORD: nat := 0x1_0000_0000

  type Block = b: seq<byte> | |b| == BSIZE witness seq(BSIZE, _ => 0)

  function Zero(): (b: Block)
    ensures forall i :: 0 <= i < BSIZE ==> b[i] == 0
  {
    seq(BSIZE, _ => 0)
  }

  // ----- bits of a byte -----

  predicate Bit(x: nat, k: nat) {
    if k == 0 then x % 2 == 1 else Bit(x / 2, k - 1)
  }

  // `x | 1 << k`, or `x & ~(1 << k)`.
  function WithBit(x: nat, k: nat, v: bool): (r: nat) {
    if k == 0 then x / 2 * 2 + (if v then 1 else 0) else x % 2 + 2 * WithBit(x / 2, k - 1, v)
  }

  function Power(n: nat): (p: nat)
    ensures p > 0
  {
    if n == 0 then 1 else 2 * Power(n - 1)
  }

  // Setting or clearing one bit changes that bit alone.
  lemma {:induction false} WithBitBits(x: nat, k: nat, v: bool, j: nat)
    ensures Bit(WithBit(x, k, v), j) <==> if j == k then v else Bit(x, j)
  {
    var r := WithBit(x, k, v);
    if k == 0 {
      assert r / 2 == x / 2;
    } else {
      assert r % 2 == x % 2 && r / 2 == WithBit(x / 2, k - 1, v);
      if j > 0 {
        WithBitBits(x / 2, k - 1, v, j - 1);
      }
    }
  }

  lemma {:induction false} WithBitFits(x: nat, k: nat, v: bool, n: nat)
    requires x < Power(n) && k < n
    ensures WithBit(x, k, v) < Power(n)
  {
    if k > 0 {
      WithBitFits(x / 2, k - 1, v, n - 1);
    }
  }

  lemma ByteWithBit(x: byte, k: nat, v: bool)
    requires k < 8
    ensures WithBit(x, k, v) < 256
  {
    assert Power(8) == 256;
    WithBitFits(x, k, v, 8);
  }

  // ----- the bitmap -----

  // The bit of position `bi` in a bitmap block.
  predicate BitAt(b: Block, bi: nat)
    requires bi < BPB
  {
    Bit(b[bi / 8], bi % 8)
  }

  function SetBitAt(b: Block, bi: nat, v: bool): (r: Block)
    requires bi < BPB
  {
    ByteWithBit(b[bi / 8], bi % 8, v);
    b[bi / 8 := WithBit(b[bi / 8], bi % 8, v)]
  }

  lemma SetBitAtBits(b: Block, bi: nat, v: bool, bj: nat)
    requires bi < BPB && bj < BPB
    ensures BitAt(SetBitAt(b, bi, v), bj) <==> if bj == bi then v else BitAt(b, bj)
  {
    WithBitBits(b[bi / 8], bi % 8, v, bj % 8);
    assert bi == bi / 8 * 8 + bi % 8 && bj == bj / 8 * 8 + bj % 8;
  }

  // ----- blocks and pages of words -----

  // The little-endian word j.
  function Entry(b: seq<byte>, j: nat): (w: nat)
    requires 4 * j + 4 <= |b|
    ensures w < WORD
  {
    var b0: int, b1: int, b2: int, b3: int := b[4 * j], b[4 * j + 1], b[4 * j + 2], b[4 * j + 3];
    b0 + 0x100 * b1 + 0x10000 * b2 + 0x1000000 * b3
  }

  // The little-endian word at byte offset o.
  function WordAt(b: seq<byte>, o: nat): (w: nat)
    requires o + 4 <= |b|
  {
    (b[o] as nat) + 0x100 * (b[o + 1] as nat) + 0x10000 * (b[o + 2] as nat) + 0x100_0000 * (b[o + 3] as nat)
  }

  // Bit k of word j is bit k % 8 of byte 4 * j + k / 8.
  lemma EntryBits(b: seq<byte>, j: nat, k: nat)
    requires 4 * j + 4 <= |b| && k < 32
    ensures Bit(Entry(b, j), k) <==> Bit(b[4 * j + k / 8], k % 8)
  {
    WordBits(b[4 * j], b[4 * j + 1], b[4 * j + 2], b[4 * j + 3], k);
  }

  lemma WordBits(b0: byte, b1: byte, b2: byte, b3: byte, k: nat)
    requires k < 32
    ensures Bit((b0 as nat) + 0x100 * (b1 as nat) + 0x10000 * (b2 as nat) + 0x100_0000 * (b3 as nat), k) <==>
      if k < 8 then Bit(b0, k) else if k < 16 then Bit(b1, k - 8) else if k < 24 then Bit(b2, k - 16) else Bit(b3, k - 24)
  {
    var u: nat := (b2 as nat) + 0x100 * (b3 as nat);
    var v: nat := (b1 as nat) + 0x100 * u;
    assert (b0 as nat) + 0x100 * v ==
      (b0 as nat) + 0x100 * (b1 as nat) + 0x10000 * (b2 as nat) + 0x100_0000 * (b3 as nat);
    BitOfPair(b0, v, k);
    if k >= 8 {
      BitOfPair(b1, u, k - 8);
      if k >= 16 {
        BitOfPair(b2, b3, k - 16);
      }
    }
  }

  lemma BitOfPair(x: byte, y: nat, k: nat)
    ensures Bit(x + 0x100 * y, k) <==> if k < 8 then Bit(x, k) else Bit(y, k - 8)
  {
    assert Power(8) == 0x100;
    BitShift(x, y, 8, k);
    DoubledEight(y);
  }

  // y << n
  function Doubled(y: nat, n: nat): (r: nat) {
    if n == 0 then y else 2 * Doubled(y, n - 1)
  }

  lemma DoubledEight(y: nat)
    ensures Doubled(y, 8) == 0x100 * y
  {
    assert Doubled(y, 1) == 2 * y;
    assert Doubled(y, 3) == 8 * y;
    assert Doubled(y, 5) == 0x20 * y;
    assert Doubled(y, 7) == 0x80 * y;
  }

  lemma {:induction false} BitShift(x: nat, y: nat, n: nat, k: nat)
    requires x < Power(n)
    ensures Bit(x + Doubled(y, n), k) <==> if k < n then Bit(x, k) else Bit(y, k - n)
  {
    if n > 0 {
      var m := Doubled(y, n - 1);
      assert (x + 2 * m) / 2 == x / 2 + m && (x + 2 * m) % 2 == x % 2;
      if k > 0 {
        BitShift(x / 2, y, n - 1, k - 1);
      }
    }
  }

  // A bit is a binary digit.
  lemma {:induction false} BitIsDigit(x: nat, k: nat)
    ensures Bit(x, k) <==> x / Power(k) % 2 == 1
  {
    if k > 0 {
      BitIsDigit(x / 2, k - 1);
      DivideTwice(x, Power(k - 1));
    }
  }

  lemma DivideTwice(x: nat, p: nat)
    requires p > 0
    ensures x / 2 / p == x / (2 * p)
  {
    var q, r := x / 2 / p, x / 2 % p;
    assert x / 2 == q * p + r;
    assert x == q * (2 * p) + (2 * r + x % 2);
    QuotientIs(x, 2 * p, q, 2 * r + x % 2);
  }

  lemma Times(a: nat, b: nat, c: nat)
    requires a <= b
    ensures a * c <= b * c
  {
  }

  lemma QuotientIs(x: nat, d: nat, q: nat, r: nat)
    requires x == q * d + r && r < d
    ensures x / d == q
  {
    var q', r' := x / d, x % d;
    assert x == q' * d + r';
    if q < q' {
      Times(q + 1, q', d);
    } else if q' < q {
      Times(q' + 1, q, d);
    }
  }

  function WithEntry(b: seq<byte>, j: nat, w: nat): (r: seq<byte>)
    requires 4 * j + 4 <= |b| && w < WORD
    ensures |r| == |b|
  {
    b[4 * j := w % 0x100][4 * j + 1 := w / 0x100 % 0x100][4 * j + 2 := w / 0x10000 % 0x100][4 * j + 3 := w / 0x1000000]
  }

  lemma WithEntryEntries(b: seq<byte>, j: nat, w: nat, i: nat)
    requires 4 * j + 4 <= |b| && 4 * i + 4 <= |b| && w < WORD
    ensures Entry(WithEntry(b, j, w), i) == if i == j then w else Entry(b, i)
  {
    if i == j {
      FourBytes(w);
    } else {
      assert forall x: nat :: 4 * i <= x < 4 * i + 4 ==> WithEntry(b, j, w)[x] == b[x];
    }
  }

  // A number is made of its bytes.
  lemma FourBytes(w: nat)
    ensures w == w % 0x100 + 0x100 * (w / 0x100 % 0x100) + 0x10000 * (w / 0x10000 % 0x100) + 0x1000000 * (w / 0x1000000)
  {
    var q1 := w / 0x100;
    var q2 := q1 / 0x100;
    assert q2 == w / 0x10000 && q2 / 0x100 == w / 0x1000000;
  }

  lemma ZeroEntries(j: nat)
    requires j < NINDIRECT
    ensures Entry(Zero(), j) == 0
  {
  }
}
