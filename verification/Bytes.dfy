/// Memory seen byte by byte, through the page tables.

module Bytes {
  import opened Bits
  import opened Words
  import opened PhysicalMemory
  import opened Translation

  type Byte = b: nat | b < 256

  // ---- the eight bytes of a word, little-endian ------------------------------------------

  function ToBytes(x: nat, n: nat): (bs: seq<Byte>)
    ensures |bs| == n
    decreases n, x
  {
    if n == 0 then [] else [x % 256] + ToBytes(x / 256, n - 1)
  }

  function FromBytes(bs: seq<Byte>): nat {
    if bs == [] then 0 else bs[0] + 256 * FromBytes(bs[1..])
  }

  lemma {:induction false} FromBytesBound(bs: seq<Byte>)
    ensures FromBytes(bs) < Pow2(8 * |bs|)
  {
    if bs == [] {
    } else {
      var p := Pow2(8 * |bs[1..]|);
      FromBytesBound(bs[1..]);
      Pow2Byte(8 * |bs[1..]|);
    }
  }

  lemma Pow2Byte(k: nat)
    ensures Pow2(k + 8) == 256 * Pow2(k)
  {
    assert Pow2(k + 8) == 2 * Pow2(k + 7) == 4 * Pow2(k + 6) == 8 * Pow2(k + 5) == 16 * Pow2(k + 4);
    assert Pow2(k + 4) == 2 * Pow2(k + 3) == 4 * Pow2(k + 2) == 8 * Pow2(k + 1) == 16 * Pow2(k);
  }

  lemma {:induction false} ToFromBytes(bs: seq<Byte>)
    ensures ToBytes(FromBytes(bs), |bs|) == bs
  {
    if bs != [] {
      ToFromBytes(bs[1..]);
      var x := FromBytes(bs);
      ModUnique(x, 256, FromBytes(bs[1..]), bs[0]);
    }
  }

  lemma {:induction false} FromToBytes(x: nat, n: nat)
    requires x < Pow2(8 * n)
    ensures FromBytes(ToBytes(x, n)) == x
    decreases n
  {
    if n > 0 {
      Pow2Byte(8 * (n - 1));
      var p := Pow2(8 * (n - 1));
      assert x / 256 < p;
      FromToBytes(x / 256, n - 1);
    }
  }

  /// The bytes of a number, the lowest first, as the processor stores them.
  lemma LittleEndian(x: nat)
    ensures ToBytes(x, 2) == [x % 256, x / 0x100 % 256]
    ensures ToBytes(x, 4) == [x % 256, x / 0x100 % 256, x / 0x1_0000 % 256, x / 0x100_0000 % 256]
    ensures ToBytes(x, 8) == ToBytes(x, 4) + ToBytes(x / 0x1_0000_0000, 4)
  {
    hide ToBytes;
    var x1 := x / 256;
    var x2 := x1 / 256;
    var x3 := x2 / 256;
    var x4 := x3 / 256;
    Quarters(x, x1, x2, x3, x4);
    FirstByte(x, 1);
    FirstByte(x1, 0);
    FirstByte(x2, 0);
    FourMore(x, x1, x2, x3, x4, 0);
    FourMore(x, x1, x2, x3, x4, 4);
  }

  lemma FirstByte(x: nat, n: nat)
    ensures ToBytes(x, n + 1) == [x % 256] + ToBytes(x / 256, n) && ToBytes(x, 0) == []
  {
  }

  lemma Quarters(x: nat, x1: nat, x2: nat, x3: nat, x4: nat)
    requires x1 == x / 256 && x2 == x1 / 256 && x3 == x2 / 256 && x4 == x3 / 256
    ensures x2 == x / 0x1_0000 && x3 == x / 0x100_0000 && x4 == x / 0x1_0000_0000
  {
  }

  lemma FourMore(x: nat, x1: nat, x2: nat, x3: nat, x4: nat, n: nat)
    requires x1 == x / 256 && x2 == x1 / 256 && x3 == x2 / 256 && x4 == x3 / 256
    ensures ToBytes(x, n + 4) == [x % 256, x1 % 256, x2 % 256, x3 % 256] + ToBytes(x4, n) && ToBytes(x4, 0) == []
  {
    hide ToBytes;
    FirstByte(x, n + 3);
    FirstByte(x1, n + 2);
    FirstByte(x2, n + 1);
    FirstByte(x3, n);
    FirstByte(x4, n);
    InFront(x % 256, x1 % 256, x2 % 256, x3 % 256, ToBytes(x4, n));
  }

  lemma InFront(a: Byte, b: Byte, c: Byte, d: Byte, rest: seq<Byte>)
    ensures [a] + ([b] + ([c] + ([d] + rest))) == [a, b, c, d] + rest
  {
  }

  lemma {:induction false} ZeroBytes(n: nat)
    ensures forall j | 0 <= j < n :: ToBytes(0, n)[j] == 0
    decreases n
  {
    if n > 0 {
      ZeroBytes(n - 1);
    }
  }

  function WordBytes(w: Word): (bs: seq<Byte>)
    ensures |bs| == 8
  {
    ToBytes(Encode(w), 8)
  }

  function WordOf(bs: seq<Byte>): Word
    requires |bs| == 8
  {
    FromBytesBound(bs);
    Powers();
    Decode(FromBytes(bs))
  }

  lemma WordOfBytes(bs: seq<Byte>)
    requires |bs| == 8
    ensures WordBytes(WordOf(bs)) == bs
  {
    FromBytesBound(bs);
    Powers();
    EncodeDecode(FromBytes(bs));
    ToFromBytes(bs);
  }

  // ---- bytes of a frame ------------------------------------------------------------------

  /// Byte k of frame f.
  function ByteAt(m: Memory, f: nat, k: nat): Byte {
    WordBytes(Rd(m, f, k / 8))[k % 8]
  }

  function WriteByte(m: Memory, f: nat, k: nat, b: Byte): Memory {
    Wr(m, f, k / 8, WordOf(WordBytes(Rd(m, f, k / 8))[k % 8 := b]))
  }

  /// Writing a byte changes that byte and no other.
  lemma WriteByteReads(m: Memory, f: nat, k: nat, b: Byte, g: nat, j: nat)
    ensures ByteAt(WriteByte(m, f, k, b), g, j) == if g == f && j == k then b else ByteAt(m, g, j)
  {
    WordOfBytes(WordBytes(Rd(m, f, k / 8))[k % 8 := b]);
    assert j == 8 * (j / 8) + j % 8 && k == 8 * (k / 8) + k % 8;
  }

  lemma ZeroWordBytes(m: Memory, f: nat, k: nat)
    requires Rd(m, f, k / 8) == ZERO_WORD
    ensures ByteAt(m, f, k) == 0
  {
    assert Encode(ZERO_WORD) == 0;
    ZeroBytes(8);
  }

  // ---- bytes of the address space --------------------------------------------------------

  /// The byte a load from virtual address va returns; None is a page fault.
  function LoadByte(m: Memory, root: nat, va: nat): Option<Byte> {
    match Lookup(m, root, va / 4096)
    case None => None
    case Some(p) => Some(ByteAt(m, p.frame, va % 4096))
  }

  /// A store to virtual address va.
  function StoreByte(m: Memory, root: nat, va: nat, b: Byte): Memory {
    match Lookup(m, root, va / 4096)
    case None => m
    case Some(p) => WriteByte(m, p.frame, va % 4096, b)
  }
}
