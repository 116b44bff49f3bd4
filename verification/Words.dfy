/// The 64-bit word as the paging structures read it (struct PTE in HalPagingMgr.cpp).

module Words {
  import opened Bits

  const FRAMES: nat := 0x100_0000_0000  // 2^40 page frames below physical address 2^52

  type FrameNo = f: nat | f < FRAMES
  type Bits3 = b: nat | b < 8
  type Bits7 = b: nat | b < 128
  type Bits4 = b: nat | b < 16

  /// A word of physical memory, split into the bit fields of a page table entry.
  datatype Word = Word(
    present: bool,      // bit 0
    wr: bool,           // bit 1
    user: bool,         // bit 2
    pwt: bool,          // bit 3
    pcd: bool,          // bit 4
    accessed: bool,     // bit 5
    dirty: bool,        // bit 6
    pat: bool,          // bit 7, the page size bit above level 1
    glob: bool,         // bit 8
    ignored1: Bits3,    // bits 9 to 11
    frame: FrameNo,     // bits 12 to 51
    ignored2: Bits7,    // bits 52 to 58
    key: Bits4,         // bits 59 to 62
    nx: bool)           // bit 63

  /// The number held in the word.
  function Encode(w: Word): U64 {
    hide UpperBits, Odd;
    Cons(w.present, Cons(w.wr, Cons(w.user, Cons(w.pwt, Cons(w.pcd, Cons(w.accessed, Cons(w.dirty,
      Cons(w.pat, Cons(w.glob, UpperBits(w))))))))))
  }

  /// Bits 9 to 63.
  function UpperBits(w: Word): (x: nat)
    ensures x < 0x80_0000_0000_0000
  {
    w.ignored1 + 8 * (w.frame + FRAMES * HighBits(w))
  }

  /// Bits 52 to 63.
  function HighBits(w: Word): (x: nat)
    ensures x < 4096
  {
    w.ignored2 + 128 * (w.key + 16 * (if w.nx then 1 else 0))
  }

  /// The bit fields of a number.
  function Decode(x: U64): Word {
    var b1 := x / 2; var b2 := b1 / 2; var b3 := b2 / 2; var b4 := b3 / 2; var b5 := b4 / 2;
    var b6 := b5 / 2; var b7 := b6 / 2; var b8 := b7 / 2; var upper := b8 / 2;
    var hi := upper / 8 / FRAMES;
    Word(Odd(x), Odd(b1), Odd(b2), Odd(b3), Odd(b4), Odd(b5), Odd(b6), Odd(b7), Odd(b8), upper % 8,
         upper / 8 % FRAMES, hi % 128, hi / 128 % 16, hi / 128 / 16 == 1)
  }

  lemma Split(lo: nat, rest: nat, m: nat)
    requires lo < m
    ensures (lo + m * rest) % m == lo && (lo + m * rest) / m == rest
  {
    assert m * rest == rest * m;
    ModUnique(lo + m * rest, m, rest, lo);
  }

  /// The bit fields determine the word and the word determines the bit fields.
  lemma DecodeEncode(w: Word)
    ensures Decode(Encode(w)) == w
  {
    UpperFields(w);
    hide UpperBits, HighBits, Cons;
    var x8 := Cons(w.glob, UpperBits(w));
    var x7 := Cons(w.pat, x8); var x6 := Cons(w.dirty, x7); var x5 := Cons(w.accessed, x6);
    var x4 := Cons(w.pcd, x5); var x3 := Cons(w.pwt, x4); var x2 := Cons(w.user, x3);
    var x1 := Cons(w.wr, x2); var x0 := Cons(w.present, x1);
    assert Encode(w) == x0;
    DecodeFields(x0, x1, x2, x3, x4, x5, x6, x7, x8, UpperBits(w));
  }

  lemma DecodeFields(x: U64, b1: nat, b2: nat, b3: nat, b4: nat, b5: nat, b6: nat, b7: nat, b8: nat, upper: nat)
    requires b1 == x / 2 && b2 == b1 / 2 && b3 == b2 / 2 && b4 == b3 / 2 && b5 == b4 / 2
    requires b6 == b5 / 2 && b7 == b6 / 2 && b8 == b7 / 2 && upper == b8 / 2
    ensures var hi := upper / 8 / FRAMES;
            Decode(x) == Word(Odd(x), Odd(b1), Odd(b2), Odd(b3), Odd(b4), Odd(b5), Odd(b6), Odd(b7), Odd(b8), upper % 8,
                              upper / 8 % FRAMES, hi % 128, hi / 128 % 16, hi / 128 / 16 == 1)
  {
  }

  /// Which bit is which.
  lemma WordNumber(w: Word)
    ensures Encode(w)
            == (if w.present then 0x1 else 0) + (if w.wr then 0x2 else 0) + (if w.user then 0x4 else 0)
               + (if w.pwt then 0x8 else 0) + (if w.pcd then 0x10 else 0) + (if w.accessed then 0x20 else 0)
               + (if w.dirty then 0x40 else 0) + (if w.pat then 0x80 else 0) + (if w.glob then 0x100 else 0)
               + 0x200 * w.ignored1 + 0x1000 * w.frame + 0x10_0000_0000_0000 * w.ignored2
               + 0x800_0000_0000_0000 * w.key + (if w.nx then 0x8000_0000_0000_0000 else 0)
  {
    Layout(w);
    HighNumber(w);
    hide Encode, HighBits;
    LowNumber(w);
  }

  lemma HighNumber(w: Word)
    ensures 0x1000 * (w.frame + FRAMES * HighBits(w))
            == 0x1000 * w.frame + 0x10_0000_0000_0000 * w.ignored2 + 0x800_0000_0000_0000 * w.key
               + (if w.nx then 0x8000_0000_0000_0000 else 0)
  {
    assert FRAMES == 0x100_0000_0000;
    var h := HighBits(w);
    assert h == w.ignored2 + 128 * w.key + (if w.nx then 2048 else 0);
  }

  lemma LowNumber(w: Word)
    ensures LowBits(w)
            == (if w.present then 0x1 else 0) + (if w.wr then 0x2 else 0) + (if w.user then 0x4 else 0)
               + (if w.pwt then 0x8 else 0) + (if w.pcd then 0x10 else 0) + (if w.accessed then 0x20 else 0)
               + (if w.dirty then 0x40 else 0) + (if w.pat then 0x80 else 0) + (if w.glob then 0x100 else 0)
               + 0x200 * w.ignored1
  {
  }

  lemma UpperFields(w: Word)
    ensures UpperBits(w) % 8 == w.ignored1 && UpperBits(w) / 8 % FRAMES == w.frame
    ensures UpperBits(w) / 8 / FRAMES == HighBits(w)
    ensures HighBits(w) % 128 == w.ignored2 && HighBits(w) / 128 % 16 == w.key
    ensures HighBits(w) / 128 / 16 == if w.nx then 1 else 0
  {
    Split(w.ignored1, w.frame + FRAMES * HighBits(w), 8);
    Split(w.frame, HighBits(w), FRAMES);
    Split(w.ignored2, w.key + 16 * (if w.nx then 1 else 0), 128);
    Split(w.key, if w.nx then 1 else 0, 16);
  }

  lemma EncodeDecode(x: U64)
    ensures Encode(Decode(x)) == x
  {
    var b1 := x / 2; var b2 := b1 / 2; var b3 := b2 / 2; var b4 := b3 / 2; var b5 := b4 / 2;
    var b6 := b5 / 2; var b7 := b6 / 2; var b8 := b7 / 2; var upper := b8 / 2;
    DecodeUpper(x, upper);
    ConsBack(x); ConsBack(b1); ConsBack(b2); ConsBack(b3); ConsBack(b4);
    ConsBack(b5); ConsBack(b6); ConsBack(b7); ConsBack(b8);
  }

  lemma DecodeUpper(x: U64, upper: nat)
    requires upper == x / 2 / 2 / 2 / 2 / 2 / 2 / 2 / 2 / 2
    ensures UpperBits(Decode(x)) == upper
  {
    var hi := upper / 8 / FRAMES;
    assert hi / 128 / 16 < 2;
    assert HighBits(Decode(x)) == hi;
    assert upper / 8 == upper / 8 % FRAMES + FRAMES * hi;
  }

  const ZERO_WORD: Word :=
    Word(false, false, false, false, false, false, false, false, false, 0, 0, 0, 0, false)

  /// What mm_walk_page stores for a table: the frame's address with permissive rights.
  function TableWord(f: FrameNo, user: bool): Word {
    ZERO_WORD.(present := true, wr := true, user := user, frame := f)
  }

  /// `entry & 1`.
  lemma PresentBit(w: Word)
    ensures And(Encode(w), 1) != 0 <==> w.present
  {
    var rest := Encode(w) / 2;
    AndCons(w.present, rest, true, 0);
  }

  /// `entry & 0x80`.
  lemma PageSizeBit(w: Word)
    ensures And(Encode(w), 0x80) != 0 <==> w.pat
  {
    var x := Encode(w);
    var x7 := Cons(w.pat, Cons(w.glob, UpperBits(w)));
    assert x == Flags(w) + 32 * Cons(w.accessed, Cons(w.dirty, x7));
    assert x / 128 == x7;
    Powers();
    AndBit(x, 7);
  }

  /// The low twelve bits and the bits above them.
  lemma Layout(w: Word)
    ensures Encode(w) == LowBits(w) + 0x1000 * (w.frame + FRAMES * HighBits(w))
    ensures Encode(w) % 0x1000 == LowBits(w) && Encode(w) / 0x1000 == w.frame + FRAMES * HighBits(w)
  {
    var top := w.frame + FRAMES * HighBits(w);
    assert UpperBits(w) == w.ignored1 + 8 * top;
    var x5 := Cons(w.accessed, Cons(w.dirty, Cons(w.pat, Cons(w.glob, UpperBits(w)))));
    FlagsBelow(w, x5);
    hide Flags, LowBits, UpperBits, HighBits, Encode;
    LayoutSum(w, top);
    Split(LowBits(w), top, 0x1000);
  }

  lemma FlagsBelow(w: Word, x5: nat)
    requires x5 == Cons(w.accessed, Cons(w.dirty, Cons(w.pat, Cons(w.glob, UpperBits(w)))))
    ensures Encode(w) == Flags(w) + 32 * x5
  {
    hide UpperBits;
  }

  lemma LayoutSum(w: Word, top: nat)
    ensures var upper := w.ignored1 + 8 * top;
            Flags(w) + 32 * Cons(w.accessed, Cons(w.dirty, Cons(w.pat, Cons(w.glob, upper))))
            == LowBits(w) + 0x1000 * top
  {
  }

  function LowBits(w: Word): (x: nat)
    ensures x < 4096
  {
    Flags(w) + (if w.accessed then 32 else 0) + (if w.dirty then 64 else 0) + (if w.pat then 128 else 0)
    + (if w.glob then 256 else 0) + 512 * w.ignored1
  }

  /// Bits 0 to 4: present, write, user, write-through and cache disable.
  function Flags(w: Word): (x: nat)
    ensures x < 32
  {
    (if w.present then 1 else 0) + (if w.wr then 2 else 0) + (if w.user then 4 else 0)
    + (if w.pwt then 8 else 0) + (if w.pcd then 16 else 0)
  }

  lemma Powers()
    ensures Pow2(5) == 32 && Pow2(7) == 128 && Pow2(8) == 256 && Pow2(9) == 512 && Pow2(12) == 0x1000
    ensures Pow2(21) == 0x20_0000 && Pow2(30) == 0x4000_0000 && Pow2(54) == 0x40_0000_0000_0000
    ensures Pow2(52) == 0x10_0000_0000_0000 && Pow2(63) == 0x8000_0000_0000_0000 && Pow2(64) == TWO_TO_THE_64
  {
    assert Pow2(8) == 256;
    assert Pow2(16) == 65536;
    assert Pow2(24) == 0x100_0000;
    assert Pow2(32) == 0x1_0000_0000;
    assert Pow2(40) == 0x100_0000_0000;
    assert Pow2(48) == 0x1_0000_0000_0000;
    assert Pow2(56) == 0x100_0000_0000_0000;
  }

  /// `entry | 7` grants present, write and user and changes nothing else.
  lemma OrTablePerm(w: Word)
    ensures Or(Encode(w), 7) == Encode(w.(present := true, wr := true, user := true))
  {
    var w' := w.(present := true, wr := true, user := true);
    assert UpperBits(w') == UpperBits(w);
    var x3 := Cons(w.pwt, Cons(w.pcd, Cons(w.accessed, Cons(w.dirty, Cons(w.pat, Cons(w.glob, UpperBits(w)))))));
    OrSeven(w.present, w.wr, w.user, x3);
  }

  lemma OrSeven(a: bool, b: bool, c: bool, x: nat)
    ensures Or(Cons(a, Cons(b, Cons(c, x))), 7) == Cons(true, Cons(true, Cons(true, x)))
  {
    OrCons(c, x, true, 0);
    OrCons(b, Cons(c, x), true, 1);
    OrCons(a, Cons(b, Cons(c, x)), true, 3);
  }

  /// `entry & ~0xFFF`, the address of the table a clean entry points to.
  lemma TableAddress(w: Word)
    requires HighBits(w) == 0
    ensures And(Encode(w), Not(0xFFF)) == 0x1000 * w.frame
  {
    Layout(w);
    MaskPage(Encode(w));
  }

  /// `entry & 0x000FFFFFFFFFF000`, the address of the frame a leaf points to.
  lemma FrameAddress(w: Word)
    ensures And(Encode(w), 0x000F_FFFF_FFFF_F000) == 0x1000 * w.frame
  {
    Layout(w);
    MaskPage(Encode(w));
    Split(LowBits(w) + 0x1000 * w.frame, HighBits(w), 0x10_0000_0000_0000);
  }

  lemma MaskPage(x: U64)
    ensures And(x, Not(0xFFF)) == x - x % 0x1000
    ensures And(x, 0x000F_FFFF_FFFF_F000) == x % 0x10_0000_0000_0000 - x % 0x1000
  {
    Powers();
    AndBand(x, 64, 12);
    AndBand(x, 52, 12);
    ModUnique(x, TWO_TO_THE_64, 0, x);
  }

  /// `frame | perm` for a page-aligned frame.
  lemma FrameOrPerm(f: FrameNo, user: bool)
    ensures Or(0x1000 * f, if user then 7 else 3) == Encode(TableWord(f, user))
  {
    TableWordNumber(f, user);
    hide Or, Encode, Pow2;
    assert Pow2(12) == 0x1000 by { Powers(); }
    OrAdd(0x1000 * f, if user then 7 else 3, 12);
  }

  lemma TableWordNumber(f: FrameNo, user: bool)
    ensures Encode(TableWord(f, user)) == 0x1000 * f + if user then 7 else 3
  {
    hide Encode;
    Layout(TableWord(f, user));
  }

  const ADDR_MASK: U64 := 0x000F_FFFF_FFFF_F000

  /// Level 1: `(pte & kAddrMask) | (va & 0xFFF)`.
  lemma PageAddress(w: Word, va: U64)
    ensures Or(And(Encode(w), ADDR_MASK), And(va, 0xFFF)) == 0x1000 * w.frame + va % 0x1000
  {
    hide And, Or, Pow2, Encode;
    assert Pow2(12) == 0x1000 by { Powers(); }
    FrameAddress(w);
    AndLow(va, 12);
    OrAdd(0x1000 * w.frame, va % 0x1000, 12);
  }

  lemma MaskLarge(a: U64, va: U64)
    ensures And(a, Not(0x1F_FFFF)) == a - a % 0x20_0000 && And(va, 0x1F_FFFF) == va % 0x20_0000
    ensures And(a, Not(0x3FFF_FFFF)) == a - a % 0x4000_0000 && And(va, 0x3FFF_FFFF) == va % 0x4000_0000
  {
    Powers();
    AndBand(a, 64, 21);
    AndBand(a, 64, 30);
    AndLow(va, 21);
    AndLow(va, 30);
    ModUnique(a, Pow2(64), 0, a);
  }

  /// Level 2: `(pde & kAddrMask & ~kLargeOffset) | (va & kLargeOffset)`.
  lemma LargePageAddress(w: Word, va: U64)
    ensures Or(And(And(Encode(w), ADDR_MASK), Not(0x1F_FFFF)), And(va, 0x1F_FFFF))
            == 0x1000 * (w.frame - w.frame % 512) + va % 0x200000
  {
    hide And, Or, Encode;
    FrameAddress(w);
    MaskLarge(0x1000 * w.frame, va);
    LargePageAddressOr(w.frame, va);
  }

  lemma LargePageAddressOr(f: FrameNo, va: U64)
    ensures 0x1000 * f - (0x1000 * f) % 0x200000 == 0x1000 * (f - f % 512)
    ensures Or(0x1000 * (f - f % 512), va % 0x200000) == 0x1000 * (f - f % 512) + va % 0x200000
  {
    hide Or, Pow2;
    var a := 0x1000 * (f - f % 512);
    ModUnique(a, 0x200000, f / 512, 0);
    ModUnique(0x1000 * f, 0x200000, f / 512, 0x1000 * (f % 512));
    assert Pow2(21) == 0x200000 by { Powers(); }
    OrAdd(a, va % 0x200000, 21);
  }

  /// Level 3: `(pdpte & kAddrMask & ~kGiBOffset) | (va & kGiBOffset)`.
  lemma GiBPageAddress(w: Word, va: U64)
    ensures Or(And(And(Encode(w), ADDR_MASK), Not(0x3FFF_FFFF)), And(va, 0x3FFF_FFFF))
            == 0x1000 * (w.frame - w.frame % 0x4_0000) + va % 0x40000000
  {
    hide And, Or, Encode;
    FrameAddress(w);
    MaskLarge(0x1000 * w.frame, va);
    GiBPageAddressOr(w.frame, va);
  }

  lemma GiBPageAddressOr(f: FrameNo, va: U64)
    ensures 0x1000 * f - (0x1000 * f) % 0x40000000 == 0x1000 * (f - f % 0x4_0000)
    ensures Or(0x1000 * (f - f % 0x4_0000), va % 0x40000000) == 0x1000 * (f - f % 0x4_0000) + va % 0x40000000
  {
    hide Or, Pow2;
    var a := 0x1000 * (f - f % 0x4_0000);
    ModUnique(a, 0x40000000, f / 0x4_0000, 0);
    ModUnique(0x1000 * f, 0x40000000, f / 0x4_0000, 0x1000 * (f % 0x4_0000));
    assert Pow2(30) == 0x40000000 by { Powers(); }
    OrAdd(a, va % 0x40000000, 30);
  }

  /// Entry i of the table that replaces a large leaf of the given level.
  function SplitWord(e: Word, level: nat, i: nat): Word
    requires 2 <= level <= 4 && i < 512
  {
    var f: FrameNo :=
      if level == 2 then e.frame - e.frame % 512 + i
      else if level == 3 then e.frame - e.frame % 0x4_0000 + i * 512
      else e.frame - e.frame % 0x800_0000 + i * 0x4_0000;
    e.(accessed := false, dirty := false, ignored1 := 0, pat := level > 2, frame := f)
  }

  /// `(entry & 0x1F) | (entry & 0x100) | (entry & (1 << 63))`.
  function PermBits(x: U64): nat {
    Or(Or(And(x, 0x1F), And(x, 0x100)), And(x, 0x8000_0000_0000_0000))
  }

  lemma PermBitsSum(w: Word)
    ensures PermBits(Encode(w))
            == Flags(w) + (if w.glob then 256 else 0) + (if w.nx then 0x8000_0000_0000_0000 else 0)
  {
    var x := Encode(w);
    PermMasks(w);
    PermOrs(Flags(w), w.glob, w.nx);
  }

  lemma PermMasks(w: Word)
    ensures And(Encode(w), 0x1F) == Flags(w)
    ensures And(Encode(w), 0x100) == if w.glob then 256 else 0
    ensures And(Encode(w), 0x8000_0000_0000_0000) == if w.nx then 0x8000_0000_0000_0000 else 0
  {
    hide And, Encode, Pow2, Flags;
    var x := Encode(w);
    SingleBits(w);
    assert Pow2(5) == 32 && Pow2(8) == 256 && Pow2(63) == 0x8000_0000_0000_0000 by { Powers(); }
    AndLow(x, 5);
    AndBit(x, 8);
    AndBit(x, 63);
  }

  lemma PermOrs(f: nat, g: bool, n: bool)
    requires f < 32
    ensures Or(Or(f, if g then 256 else 0), if n then 0x8000_0000_0000_0000 else 0)
            == f + (if g then 256 else 0) + (if n then 0x8000_0000_0000_0000 else 0)
  {
    assert Or(f, 0) == f;
    hide Or, Pow2;
    assert Pow2(8) == 256 && Pow2(63) == 0x8000_0000_0000_0000 by { Powers(); }
    assert f / 256 == 0;
    var x := f + (if g then 256 else 0);
    assert Or(f, if g then 256 else 0) == x by {
      OrBit(f, 8);
    }
    assert x / 0x8000_0000_0000_0000 == 0;
    OrBit(x, 63);
  }

  lemma SingleBits(w: Word)
    ensures Encode(w) % 32 == Flags(w)
    ensures Encode(w) / 256 == Cons(w.glob, UpperBits(w))
    ensures Encode(w) / 0x8000_0000_0000_0000 == if w.nx then 1 else 0
  {
    hide UpperBits, Encode, Flags;
    var x8 := Cons(w.glob, UpperBits(w));
    var x5 := Cons(w.accessed, Cons(w.dirty, Cons(w.pat, x8)));
    FlagsBelow(w, x5);
    LowParts(Encode(w), Flags(w), x5, w.accessed, w.dirty, w.pat, x8);
    DivChain(Encode(w), w);
  }

  lemma LowParts(x: nat, flags: nat, x5: nat, a: bool, d: bool, p: bool, x8: nat)
    requires flags < 32 && x == flags + 32 * x5 && x5 == Cons(a, Cons(d, Cons(p, x8)))
    ensures x % 32 == flags && x / 256 == x8
  {
    var lo := flags + 32 * ((if a then 1 else 0) + (if d then 2 else 0) + (if p then 4 else 0));
    assert x == x8 * 256 + lo;
    ModUnique(x, 256, x8, lo);
    ModUnique(x, 32, x5, flags);
  }

  lemma DivChain(x: nat, w: Word)
    requires x / 256 == Cons(w.glob, UpperBits(w))
    ensures x / 0x8000_0000_0000_0000 == if w.nx then 1 else 0
  {
    UpperFields(w);
    assert x / 256 / 2 == UpperBits(w);
    assert x / 0x8000_0000_0000_0000 == x / 256 / 2 / 8 / 0x100_0000_0000 / 128 / 16;
  }

  /// `(base + (i * (step >> 9)))`, where base is the entry without its low bits.
  function SplitAddress(x: U64, level: nat, i: nat): nat
    requires level == 2 || level == 3
  {
    if level == 2 then And(x, Not(0x1F_FFFF)) + i * 0x1000 else And(x, Not(0x3FFF_FFFF)) + i * 0x20_0000
  }

  /// `split[i] = (base + (i * (step >> 9))) | perm | ((shift > 21) ? kPageSizeBit : 0)`.
  function SplitNumber(x: U64, level: nat, i: nat): nat
    requires level == 2 || level == 3
  {
    Or(Or(SplitAddress(x, level, i), PermBits(x)), if level > 2 then 0x80 else 0)
  }

  lemma SplitNumberIsSplitWord(e: Word, level: nat, i: nat)
    requires (level == 2 || level == 3) && i < 512
    ensures SplitNumber(Encode(e), level, i) == Encode(SplitWord(e, level, i))
  {
    var w := SplitWord(e, level, i);
    var upper := 0x1000 * (w.frame + FRAMES * HighBits(w));
    SplitBase(e, level, i);
    SplitTop(e, level, i, upper);
    SplitOr(e, upper, Encode(e), SplitAddress(Encode(e), level, i), level > 2);
  }

  lemma SplitOr(e: Word, upper: U64, x: U64, address: nat, ps: bool)
    requires x == Encode(e) && address == upper && upper % 0x1000 == 0
    requires upper / 0x8000_0000_0000_0000 == if e.nx then 1 else 0
    ensures Or(Or(address, PermBits(x)), if ps then 0x80 else 0)
            == upper + Flags(e) + (if e.glob then 256 else 0) + (if ps then 128 else 0)
  {
    PermBitsSum(e);
    OrPerm(upper, Flags(e), e.glob, e.nx, ps);
  }

  lemma SplitTop(e: Word, level: nat, i: nat, upper: nat)
    requires (level == 2 || level == 3) && i < 512
    requires var w := SplitWord(e, level, i); upper == 0x1000 * (w.frame + FRAMES * HighBits(w))
    ensures upper < TWO_TO_THE_64 && upper % 0x1000 == 0 && upper / 0x8000_0000_0000_0000 == if e.nx then 1 else 0
    ensures Encode(SplitWord(e, level, i))
            == upper + Flags(e) + (if e.glob then 256 else 0) + (if level > 2 then 128 else 0)
  {
    var w := SplitWord(e, level, i);
    Layout(w);
    SplitLow(e, level, i);
    DivTop(upper, w);
  }

  lemma SplitLow(e: Word, level: nat, i: nat)
    requires (level == 2 || level == 3) && i < 512
    ensures LowBits(SplitWord(e, level, i)) == Flags(e) + (if level > 2 then 128 else 0) + (if e.glob then 256 else 0)
  {
  }

  lemma DivTop(x: nat, w: Word)
    requires x == 0x1000 * (w.frame + FRAMES * HighBits(w))
    ensures x / 0x8000_0000_0000_0000 == if w.nx then 1 else 0
  {
    UpperFields(w);
    Split(w.frame, HighBits(w), FRAMES);
    assert x / 0x8000_0000_0000_0000 == x / 0x1000 / 0x100_0000_0000 / 128 / 16;
  }

  lemma SplitBase(e: Word, level: nat, i: nat)
    requires (level == 2 || level == 3) && i < 512
    ensures SplitAddress(Encode(e), level, i) == 0x1000 * (SplitWord(e, level, i).frame + FRAMES * HighBits(e))
  {
    hide And, Encode, HighBits;
    var x, top := Encode(e), e.frame + FRAMES * HighBits(e);
    MaskLarge(x, 0);
    Layout(e);
    AlignSum(x, LowBits(e), top);
    TopAlign(e.frame, HighBits(e));
  }

  lemma TopAlign(f: FrameNo, h: nat)
    ensures (f + FRAMES * h) % 512 == f % 512 && (f + FRAMES * h) % 0x4_0000 == f % 0x4_0000
  {
    TopParts(f, h, f + FRAMES * h);
  }

  lemma TopParts(f: nat, h: nat, x: nat)
    requires x == f + 0x100_0000_0000 * h
    ensures x % 512 == f % 512 && x % 0x4_0000 == f % 0x4_0000
  {
    ModUnique(x, 512, f / 512 + 0x8000_0000 * h, f % 512);
    ModUnique(x, 0x4_0000, f / 0x4_0000 + 0x40_0000 * h, f % 0x4_0000);
  }

  lemma AlignSum(x: nat, lo: nat, top: nat)
    requires x == lo + 0x1000 * top && lo < 0x1000
    ensures x - x % 0x20_0000 == 0x1000 * (top - top % 512)
    ensures x - x % 0x4000_0000 == 0x1000 * (top - top % 0x4_0000)
  {
    ModUnique(x, 0x20_0000, top / 512, lo + 0x1000 * (top % 512));
    ModUnique(x, 0x4000_0000, top / 0x4_0000, lo + 0x1000 * (top % 0x4_0000));
  }

  lemma OrPerm(x: U64, f: nat, g: bool, n: bool, ps: bool)
    requires x % 0x1000 == 0 && f < 32 && x / 0x8000_0000_0000_0000 == if n then 1 else 0
    ensures Or(Or(x, f + (if g then 256 else 0) + (if n then 0x8000_0000_0000_0000 else 0)), if ps then 0x80 else 0)
            == x + f + (if g then 256 else 0) + (if ps then 128 else 0)
  {
    hide Or;
    var k, p := x / 0x1000, f + (if g then 256 else 0);
    PermParts(x, k, p, g);
    OrPermTop(8 * k, p, n);
    OrPageSize(x + p, ps);
  }

  lemma PermParts(x: nat, k: nat, p: nat, g: bool)
    requires x == 0x1000 * k && (if g then 256 <= p < 288 else p < 32)
    ensures x == 512 * (8 * k) && (x + p) / 128 % 2 == 0
    ensures 8 * k / 0x40_0000_0000_0000 == x / 0x8000_0000_0000_0000
  {
    var two := if g then 2 else 0;
    ModUnique(x + p, 128, 32 * k + two, p - 128 * two);
    EighthOf(x, 8 * k);
    EvenPart(32 * k + two, 16 * k, two);
  }

  lemma EvenPart(y: nat, k: nat, two: nat)
    requires y == 2 * k + two && (two == 0 || two == 2)
    ensures y % 2 == 0
  {
  }

  lemma EighthOf(x: nat, y: nat)
    requires x == 512 * y
    ensures y / 0x40_0000_0000_0000 == x / 0x8000_0000_0000_0000
  {
    var q, r := y / 0x40_0000_0000_0000, y % 0x40_0000_0000_0000;
    ModUnique(x, 0x8000_0000_0000_0000, q, 512 * r);
  }

  lemma OrPermTop(y: nat, p: nat, n: bool)
    requires y / 0x40_0000_0000_0000 == (if n then 1 else 0) && p < 512
    ensures Or(512 * y, p + (if n then 0x8000_0000_0000_0000 else 0)) == 512 * y + p
  {
    var q := if n then 0x40_0000_0000_0000 else 0;
    hide Pow2;
    assert Or(y, q) == y by {
      assert Pow2(54) == 0x40_0000_0000_0000 by { Powers(); }
      OrBit(y, 54);
    }
    assert Pow2(9) == 512 by { Powers(); }
    OrShift(y, p, q, 9);
  }

  lemma OrPageSize(x: nat, ps: bool)
    requires x / 128 % 2 == 0
    ensures Or(x, if ps then 0x80 else 0) == x + (if ps then 128 else 0)
  {
    assert Pow2(7) == 128 by { Powers(); }
    OrBit(x, 7);
  }
}
