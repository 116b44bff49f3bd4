/// The bit operations of HalPagingMgr.cpp on one entry, each as the C expression it stands for.

module Entries {
  import opened Bits
  import opened Words
  import opened Translation
  import opened Paging
  import opened BootTables

  /// `a >> k`
  function Shr(a: nat, k: nat): nat {
    QuotientNatural(a, Pow2(k));
    a / Pow2(k)
  }

  lemma QuotientNatural(a: nat, p: nat)
    requires p > 0
    ensures a / p >= 0
  {
  }

  /// The page a 64-bit virtual address lies on; bits 48 to 63 take no part in the walk.
  function Vpn(va: U64): nat { va / 0x1000 % 0x10_0000_0000 }

  /// `(virtual_address >> shift) & 0x1FF` picks the index of the level with that shift.
  lemma IndexBits(va: U64, level: nat)
    requires 1 <= level <= 4
    ensures And(Shr(va, 3 + 9 * level), 0x1FF) == Index(Vpn(va), level)
  {
    assert Pow2(9) == 512 by { Powers(); }
    AndLow(Shr(va, 3 + 9 * level), 9);
    IndexQuotients(va);
    Shifts();
  }

  lemma Shifts()
    ensures Pow2(12) == 0x1000 && Pow2(21) == 0x20_0000 && Pow2(30) == 0x4000_0000 && Pow2(39) == 0x80_0000_0000
  {
    Powers();
    assert Pow2(39) == 512 * Pow2(30) by {
      assert Pow2(39) == 8 * Pow2(36) == 64 * Pow2(33) == 512 * Pow2(30);
    }
  }

  lemma IndexQuotients(va: U64)
    ensures va / 0x1000 % 512 == Index(Vpn(va), 1)
    ensures va / 0x20_0000 % 512 == Index(Vpn(va), 2)
    ensures va / 0x4000_0000 % 512 == Index(Vpn(va), 3)
    ensures va / 0x80_0000_0000 % 512 == Index(Vpn(va), 4)
  {
    var v := Vpn(va);
    assert Prefix(v, 1) == v / 512;
    assert Prefix(v, 2) == v / 512 / 512;
    assert Prefix(v, 3) == v / 512 / 512 / 512;
    hide Prefix;
    PageQuotients(va / 0x1000);
    AddressParts(va, va / 0x1000);
  }

  lemma AddressParts(va: nat, p: nat)
    requires p == va / 0x1000
    ensures va / 0x20_0000 == p / 512 && va / 0x4000_0000 == p / 0x4_0000 && va / 0x80_0000_0000 == p / 0x800_0000
  {
    ModUnique(va, 0x20_0000, p / 512, 0x1000 * (p % 512) + va % 0x1000);
    ModUnique(va, 0x4000_0000, p / 0x4_0000, 0x1000 * (p % 0x4_0000) + va % 0x1000);
    ModUnique(va, 0x80_0000_0000, p / 0x800_0000, 0x1000 * (p % 0x800_0000) + va % 0x1000);
  }

  lemma PageQuotients(p: nat)
    ensures p % 512 == p % 0x10_0000_0000 % 512
    ensures p / 512 % 512 == p % 0x10_0000_0000 / 512 % 512
    ensures p / 0x4_0000 % 512 == p % 0x10_0000_0000 / 512 / 512 % 512
    ensures p / 0x800_0000 % 512 == p % 0x10_0000_0000 / 512 / 512 / 512 % 512
  {
    var q, r := p / 0x10_0000_0000, p % 0x10_0000_0000;
    QuotientStep(p, q, r, 0x800_0000);
    QuotientStep(p / 512, q, r / 512, 0x4_0000);
    QuotientStep(p / 512 / 512, q, r / 512 / 512, 512);
    assert p / 0x4_0000 == p / 512 / 512 && p / 0x800_0000 == p / 512 / 512 / 512;
  }

  lemma QuotientStep(p: nat, q: nat, r: nat, m: nat)
    requires m == 0x800_0000 || m == 0x4_0000 || m == 512
    requires p == 512 * m * q + r
    ensures p / 512 == m * q + r / 512 && p % 512 == r % 512
  {
  }

  /// `entry & 1`
  method IsPresent(e: Word) returns (r: bool)
    ensures r == e.present
  {
    PresentBit(e);
    r := And(Encode(e), 1) != 0;
  }

  /// `entry & kPageSizeBit`
  method IsLarge(e: Word) returns (r: bool)
    ensures r == e.pat
  {
    PageSizeBit(e);
    r := And(Encode(e), 0x80) != 0;
  }

  /// `entry | kTablePerm` in the walk: present, writable, user.
  method Permit(e: Word) returns (r: Word)
    ensures r == Permissive(e)
  {
    OrTablePerm(e);
    DecodeEncode(Permissive(e));
    r := Decode(Or(Encode(e), 7));
  }

  /// `frame | kTablePerm`, 7 in the walk and 3 in mm_init_kernel_tables.
  method PointTo(frame: U64, user: bool) returns (r: Word)
    requires frame % 0x1000 == 0 && frame < 0x10_0000_0000_0000
    ensures r == TableWord(frame / 0x1000, user)
  {
    hide Or, Encode, Decode;
    FrameOrPerm(frame / 0x1000, user);
    DecodeEncode(TableWord(frame / 0x1000, user));
    r := Decode(Or(frame, if user then 7 else 3));
  }

  /// `entry & ~kPageMask`
  method NextTable(e: Word) returns (table: U64)
    requires IsTableEntry(e)
    ensures table == 0x1000 * e.frame
  {
    TableAddress(e);
    table := And(Encode(e), Not(0xFFF));
  }

  /// `(base + (i * (step >> 9))) | perm | ((shift > 21) ? kPageSizeBit : 0)`
  method SplitEntry(e: Word, level: nat, i: nat) returns (r: Word)
    requires (level == 2 || level == 3) && i < 512
    ensures r == SplitWord(e, level, i)
  {
    SplitNumberIsSplitWord(e, level, i);
    DecodeEncode(SplitWord(e, level, i));
    r := Decode(SplitNumber(Encode(e), level, i));
  }

  /// `(base + (i * kLargePage)) | kLeafPerm`
  method IdentityEntry(base: U64, ghost k: nat, i: nat) returns (r: Word)
    requires base == k * 0x4000_0000 && k < 0x4_0000 && i < 512
    ensures r == IdentityWord(k, i)
  {
    IdentityNumber(k, i);
    DecodeEncode(IdentityWord(k, i));
    r := Decode(Or(base + i * 0x20_0000, 0x83));
  }

  lemma IdentityNumber(k: nat, i: nat)
    requires k < 0x4_0000 && i < 512
    ensures Or(k * 0x4000_0000 + i * 0x20_0000, 0x83) == Encode(IdentityWord(k, i))
  {
    var f := k * 0x4_0000 + i * 512;
    assert Pow2(12) == 0x1000 by { Powers(); }
    assert k * 0x4000_0000 + i * 0x20_0000 == 0x1000 * f;
    OrAdd(0x1000 * f, 0x83, 12);
    Layout(IdentityWord(k, i));
  }
}
