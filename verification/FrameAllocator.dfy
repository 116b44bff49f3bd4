/// The allocator as the kernel runs it: static variables and memory, updated in place
/// (HALKit/Generic/HalPhysicalMemory.cpp). Its specification is module Frames.

module FrameAllocator {
  import opened Bits
  import opened Words
  import opened PhysicalMemory
  import opened Bytes
  import opened Frames

  class Ram {
    var mem: Memory

    constructor ()
      ensures mem == map[]
    {
      mem := map[];
    }
  }

  lemma {:induction false} ZeroFromBytes(x: nat, n: nat)
    requires x < Pow2(8 * n) && forall j | 0 <= j < n :: ToBytes(x, n)[j] == 0
    ensures x == 0
    decreases n
  {
    if n > 0 {
      Pow2Byte(8 * (n - 1));
      var rest := ToBytes(x / 256, n - 1);
      assert ToBytes(x, n)[0] == 0;
      forall j | 0 <= j < |rest|
        ensures rest[j] == 0
      {
        assert ToBytes(x, n)[j + 1] == 0;
      }
      ZeroFromBytes(x / 256, n - 1);
    }
  }

  lemma EncodeZero()
    ensures Encode(ZERO_WORD) == 0 && Decode(0) == ZERO_WORD
  {
    assert Encode(ZERO_WORD) == 0;
    DecodeEncode(ZERO_WORD);
  }

  /// A word whose eight bytes are zero is the zero word.
  lemma ZeroBytesZeroWord(w: Word)
    requires forall j | 0 <= j < 8 :: WordBytes(w)[j] == 0
    ensures w == ZERO_WORD
  {
    forall j | 0 <= j < 8
      ensures ToBytes(Encode(w), 8)[j] == 0
    {
      assert WordBytes(w)[j] == 0;
    }
    ZeroNumber(Encode(w));
    DecodeEncode(w);
    EncodeZero();
  }

  lemma ZeroNumber(x: U64)
    requires forall j | 0 <= j < 8 :: ToBytes(x, 8)[j] == 0
    ensures x == 0
  {
    assert Pow2(64) == TWO_TO_THE_64 by { Powers(); }
    ZeroFromBytes(x, 8);
  }

  /// The first i words of frame f are zero, and so are j bytes of word i; the rest is as before.
  ghost predicate ZeroedUpTo(m0: Memory, m: Memory, f: nat, i: nat, j: nat)
    requires j <= 8
  {
    && (forall k: nat | k < i :: Loc(f, k) in m && m[Loc(f, k)] == ZERO_WORD)
    && (j > 0 ==> Loc(f, i) in m)
    && (forall b | 0 <= b < j :: WordBytes(Rd(m, f, i))[b] == 0)
    && (forall l: Loc | l.frame != f || l.idx > i || (l.idx == i && j == 0) ::
          (l in m <==> l in m0) && (l in m ==> m[l] == m0[l]))
  }

  lemma ZeroStep(m0: Memory, m: Memory, f: nat, i: nat, j: nat)
    requires j < 8 && ZeroedUpTo(m0, m, f, i, j)
    ensures ZeroedUpTo(m0, WriteByte(m, f, 8 * i + j, 0), f, i, j + 1)
  {
    hide WordBytes, WordOf;
    var bs := WordBytes(Rd(m, f, i))[j := 0];
    assert (8 * i + j) / 8 == i && (8 * i + j) % 8 == j;
    WordOfBytes(bs);
    assert WriteByte(m, f, 8 * i + j, 0) == Wr(m, f, i, WordOf(bs));
  }

  lemma ZeroWordDone(m0: Memory, m: Memory, f: nat, i: nat)
    requires ZeroedUpTo(m0, m, f, i, 8)
    ensures ZeroedUpTo(m0, m, f, i + 1, 0)
  {
    ZeroBytesZeroWord(Rd(m, f, i));
  }

  lemma ZeroDone(m0: Memory, m: Memory, f: nat)
    requires ZeroedUpTo(m0, m, f, 512, 0)
    ensures m == ZeroFrame(m0, f)
  {
    var z := ZeroFrame(m0, f);
    forall l: Loc
      ensures (l in m <==> l in z) && (l in m ==> m[l] == z[l])
    {
      if l.frame == f && l.idx < 512 {
        assert l == Loc(f, l.idx) && Loc(f, l.idx) in z;
      }
    }
  }

  /// rt_set_memory(frame, 0, kPageSize), one byte after the other.
  method ClearFrame(ram: Ram, f: nat)
    modifies ram
    ensures ram.mem == ZeroFrame(old(ram.mem), f)
  {
    for i := 0 to 512
      invariant ZeroedUpTo(old(ram.mem), ram.mem, f, i, 0)
    {
      for j := 0 to 8
        invariant ZeroedUpTo(old(ram.mem), ram.mem, f, i, j)
      {
        ZeroStep(old(ram.mem), ram.mem, f, i, j);
        ram.mem := WriteByte(ram.mem, f, 8 * i + j, 0);
      }
      ZeroWordDone(old(ram.mem), ram.mem, f, i);
    }
    ZeroDone(old(ram.mem), ram.mem, f);
  }

  /// The 64-bit store of a page-aligned address.
  method WordOfAddress(a: U64) returns (w: Word)
    requires a % 4096 == 0 && a < 0x10_0000_0000_0000
    ensures w == LinkWord(a / 4096)
  {
    AddressWord(a);
    w := Decode(a);
  }

  lemma WholeFrames(start: nat, end: nat, first: nat, last: nat)
    requires start == 4096 * first && end == 4096 * last
    ensures start / 4096 == first && end / 4096 == last && start % 4096 == end % 4096 == 0
    ensures end <= start <==> last <= first
    ensures start <= end ==> (end - start) / 4096 == last - first
  {
  }

  lemma RegionMasks(base: U64, sz: U64)
    requires base + sz <= 0x10_0000_0000_0000
    ensures And(base + 0xFFF, Not(0xFFF)) == 4096 * RegionStart(base)
    ensures And(base + sz, Not(0xFFF)) == 4096 * RegionEnd(base, sz)
  {
    hide And, Not;
    MaskPage(base + 0xFFF);
    MaskPage(base + sz);
  }

  /// What pmmi_init makes of the state s.
  predicate RegionHolds(base: nat, sz: nat, s: Store, s': Store) {
    s' == Store(s.mem, Frames.Init(s.pmm, base, sz), if RegionEnd(base, sz) <= RegionStart(base) then s.list else [])
  }

  lemma FreshRegion(m: Memory, p: Pmm, base: nat, sz: nat)
    requires base + sz <= 4096 * FRAMES
    ensures RegionStart(base) < RegionEnd(base, sz) ==> PmmOk(Store(m, Frames.Init(p, base, sz), []))
    ensures PmmOk(Store(m, Frames.Init(PRISTINE, base, sz), []))
    ensures var start, end := RegionStart(base), RegionEnd(base, sz);
            Frames.Init(p, base, sz) == if end <= start then p.(cursor := 0, end := 0)
                                        else Pmm(start, start, end, 0, end - start, 0)
  {
  }

  class Allocator {
    const ram: Ram

    var kPmmBase: U64
    var kPmmCursor: U64
    var kPmmEnd: U64
    var kPmmFreeHead: U64
    var kPmmFree: U64
    var kPmmUsed: U64

    ghost var list: seq<nat>

    ghost function View(): Store
      reads this, ram
    {
      Store(ram.mem,
            Pmm(kPmmBase / 4096, kPmmCursor / 4096, kPmmEnd / 4096, kPmmFreeHead / 4096, kPmmFree, kPmmUsed),
            list)
    }

    ghost predicate Aligned()
      reads this
    {
      kPmmBase % 4096 == 0 && kPmmCursor % 4096 == 0 && kPmmEnd % 4096 == 0 && kPmmFreeHead % 4096 == 0
    }

    ghost predicate Valid()
      reads this, ram
    {
      Aligned() && PmmOk(View())
    }

    constructor (ram: Ram)
      ensures Valid() && this.ram == ram && View() == Store(ram.mem, PRISTINE, [])
    {
      this.ram := ram;
      kPmmBase, kPmmCursor, kPmmEnd, kPmmFreeHead, kPmmFree, kPmmUsed := 0, 0, 0, 0, 0, 0;
      list := [];
    }

    /// pmmi_init, with a region below 2^52. A region without a whole frame leaves the old free list and
    /// counters behind, so then the allocator stays in balance only if it was pristine.
    method Init(base: U64, sz: U64)
      requires Aligned() && base + sz <= 0x10_0000_0000_0000
      modifies this
      ensures Aligned() && RegionHolds(base, sz, old(View()), View())
      ensures RegionStart(base) < RegionEnd(base, sz) || (old(View().pmm) == PRISTINE && old(list) == []) ==> Valid()
    {
      hide And, Not, PmmOk, RegionStart, RegionEnd, Frames.Init;
      var start := And(base + 0xFFF, Not(0xFFF));
      var end := And(base + sz, Not(0xFFF));
      RegionMasks(base, sz);
      WholeFrames(start, end, RegionStart(base), RegionEnd(base, sz));
      FreshRegion(ram.mem, View().pmm, base, sz);
      if end <= start {
        kPmmCursor, kPmmEnd := 0, 0;
        return;
      }
      kPmmBase := start;
      kPmmCursor := start;
      kPmmEnd := end;
      kPmmFreeHead := 0;
      kPmmFree := (end - start) / 4096;
      kPmmUsed := 0;
      list := [];
    }

    /// pmmi_alloc_frame
    method AllocFrame() returns (frame: U64)
      requires Valid()
      modifies this, ram
      ensures Valid() && frame % 4096 == 0
      ensures View() == Alloc(old(View())).0
      ensures frame / 4096 == Alloc(old(View())).1
    {
      ghost var s := View();
      AllocOk(s);
      AllocCases(s);
      frame := 0;
      if kPmmFreeHead != 0 {
        frame := kPmmFreeHead;
        var link := Rd(ram.mem, frame / 4096, 0);
        kPmmFreeHead := Encode(link);
        list := list[1..];
      } else if kPmmCursor != 0 && kPmmCursor < kPmmEnd {
        frame := kPmmCursor;
        kPmmCursor := kPmmCursor + 0x1000;
      }
      if frame == 0 {
        return;
      }
      ClearFrame(ram, frame / 4096);
      kPmmFree := kPmmFree - 1;
      kPmmUsed := kPmmUsed + 1;
      assert View() == Alloc(s).0;
    }

    /// pmmi_free_frame. It keeps the allocator valid when the frame is handed out, or is none of
    /// the region's; it does not notice a frame that is already free.
    method FreeFrame(frame: U64)
      requires Valid()
      modifies this, ram
      ensures Aligned()
      ensures View() == if frame % 4096 == 0 then Free(old(View()), frame / 4096) else old(View())
      ensures Live(old(View()), frame / 4096) || !InRegion(old(View()).pmm, frame / 4096) || frame % 4096 != 0
              ==> Valid()
    {
      MaskLow(frame);
      hide Free, Wr, LinkWord, And;
      FreeCases(View(), frame, frame / 4096);
      HeadInRegion(View());
      CounterBelow(View());
      hide PmmOk;
      if frame == 0 || And(frame, 0xFFF) != 0 {
        return;
      }
      if frame < kPmmBase || frame >= kPmmCursor {
        return;
      }
      if Live(View(), frame / 4096) {
        FreeOk(View(), frame / 4096);
      }
      PutInFront(frame);
    }

    /// The last lines of pmmi_free_frame.
    method PutInFront(frame: U64)
      requires Aligned() && frame % 4096 == 0 && kPmmFreeHead < 0x10_0000_0000_0000
      modifies this, ram
      ensures Aligned()
      ensures var s, f := old(View()), frame / 4096;
              View() == Store(Wr(s.mem, f, 0, LinkWord(s.pmm.head)),
                              s.pmm.(head := f, free := (s.pmm.free + 1) % TWO_TO_THE_64,
                                     used := if s.pmm.used == 0 then TWO_TO_THE_64 - 1 else s.pmm.used - 1),
                              [f] + s.list)
    {
      hide Wr, LinkWord;
      var w := WordOfAddress(kPmmFreeHead);
      ram.mem := Wr(ram.mem, frame / 4096, 0, w);
      kPmmFreeHead := frame;
      list := [frame / 4096] + list;
      kPmmFree := (kPmmFree + 1) % TWO_TO_THE_64;
      kPmmUsed := if kPmmUsed == 0 then TWO_TO_THE_64 - 1 else kPmmUsed - 1;
    }
  }

  lemma CounterBelow(s: Store)
    requires PmmOk(s)
    ensures (s.pmm.free + 1) % TWO_TO_THE_64 == s.pmm.free + 1
  {
  }

  // The ways a free can go.
  lemma FreeCases(s: Store, frame: U64, f: nat)
    requires f == frame / 4096 && s.pmm.base <= s.pmm.cursor
    ensures frame < 4096 * s.pmm.base || frame >= 4096 * s.pmm.cursor || frame == 0 ==> Free(s, f) == s
    ensures frame % 4096 == 0 && frame > 0 && 4096 * s.pmm.base <= frame < 4096 * s.pmm.cursor ==>
              InRegion(s.pmm, f)
              && Free(s, f) == Store(Wr(s.mem, f, 0, LinkWord(s.pmm.head)), Returned(s.pmm, f), [f] + s.list)
  {
  }

  // The three ways an allocation can go, with the link read as a number.
  lemma AllocCases(s: Store)
    requires PmmOk(s)
    ensures s.pmm.head != 0 ==>
              && s.list != [] && s.pmm.head == s.list[0]
              && Encode(Rd(s.mem, s.pmm.head, 0)) == 4096 * NextFree(s.list, 1)
              && Alloc(s) == (Store(ZeroFrame(s.mem, s.pmm.head),
                                    s.pmm.(head := NextFree(s.list, 1), free := s.pmm.free - 1, used := s.pmm.used + 1),
                                    s.list[1..]), s.pmm.head)
    ensures s.pmm.head == 0 && 0 < s.pmm.cursor < s.pmm.end ==>
              Alloc(s) == (Store(ZeroFrame(s.mem, s.pmm.cursor),
                                 s.pmm.(cursor := s.pmm.cursor + 1, free := s.pmm.free - 1, used := s.pmm.used + 1),
                                 s.list), s.pmm.cursor)
    ensures s.pmm.head == 0 && !(0 < s.pmm.cursor < s.pmm.end) ==> Alloc(s) == (s, 0)
    ensures s.pmm.used < FRAMES && s.pmm.head < FRAMES
  {
    hide Encode, ZeroFrame;
    HeadInRegion(s);
    if s.pmm.head != 0 {
      LinkIsAddress(s);
      assert Link(s.mem, s.list, 0);
      if |s.list| > 1 {
        assert s.list[1] in s.list;
      }
    }
  }

  lemma MaskLow(x: U64)
    ensures And(x, 0xFFF) == x % 4096
  {
    Powers();
    AndLow(x, 12);
  }

  /// The word that holds a page-aligned address below 2^52.
  lemma AddressWord(a: U64)
    requires a % 4096 == 0 && a < 0x10_0000_0000_0000
    ensures Decode(a) == LinkWord(a / 4096)
  {
    hide Encode, Decode, LinkWord;
    LinkAddress(a / 4096);
    DecodeEncode(LinkWord(a / 4096));
  }

  lemma LinkAddress(f: FrameNo)
    ensures Encode(LinkWord(f)) == 4096 * f
  {
    hide Encode;
    Layout(LinkWord(f));
  }

  // The link in the head of the free list, read as a number.
  lemma LinkIsAddress(s: Store)
    requires PmmOk(s)
    ensures s.list != [] ==> Encode(Rd(s.mem, s.list[0], 0)) == 4096 * NextFree(s.list, 1)
  {
    if s.list != [] {
      assert Link(s.mem, s.list, 0);
      if |s.list| > 1 {
        assert s.list[1] in s.list;
      }
      LinkAddress(NextFree(s.list, 1));
    }
  }
}
