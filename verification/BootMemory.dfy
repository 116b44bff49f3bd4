/// How the kernel takes over memory at boot (hal_init_platform in HALKit/AMD64/HalKernelMain.cpp):
/// the memory region is kept clear of the image window, halved, and mapped to itself.

module BootMemory {
  import opened Bits
  import opened Words
  import opened PhysicalMemory
  import opened Frames
  import opened FrameAllocator
  import opened Paging
  import opened PageMapping
  import opened BootTables
  import opened AddressSpace
  import opened ImageLoaders
  import opened Regions

  const MIN_MAP_LIMIT: nat := 0x1_0000_0000

  /// [a, b) and the image window have no address in common.
  predicate ClearOfWindow(a: nat, b: nat) {
    b <= a || b <= WINDOW_START || WINDOW_END <= a
  }

  /// The part of the region that is kept: all of it when it is clear of the window, else the longer of
  /// the parts below and above it, the lower one when they are equal.
  function Kept(start: nat, size: nat): (nat, nat) {
    if ClearOfWindow(start, start + size) then (start, size)
    else
      var below := if start < WINDOW_START then WINDOW_START - start else 0;
      var above := if start + size > WINDOW_END then start + size - WINDOW_END else 0;
      if below >= above then (start, below) else (WINDOW_END, above)
  }

  /// The part of the memory region that is kept: inside the region, clear of the window, and no
  /// other such range is longer.
  method TrimRegion(start: U64, size: U64) returns (base: U64, sz: U64)
    requires start + size < TWO_TO_THE_64
    ensures start <= base && base + sz <= start + size
    ensures ClearOfWindow(base, base + sz)
    ensures forall a: nat, b: nat :: start <= a <= b <= start + size && ClearOfWindow(a, b) ==> b - a <= sz
    ensures forall a: nat, b: nat ::
              start <= a <= b <= start + size && ClearOfWindow(a, b) && b - a == sz ==> base <= a
    ensures (base, sz) == Kept(start, size)
  {
    base, sz := start, size;
    if base < WINDOW_END && base + sz > WINDOW_START {
      var below: U64 := if base < WINDOW_START then WINDOW_START - base else 0;
      var above: U64 := if base + sz > WINDOW_END then base + sz - WINDOW_END else 0;
      if below >= above {
        sz := below;
      } else {
        base, sz := WINDOW_END, above;
      }
    }
  }

  // Rounding up to whole GiB.
  lemma RoundUp(r: nat, x: nat)
    requires x == r + 0x3FFF_FFFF
    ensures r <= x - x % 0x4000_0000 && (x - x % 0x4000_0000) % 0x4000_0000 == 0
    ensures r <= 0x1_0000_0000_0000 ==> x - x % 0x4000_0000 <= 0x1_0000_0000_0000
    ensures forall l: nat :: r <= l && l % 0x4000_0000 == 0 ==> x - x % 0x4000_0000 <= l
  {
    var k := x / 0x4000_0000;
    ModUnique(x - x % 0x4000_0000, 0x4000_0000, k, 0);
    forall l: nat | r <= l && l % 0x4000_0000 == 0
      ensures 0x4000_0000 * k <= l
    {
      var j := l / 0x4000_0000;
      assert l == 0x4000_0000 * j;
    }
  }

  /// How far the identity map reaches: over all of memory, 4 GiB at least, in whole GiB, and no
  /// further than that takes.
  method MapLimit(ramEnd: U64) returns (limit: U64)
    requires ramEnd + 0x3FFF_FFFF < TWO_TO_THE_64
    ensures ramEnd <= limit && 0x1_0000_0000 <= limit && limit % 0x4000_0000 == 0
    ensures ramEnd <= 0x1_0000_0000_0000 ==> limit <= 0x1_0000_0000_0000
    ensures forall l: nat :: ramEnd <= l && 0x1_0000_0000 <= l && l % 0x4000_0000 == 0 ==> limit <= l
  {
    hide And, Not;
    if ramEnd > MIN_MAP_LIMIT {
      RoundUp(ramEnd, ramEnd + 0x3FFF_FFFF);
      MaskLarge(ramEnd + 0x3FFF_FFFF, 0);
      limit := And(ramEnd + 0x3FFF_FFFF, Not(0x3FFF_FFFF));
    } else {
      limit := MIN_MAP_LIMIT;
    }
  }

  // ---- frames under their own address ----------------------------------------------------

  lemma RegionOfInit(base: nat, sz: nat, limit: nat)
    requires ClearOfWindow(base, base + sz) && base + sz <= 4096 * limit
    ensures RegionHome(Init(PRISTINE, base, sz), limit)
  {
  }

  /// The second half of the kept region goes to the frame allocator, the first to the heap.
  method StartAllocator(pmm: Allocator, base: U64, sz: U64, ghost limit: nat) returns (heap: U64)
    requires pmm.Valid() && pmm.View().pmm == PRISTINE && pmm.list == []
    requires base + sz <= 4096 * limit <= 0x1_0000_0000_0000 && ClearOfWindow(base, base + sz)
    modifies pmm
    ensures pmm.Valid() && heap == sz / 2
    ensures pmm.View() == Store(pmm.ram.mem, Init(PRISTINE, base + heap, sz - heap), [])
    ensures RegionHome(pmm.View().pmm, limit)
    ensures pmm.View().pmm.base < pmm.View().pmm.end ==>
              base + heap <= 4096 * pmm.View().pmm.base && 4096 * pmm.View().pmm.end <= base + sz
  {
    heap := sz / 2;
    RegionOfInit(base + heap, sz - heap, limit);
    pmm.Init(base + heap, sz - heap);
  }

  lemma HomeFromIdentity(m: Memory, root: nat, limit: nat)
    requires IdentityBelow(m, root, GiBs(limit))
    ensures Home(m, root, limit / 4096)
  {
    assert limit / 4096 <= GiBs(limit) * 0x4_0000;
  }

  // The root is one of the allocator's frames.
  lemma RegionNotEmpty(s: Space, root: nat)
    requires Sound(s, root)
    ensures s.store.pmm.base < s.store.pmm.end
  {
    assert root in s.pos && Live(s.store, root);
  }

  /// The kernel's own tables, with an empty TLB: a write to CR3 drops every cached translation.
  method AdoptTables(mmu: Mmu, limit: U64) returns (ok: bool)
    requires mmu.ram == mmu.pmm.ram && mmu.pmm.Valid() && limit <= 0x1_0000_0000_0000
    modifies mmu, mmu.pmm, mmu.ram
    ensures mmu.pmm.View().pmm.base == old(mmu.pmm.View()).pmm.base
            && mmu.pmm.View().pmm.end == old(mmu.pmm.View()).pmm.end
    ensures ok <==> InitTables(old(mmu.pmm.View()), GiBs(limit)).1 != 0
    ensures ok ==>
              && Running(mmu, mmu.cr3 / 0x1000) && Home(mmu.ram.mem, mmu.cr3 / 0x1000, limit / 4096)
              && mmu.pmm.View().pmm.base < mmu.pmm.View().pmm.end
  {
    var root := mmu.InitKernelTables(limit);
    if root == 0 {
      return false;
    }
    HomeFromIdentity(mmu.ram.mem, root / 0x1000, limit);
    RegionNotEmpty(mmu.View(), root / 0x1000);
    mmu.cr3 := root;
    mmu.tlb := {};
    return true;
  }

  /// The GiB the identity map covers.
  function MappedGiBs(ramEnd: nat): nat { if ramEnd <= MIN_MAP_LIMIT then 4 else GiBs(ramEnd) }

  /// The upper half of the kept region has a frame for the root, one for every GiB and one for every
  /// 512 GiB.
  predicate EnoughMemory(start: nat, size: nat) {
    var (base, sz) := Kept(start, size);
    var n := MappedGiBs(start + size);
    RegionEnd(base + sz / 2, sz - sz / 2) >= RegionStart(base + sz / 2) + 1 + n + (n + 511) / 512
  }

  lemma LimitGiBs(ramEnd: nat, limit: nat)
    requires ramEnd <= limit && MIN_MAP_LIMIT <= limit && limit % 0x4000_0000 == 0
    requires forall l: nat :: ramEnd <= l && MIN_MAP_LIMIT <= l && l % 0x4000_0000 == 0 ==> limit <= l
    ensures GiBs(limit) == MappedGiBs(ramEnd) && GiBs(limit) >= 1
    ensures limit <= 0x1_0000_0000_0000 ==> GiBs(limit) <= 0x4_0000
  {
    var k := limit / 0x4000_0000;
    assert limit == 0x4000_0000 * k;
    if ramEnd <= MIN_MAP_LIMIT {
      assert MIN_MAP_LIMIT % 0x4000_0000 == 0;
    } else {
      var l := 0x4000_0000 * GiBs(ramEnd);
      ModUnique(l, 0x4000_0000, GiBs(ramEnd), 0);
      assert limit <= l;
    }
  }

  /// The tables can be built on a fresh allocator exactly when its region is large enough. Its frames
  /// never start at address 0, since half of the kept region lies below them.
  lemma FreshSucceeds(m: Memory, base: nat, sz: nat, n: nat)
    requires base + sz <= 0x1_0000_0000_0000 && 1 <= n <= 0x4_0000
    ensures var st := Store(m, Init(PRISTINE, base + sz / 2, sz - sz / 2), []);
            PmmOk(st)
            && (InitTables(st, n).1 != 0
                <==> RegionEnd(base + sz / 2, sz - sz / 2) >= RegionStart(base + sz / 2) + 1 + n + (n + 511) / 512)
  {
    hide InitTables;
    InitOk(m, base + sz / 2, sz - sz / 2);
    InitTablesSucceeds(Store(m, Init(PRISTINE, base + sz / 2, sz - sz / 2), []), n);
  }

  lemma FreshEnough(m: Memory, start: nat, size: nat, base: nat, sz: nat, limit: nat)
    requires (base, sz) == Kept(start, size) && base + sz <= start + size <= limit <= 0x1_0000_0000_0000
    requires GiBs(limit) == MappedGiBs(start + size) && 1 <= GiBs(limit) <= 0x4_0000
    ensures InitTables(Store(m, Init(PRISTINE, base + sz / 2, sz - sz / 2), []), GiBs(limit)).1 != 0
            <==> EnoughMemory(start, size)
  {
    hide RegionStart, RegionEnd, Frames.Init, InitTables, Kept, GiBs, MappedGiBs;
    FreshSucceeds(m, base, sz, GiBs(limit));
  }

  lemma WholePages(limit: nat)
    requires limit % 0x4000_0000 == 0
    ensures 4096 * (limit / 4096) == limit
  {
    assert limit == 0x4000_0000 * (limit / 0x4000_0000);
  }

  /// The heap and the frame allocator, before there are any tables.
  method DivideMemory(pmm: Allocator, start: U64, size: U64) returns (heapBase: U64, heapSize: U64, limit: U64)
    requires pmm.Valid() && pmm.View().pmm == PRISTINE && pmm.list == []
    requires start + size <= 0x1_0000_0000_0000
    modifies pmm
    ensures pmm.Valid() && start + size <= limit <= 0x1_0000_0000_0000 && RegionHome(pmm.View().pmm, limit / 4096)
    ensures start <= heapBase && ClearOfWindow(heapBase, heapBase + heapSize)
    ensures InitTables(pmm.View(), GiBs(limit)).1 != 0 <==> EnoughMemory(start, size)
    ensures pmm.View().pmm.base < pmm.View().pmm.end ==>
              heapBase + heapSize <= 4096 * pmm.View().pmm.base && 4096 * pmm.View().pmm.end <= start + size
  {
    hide Frames.Init, InitTables, Kept, PmmOk, EnoughMemory, GiBs, MappedGiBs, RegionHome, ClearOfWindow;
    var base, sz := TrimRegion(start, size);
    limit := MapLimit(start + size);
    heapBase := base;
    WholePages(limit);
    LowerHalf(base, sz);
    heapSize := StartAllocator(pmm, base, sz, limit / 4096);
    LimitGiBs(start + size, limit);
    FreshEnough(pmm.ram.mem, start, size, base, sz, limit);
  }

  lemma LowerHalf(base: nat, sz: nat)
    requires ClearOfWindow(base, base + sz)
    ensures ClearOfWindow(base, base + sz / 2)
  {
  }

  /// From the memory map the firmware hands over to the kernel's own page tables in CR3. The kernel
  /// gets past this exactly when the memory is enough. Then the tables are sound, heap and frames lie
  /// apart in the memory region and clear of the image window, and memory outside the window, all the
  /// frames included, is mapped to itself.
  method TakeOverMemory(mmu: Mmu, start: U64, size: U64)
    returns (ok: bool, heapBase: U64, heapSize: U64, limit: U64)
    requires mmu.ram == mmu.pmm.ram && mmu.pmm.Valid() && mmu.pmm.View().pmm == PRISTINE && mmu.pmm.list == []
    requires start + size <= 0x1_0000_0000_0000
    modifies mmu, mmu.pmm, mmu.ram
    ensures start + size <= limit && start <= heapBase && ClearOfWindow(heapBase, heapBase + heapSize)
    ensures ok <==> EnoughMemory(start, size)
    ensures ok ==>
              && Running(mmu, mmu.cr3 / 0x1000) && Home(mmu.ram.mem, mmu.cr3 / 0x1000, limit / 4096)
              && FramesHome(mmu.View(), mmu.cr3 / 0x1000) && ClearFrames(mmu.pmm.View().pmm)
              && heapBase + heapSize <= 4096 * mmu.pmm.View().pmm.base
              && 4096 * mmu.pmm.View().pmm.end <= start + size
  {
    hide Home, FramesHome, ClearFrames, InitTables, EnoughMemory, PmmOk, ClearOfWindow;
    heapBase, heapSize, limit := DivideMemory(mmu.pmm, start, size);
    ok := AdoptTables(mmu, limit);
    if ok {
      HomeCoversFrames(mmu.View(), mmu.cr3 / 0x1000, limit / 4096);
    }
  }
}
