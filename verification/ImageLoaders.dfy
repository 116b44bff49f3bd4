/// The loaders as the kernel runs them: pages mapped one by one, undone on failure, filled through
/// their virtual addresses (PEFCodeMgr.cpp, PE32CodeMgr.cpp). Their specification is module Loaders.

module ImageLoaders {
  import opened Bits
  import opened Words
  import opened PhysicalMemory
  import opened Frames
  import opened Translation
  import opened Paging
  import opened PageMapping
  import opened Runs
  import opened Entries
  import opened AddressSpace
  import opened Bytes
  import opened Loading
  import opened Images
  import opened Overlays
  import opened Loaders
  import opened Regions

  /// The address space in CR3 is sound and the TLB agrees with it.
  ghost predicate Running(mmu: Mmu, root: nat)
    reads mmu, mmu.pmm, mmu.pmm.ram
  {
    root == mmu.cr3 / 0x1000 && mmu.Valid(root) && mmu.TlbAgrees(root)
  }

  lemma PageNumber(base: U64, n: nat, i: nat)
    requires i < n && base / 0x1000 + n <= PAGES
    ensures base + 0x1000 * i < TWO_TO_THE_64 && Vpn(base + 0x1000 * i) == PagesFrom(base, n)[i] == base / 0x1000 + i
  {
    PageSum(base, i, base + 0x1000 * i);
  }

  lemma PageSum(base: nat, i: nat, va: nat)
    requires va == base + 0x1000 * i
    ensures va / 0x1000 == base / 0x1000 + i
  {
  }

  lemma LastPage(base: nat, count: nat, n: nat, va: U64)
    requires n < count && base / 0x1000 + count <= PAGES && va == base + 0x1000 * n
    ensures Front(PagesFrom(base, n + 1)) == PagesFrom(base, n) && Last(PagesFrom(base, n + 1)) == Vpn(va)
  {
    PageNumber(base, count, n);
  }

  /// `pmmi_free_frame(mm_unmap_page(...))`, when a frame comes out that can be given back.
  method UnmapAndFree(mmu: Mmu, va: U64, ghost root: nat)
    requires Running(mmu, root)
    requires var (s1, f) := Unmap(mmu.View(), root, Vpn(va));
             && f.Some? && 0 < f.value < FRAMES && Live(s1.store, f.value)
             && Sound(Give(s1, f.value), root)
             && SameLookups(s1.store.mem, Give(s1, f.value).store.mem, root)
    modifies mmu`pos, mmu`tlb, mmu.pmm, mmu.ram
    ensures Running(mmu, root)
    ensures mmu.View() == UnmapFree(old(mmu.View()), root, Vpn(va))
  {
    ghost var f := Unmap(mmu.View(), root, Vpn(va)).1.value;
    var frame := mmu.UnmapPage(va);
    ghost var s1 := mmu.View();
    mmu.pmm.FreeFrame(frame);
    assert mmu.View() == Give(s1, f);
    SameCoheres(mmu.tlb, s1.store.mem, mmu.View().store.mem, root);
  }

  /// One round of ldr_unmap_pages, on page n of a partly loaded image.
  method UnmapAt(mmu: Mmu, base: U64, n: nat, ghost count: nat, ghost root: nat, ghost s0: Space,
                 ghost frames: seq<nat>, ghost window: set<nat>)
    requires Running(mmu, root) && n < count && base / 0x1000 + count <= PAGES
    requires Partly(s0, mmu.View(), root, PagesFrom(base, n + 1), frames, window)
    modifies mmu`pos, mmu`tlb, mmu.pmm, mmu.ram
    ensures Running(mmu, root)
    ensures Partly(s0, mmu.View(), root, PagesFrom(base, n), Front(frames), window)
    ensures UnmapPages(mmu.View(), root, PagesFrom(base, n))
            == UnmapPages(old(mmu.View()), root, PagesFrom(base, n + 1))
  {
    PageNumber(base, count, n);
    var va: U64 := base + 0x1000 * n;
    LastPage(base, count, n, va);
    UnmapRound(s0, mmu.View(), root, PagesFrom(base, n + 1), frames, window, Vpn(va));
    UnmapAndFree(mmu, va, root);
  }

  /// ldr_unmap_pages
  method UnmapImage(mmu: Mmu, base: U64, count: nat, ghost root: nat, ghost s0: Space, ghost frames: seq<nat>,
                    ghost window: set<nat>)
    requires Running(mmu, root) && base / 0x1000 + count <= PAGES
    requires Partly(s0, mmu.View(), root, PagesFrom(base, count), frames, window)
    modifies mmu`pos, mmu`tlb, mmu.pmm, mmu.ram
    ensures Running(mmu, root)
    ensures mmu.View() == UnmapPages(old(mmu.View()), root, PagesFrom(base, count))
  {
    var n: nat := count;
    ghost var left: seq<nat> := frames;
    while n > 0
      invariant n <= count && Running(mmu, root)
      invariant Partly(s0, mmu.View(), root, PagesFrom(base, n), left, window)
      invariant UnmapPages(mmu.View(), root, PagesFrom(base, n))
                == UnmapPages(old(mmu.View()), root, PagesFrom(base, count))
    {
      n := n - 1;
      UnmapAt(mmu, base, n, count, root, s0, left, window);
      left := Front(left);
    }
  }

  // ---- mapping ---------------------------------------------------------------------------

  /// `!frame || mm_map_page(va, frame, ...) != kErrorSuccess`: the frame, 0 when either fails and
  /// the frame has been given back.
  method BackAt(mmu: Mmu, va: U64, ghost root: nat) returns (frame: U64)
    requires Running(mmu, root)
    modifies mmu`pos, mmu`tlb, mmu.pmm, mmu.ram
    ensures Running(mmu, root) && frame % 0x1000 == 0
    ensures mmu.View() == BackPage(old(mmu.View()), root, Vpn(va)).0
    ensures frame / 0x1000 == BackPage(old(mmu.View()), root, Vpn(va)).1
  {
    ghost var s := mmu.View();
    TakeFacts(s, root, mmu.tlb);
    frame := mmu.pmm.AllocFrame();
    if frame == 0 {
      mmu.pmm.FreeFrame(frame);
      return;
    }
    GiveFacts(mmu.View(), root, Vpn(va), frame / 0x1000);
    var err := mmu.MapPageIn(mmu.cr3, va, frame, IMAGE_FLAGS);
    if err != ERROR_SUCCESS {
      ghost var s2 := mmu.View();
      mmu.pmm.FreeFrame(frame);
      assert mmu.View() == Give(s2, frame / 0x1000);
      SameCoheres(mmu.tlb, s2.store.mem, mmu.View().store.mem, root);
      frame := 0;
    }
  }

  lemma NextTodo(base: nat, count: nat, i: nat, va: U64)
    requires i < count && base / 0x1000 + count <= PAGES && va == base + 0x1000 * i
    ensures var all := PagesFrom(base, count);
            all[i..] != [] && all[i..][0] == Vpn(va) && all[i..][1..] == all[i + 1..]
              && PagesFrom(base, i) + [Vpn(va)] == PagesFrom(base, i + 1)
  {
    PageNumber(base, count, i);
  }

  /// One round of the loop, on page i: the frame it is backed with, 0 when that fails.
  method MapAt(mmu: Mmu, base: U64, i: nat, ghost count: nat, ghost root: nat, ghost s0: Space,
               ghost frames: seq<nat>, ghost window: set<nat>)
    returns (frame: U64, ghost window': set<nat>)
    requires Running(mmu, root) && i < count && base / 0x1000 + count <= PAGES
    requires var all := PagesFrom(base, count);
               Midway(s0, mmu.View(), root, all[i..], PagesFrom(base, i), frames, window, all)
    modifies mmu`pos, mmu`tlb, mmu.pmm, mmu.ram
    ensures Running(mmu, root)
    ensures frame != 0 ==>
              var all := PagesFrom(base, count);
              Midway(s0, mmu.View(), root, all[i + 1..], PagesFrom(base, i + 1), frames + [frame / 0x1000], window',
                     all)
    ensures frame == 0 ==>
              && Partly(s0, mmu.View(), root, PagesFrom(base, i), frames, window)
              && MapPages(s0, root, PagesFrom(base, count), [], [])
                == (UnmapPages(mmu.View(), root, PagesFrom(base, i)), Failed(PagesFrom(base, i)))
  {
    PageNumber(base, count, i);
    var va: U64 := base + 0x1000 * i;
    NextTodo(base, count, i, va);
    MapRound(s0, mmu.View(), root, PagesFrom(base, count)[i..], PagesFrom(base, i), frames, window,
             PagesFrom(base, count), Vpn(va));
    frame := BackAt(mmu, va, root);
    window' := window + {Vpn(va)};
  }

  /// The loop both loaders back an image with.
  method MapImage(mmu: Mmu, base: U64, count: nat, ghost root: nat)
    returns (ok: bool, ghost frames: seq<nat>, ghost window: set<nat>)
    requires Running(mmu, root) && base / 0x1000 + count <= PAGES
    modifies mmu`pos, mmu`tlb, mmu.pmm, mmu.ram
    ensures Running(mmu, root)
    ensures mmu.View() == MapPages(old(mmu.View()), root, PagesFrom(base, count), [], []).0
    ensures ok == MapPages(old(mmu.View()), root, PagesFrom(base, count), [], []).1.Loaded?
    ensures ok ==> Partly(old(mmu.View()), mmu.View(), root, PagesFrom(base, count), frames, window)
  {
    ghost var s0, all := mmu.View(), PagesFrom(base, count);
    frames, window := [], {};
    StartMapping(s0, root, base, count);
    var i := 0;
    while i < count
      invariant i <= count && Running(mmu, root)
      invariant Midway(s0, mmu.View(), root, all[i..], PagesFrom(base, i), frames, window, all)
    {
      var frame;
      ghost var window';
      frame, window' := MapAt(mmu, base, i, count, root, s0, frames, window);
      if frame == 0 {
        UnmapImage(mmu, base, i, root, s0, frames, window);
        return false, [], {};
      }
      frames, window := frames + [frame / 0x1000], window';
      i := i + 1;
    }
    ok := true;
  }

  // ---- filling ---------------------------------------------------------------------------

  /// `d[i] = s[i]` through the address space in CR3.
  method StoreAll(mmu: Mmu, dst: U64, data: seq<Byte>)
    requires mmu.ram == mmu.pmm.ram
    modifies mmu.ram
    ensures mmu.ram.mem == CopyIn(old(mmu.ram.mem), mmu.cr3 / 0x1000, dst, data)
  {
    var p: nat := dst;
    assert data[0..] == data;
    for i := 0 to |data|
      invariant CopyIn(mmu.ram.mem, mmu.cr3 / 0x1000, p, data[i..])
                == CopyIn(old(mmu.ram.mem), mmu.cr3 / 0x1000, dst, data)
    {
      assert data[i..][1..] == data[i + 1..];
      mmu.ram.mem := StoreByte(mmu.ram.mem, mmu.cr3 / 0x1000, p, data[i]);
      p := Next(p);
    }
  }

  /// The conversion of a length to a 32-bit integer.
  function ToInt32(n: nat): int {
    var x := n % 0x1_0000_0000;
    if x >= 0x8000_0000 then x - 0x1_0000_0000 else x
  }

  /// It is the number in that range that has the same remainder.
  lemma Int32Law(n: nat)
    ensures -0x8000_0000 <= ToInt32(n) < 0x8000_0000 && (ToInt32(n) - n) % 0x1_0000_0000 == 0
  {
  }

  /// rt_copy_memory_safe: the number of bytes copied, as a 32-bit integer, or -1.
  method CopyMemorySafe(mmu: Mmu, src: seq<Byte>, dst: U64, dstSize: nat) returns (r: int)
    requires mmu.ram == mmu.pmm.ram
    modifies mmu.ram
    ensures mmu.ram.mem == CopySafe(old(mmu.ram.mem), mmu.cr3 / 0x1000, dst, src, dstSize)
    ensures r == if dst == 0 || |src| > dstSize then -1 else ToInt32(|src|)
  {
    if dst == 0 || |src| > dstSize {
      if dst != 0 && dstSize != 0 {
        StoreAll(mmu, dst, Zeros(dstSize));
        assert Zeros(dstSize) == SafeBytes(src, dstSize);
      }
      return -1;
    }
    StoreAll(mmu, dst, src);
    return ToInt32(|src|);
  }

  // Filling an image keeps the address space sound and the TLB in agreement.
  lemma CopyFacts(s0: Space, s: Space, root: nat, base: nat, pages: seq<nat>, frames: seq<nat>, window: set<nat>,
                  va: nat, x: nat, src: seq<Byte>, dstSize: nat, tlb: set<Cached>)
    requires Partly(s0, s, root, pages, frames, window) && pages == PagesFrom(base, |frames|)
             && Coherent(tlb, s.store.mem, root)
    requires IsByte(base, va, x) && x + dstSize <= 4096 * |frames|
    ensures var m' := CopySafe(s.store.mem, root, va, src, dstSize);
            && Partly(s0, WithMem(s, m'), root, pages, frames, window)
            && Coherent(tlb, m', root)
  {
    var data := SafeBytes(src, dstSize);
    CopyKeeps(s0, s, root, base, pages, frames, window, va, x, data);
    CopyCoheres(s0, s, root, pages, frames, window, CopyIn(s.store.mem, root, va, data), x, data, tlb);
  }

  lemma CopyCoheres(s0: Space, s: Space, root: nat, pages: seq<nat>, frames: seq<nat>, window: set<nat>,
                    m': Memory, x: nat, data: seq<Byte>, tlb: set<Cached>)
    requires Partly(s0, s, root, pages, frames, window) && Coherent(tlb, s.store.mem, root)
    requires x + |data| <= 4096 * |frames| && Copied(s.store.mem, m', frames, x, data)
    ensures Coherent(tlb, m', root)
  {
    assert SameTables(s.store.mem, m', s.pos);
    OutsideTables(s.store.mem, m', root, s.pos);
    SameCoheres(tlb, s.store.mem, m', root);
  }

  /// rt_copy_memory_safe into an image that is mapped: byte x on, counted from its first page.
  method FillImage(mmu: Mmu, src: seq<Byte>, dst: U64, dstSize: nat, ghost root: nat, ghost s0: Space, ghost base: nat,
                   ghost pages: seq<nat>, ghost frames: seq<nat>, ghost window: set<nat>, ghost x: nat)
    requires Running(mmu, root) && Partly(s0, mmu.View(), root, pages, frames, window)
             && pages == PagesFrom(base, |frames|)
    requires IsByte(base, dst, x) && x + dstSize <= 4096 * |frames|
    modifies mmu.ram
    ensures Running(mmu, root) && Partly(s0, mmu.View(), root, pages, frames, window)
    ensures mmu.View() == WithMem(old(mmu.View()), CopySafe(old(mmu.ram.mem), root, dst, src, dstSize))
  {
    CopyFacts(s0, mmu.View(), root, base, pages, frames, window, dst, x, src, dstSize, mmu.tlb);
    ghost var s1 := WithMem(mmu.View(), CopySafe(mmu.ram.mem, root, dst, src, dstSize));
    var _ := CopyMemorySafe(mmu, src, dst, dstSize);
    assert mmu.View() == s1;
  }

  /// What pef_load_section does with a source that is there.
  method PlaceSection(mmu: Mmu, base: U64, pages: nat, size: nat, src: seq<Byte>, ghost root: nat) returns (ok: bool)
    requires Running(mmu, root) && base / 0x1000 + pages <= PAGES && base % 0x1000 + size <= 0x1000 * pages
    modifies mmu`pos, mmu`tlb, mmu.pmm, mmu.ram
    ensures Running(mmu, root)
    ensures ok == MapPages(old(mmu.View()), root, PagesFrom(base, pages), [], []).1.Loaded?
    ensures var s1 := MapPages(old(mmu.View()), root, PagesFrom(base, pages), [], []).0;
            mmu.View() == if ok && src != [] then WithMem(s1, CopySafe(s1.store.mem, root, base, src, size)) else s1
  {
    ghost var s0 := mmu.View();
    ghost var frames, window;
    ok, frames, window := MapImage(mmu, base, pages, root);
    if ok && src != [] {
      FillImage(mmu, src, base, size, root, s0, base, PagesFrom(base, pages), frames, window, base % 0x1000);
    }
  }

  /// pef_load_section, for a section of virtual size `size` at `base`; None is a null source.
  method LoadPefSection(mmu: Mmu, base: U64, size: nat, src: Option<seq<Byte>>, ghost root: nat) returns (r: LoadResult)
    requires Running(mmu, root) && base / 0x1000 + PageCount(size) <= PAGES
    requires base % 0x1000 + size <= 0x1000 * PageCount(size)
    requires Misses(mmu.View().store.pmm, PagesFrom(base, PageCount(size)))
    modifies mmu`pos, mmu`tlb, mmu.pmm, mmu.ram
    ensures Running(mmu, root)
    ensures (mmu.View(), r)
            == if src.None? then (old(mmu.View()), InvalidData)
              else LoadSection(old(mmu.View()), root, base, size, src.value)
  {
    if src.None? {
      return InvalidData;
    }
    var pages := PageCount(size);
    var ok := PlaceSection(mmu, base, pages, size, src.value, root);
    r := if ok then Image(base) else OutOfMemory;
  }
}
