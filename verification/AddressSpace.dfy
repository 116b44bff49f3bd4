/// The paging manager as the kernel runs it: table entries written in place
/// (HALKit/AMD64/HalPagingMgr.cpp). Its specification is modules Paging, PageMapping and BootTables.

module AddressSpace {
  import opened Bits
  import opened Words
  import opened PhysicalMemory
  import opened Frames
  import opened FrameAllocator
  import opened Translation
  import opened Paging
  import opened PageMapping
  import opened BootTables
  import opened Runs
  import opened Entries

  const ERROR_SUCCESS: int := 0
  const ERROR_INVALID_DATA: int := 56

  /// The loop that fills the table replacing a large leaf.
  method FillSplitTable(ram: Ram, f: nat, e: Word, level: nat)
    requires level == 2 || level == 3
    modifies ram
    ensures ram.mem == FillSplit(old(ram.mem), f, e, level)
  {
    ghost var m, ws := ram.mem, SplitWords(e, level);
    assert FillWords(m, f, ws[..0]) == m;
    hide FillWords, Wr, SplitWord;
    for i := 0 to 512
      invariant ram.mem == FillWords(m, f, ws[..i])
    {
      FillWordsStep(m, f, ws, i);
      assert ws[i] == SplitWord(e, level, i);
      var w := SplitEntry(e, level, i);
      ram.mem := Wr(ram.mem, f, i, w);
    }
    assert ws[..512] == ws;
  }

  /// The loop that fills a page directory of the identity map.
  method FillDirectory(ram: Ram, pd: nat, base: U64, ghost k: nat)
    requires base == k * 0x4000_0000 && k < 0x4_0000
    modifies ram
    ensures ram.mem == FillIdentity(old(ram.mem), pd, k)
  {
    ghost var m, ws := ram.mem, IdentityWords(k);
    assert FillWords(m, pd, ws[..0]) == m;
    for i := 0 to 512
      invariant ram.mem == FillWords(m, pd, ws[..i])
    {
      FillWordsStep(m, pd, ws, i);
      var w := IdentityEntry(base, k, i);
      ram.mem := Wr(ram.mem, pd, i, w);
    }
    assert ws[..512] == ws;
  }

  class Mmu {
    const pmm: Allocator
    const ram: Ram
    var cr3: U64

    ghost var pos: Shape
    ghost var tlb: set<Cached>

    ghost function View(): Space
      reads this, pmm, pmm.ram
    {
      Space(pmm.View(), pos)
    }

    /// The objects belong together and the tables below root are sound.
    ghost predicate Valid(root: nat)
      reads this, pmm, pmm.ram
    {
      ram == pmm.ram && pmm.Valid() && root < FRAMES && Sound(View(), root)
    }

    ghost predicate TlbAgrees(root: nat)
      reads this, pmm, pmm.ram
    {
      Coherent(tlb, View().store.mem, root)
    }

    constructor (pmm: Allocator)
      ensures this.pmm == pmm && ram == pmm.ram && cr3 == 0 && pos == map[] && tlb == {}
    {
      this.pmm := pmm;
      this.ram := pmm.ram;
      cr3 := 0;
      pos := map[];
      tlb := {};
    }

    /// One entry of the tables under construction: `table[idx] = frame | kTablePerm`.
    method HangTable(table: U64, idx: nat, frame: U64, level: nat, ghost v: nat)
      requires ram == pmm.ram && pmm.Valid() && 2 <= level <= 4 && idx == Index(v, level)
      requires frame % 0x1000 == 0 && frame < 0x10_0000_0000_0000
      modifies this`pos, ram
      ensures pmm.Aligned()
      ensures var st := old(View()).store;
              View() == Hang(old(View()), st, st.mem, frame / 0x1000, table / 0x1000, level, v)
    {
      var link := PointTo(frame, false);
      ram.mem := Wr(ram.mem, table / 0x1000, idx, link);
      pos := pos[frame / 0x1000 := Pos(level - 1, Prefix(v, level - 1), table / 0x1000)];
    }

    /// The page directory pointer table for the k-th GiB, 0 when there is no frame for it.
    method PdptFor(root: U64, base: U64, ghost k: nat) returns (pdpt: U64)
      requires ram == pmm.ram && pmm.Valid() && SpaceOk(View(), root / 0x1000)
      requires base == k * 0x4000_0000 && k < 0x4_0000
      modifies this`pos, pmm, ram
      ensures pmm.Aligned() && pdpt % 0x1000 == 0
      ensures View() == Pdpt(old(View()), root / 0x1000, FirstPage(k)).0
      ensures pdpt / 0x1000 == Pdpt(old(View()), root / 0x1000, FirstPage(k)).1
    {
      ghost var s, r := View(), root / 0x1000;
      GiBIndices(base, k);
      RootLevel(s, r);
      AllocOk(s.store);
      var idx := And(Shr(base, 39), 0x1FF);
      var entry := Rd(ram.mem, root / 0x1000, idx);
      EntryFacts(ram.mem, r, pos, r, idx);
      var present := IsPresent(entry);
      if present {
        pdpt := NextTable(entry);
      } else {
        pdpt := pmm.AllocFrame();
        assert pdpt % 0x1000 == 0;
        if pdpt != 0 {
          HangTable(root, idx, pdpt, 4, FirstPage(k));
        }
      }
    }

    /// One round of the loop of mm_init_kernel_tables.
    method MapGiBAt(root: U64, base: U64, ghost k: nat) returns (ok: bool)
      requires ram == pmm.ram && pmm.Valid() && Booting(View(), root / 0x1000, k)
      requires base == k * 0x4000_0000 && k < 0x4_0000
      modifies this`pos, pmm, ram
      ensures pmm.Aligned()
      ensures View() == MapGiB(old(View()), root / 0x1000, k).0
      ensures ok == MapGiB(old(View()), root / 0x1000, k).1
    {
      ghost var s, r := View(), root / 0x1000;
      PdptValid(s, r, k);
      var pdpt := PdptFor(root, base, k);
      if pdpt == 0 {
        return false;
      }
      ghost var s1 := View();
      AllocOk(s1.store);
      var pd := pmm.AllocFrame();
      if pd == 0 {
        return false;
      }
      GiBIndices(base, k);
      FillDirectory(ram, pd / 0x1000, base, k);
      DirectoryFilled(s1, View().store, pd / 0x1000, k);
      HangTable(pdpt, And(Shr(base, 30), 0x1FF), pd, 3, FirstPage(k));
      return true;
    }

    /// The loop of mm_init_kernel_tables.
    method MapBelow(root: U64, limit: U64) returns (ok: bool)
      requires ram == pmm.ram && pmm.Valid() && limit <= 0x1_0000_0000_0000 && Booting(View(), root / 0x1000, 0)
      modifies this`pos, pmm, ram
      ensures pmm.Valid()
      ensures View() == MapFrom(old(View()), root / 0x1000, 0, GiBs(limit)).0
      ensures ok == MapFrom(old(View()), root / 0x1000, 0, GiBs(limit)).1
    {
      hide MapFrom, PmmOk, Booting, MapGiB;
      ghost var s, r, n := View(), root / 0x1000, GiBs(limit);
      var base: nat := 0;
      ghost var k := 0;
      while base < limit
        invariant k <= n && base == k * 0x4000_0000 && pmm.Valid() && Booting(View(), r, k)
        invariant MapFrom(View(), r, k, n).0 == MapFrom(s, r, 0, n).0
        invariant MapFrom(View(), r, k, n).1 == MapFrom(s, r, 0, n).1
      {
        MapFromStep(View(), r, k, n);
        ok := MapGiBAt(root, base, k);
        if !ok {
          return;
        }
        base, k := base + 0x4000_0000, k + 1;
      }
      MapFromEnd(View(), r, n);
      ok := true;
    }

    /// mm_init_kernel_tables: the new PML4's address, 0 on failure.
    method InitKernelTables(limit: U64) returns (root: U64)
      requires ram == pmm.ram && pmm.Valid() && limit <= 0x1_0000_0000_0000
      modifies this`pos, pmm, ram
      ensures pmm.Valid() && root % 0x1000 == 0
      ensures View() == InitTables(old(pmm.View()), GiBs(limit)).0
      ensures root / 0x1000 == InitTables(old(pmm.View()), GiBs(limit)).1
      ensures pmm.View().pmm.base == old(pmm.View()).pmm.base && pmm.View().pmm.end == old(pmm.View()).pmm.end
      ensures root != 0 ==> Valid(root / 0x1000) && IdentityBelow(ram.mem, root / 0x1000, GiBs(limit))
    {
      hide InitTables, MapFrom, PmmOk, Booting, IdentityBelow;
      ghost var st := pmm.View();
      InitFacts(st, GiBs(limit));
      pos := map[];
      root := pmm.AllocFrame();
      if root != 0 {
        pos := map[root / 0x1000 := Pos(4, 0, 0)];
        assert View() == FirstTable(st);
        var ok := MapBelow(root, limit);
        root := if ok then root else 0;
      }
    }

    /// The branches of mm_walk_page that need a frame: an absent entry, or a large leaf to split.
    method BuildTable(table: U64, idx: nat, entry: Word, level: nat, ghost v: nat) returns (next: U64)
      requires ram == pmm.ram && pmm.Valid() && 2 <= level <= 4
      requires table % 0x1000 == 0 && idx == Index(v, level) && entry == Rd(ram.mem, table / 0x1000, idx)
      requires entry.present ==> level <= 3
      modifies this`pos, pmm, ram
      ensures pmm.Aligned() && next % 0x1000 == 0 && next < 0x10_0000_0000_0000
      ensures var s := old(View());
              var (st, f) := Alloc(s.store);
              && next / 0x1000 == f && f < FRAMES
              && View() == if f == 0 then Space(st, s.pos) else LinkTable(s, st, f, table / 0x1000, level, v)
    {
      ghost var s := View();
      AllocOk(s.store);
      next := pmm.AllocFrame();
      if next == 0 {
        return;
      }
      if entry.present {
        FillSplitTable(ram, next / 0x1000, entry, level);
      }
      var link := PointTo(next, true);
      ram.mem := Wr(ram.mem, table / 0x1000, idx, link);
      pos := pos[next / 0x1000 := Pos(level - 1, Prefix(v, level - 1), table / 0x1000)];
    }

    /// One round of the loop of mm_walk_page at the given level.
    method DescendEntry(table: U64, level: nat, va: U64, alloc: bool, ghost root: nat) returns (next: U64)
      requires ram == pmm.ram && pmm.Valid() && Tree(ram.mem, root, pos) && 2 <= level <= 4
      requires table % 0x1000 == 0 && OnWalk(pos, table / 0x1000, level, Vpn(va))
      modifies this`pos, pmm, ram
      ensures pmm.Aligned() && next % 0x1000 == 0 && next < 0x10_0000_0000_0000
      ensures View() == Descend(old(View()), table / 0x1000, level, Vpn(va), alloc).0
      ensures (if next == 0 then None else Some(next / 0x1000))
              == Descend(old(View()), table / 0x1000, level, Vpn(va), alloc).1
    {
      IndexBits(va, level);
      var idx := And(Shr(va, 3 + 9 * level), 0x1FF);
      var entry := Rd(ram.mem, table / 0x1000, idx);
      EntryFacts(ram.mem, root, pos, table / 0x1000, idx);
      var present := IsPresent(entry);
      var large := IsLarge(entry);
      if present && !large {
        next := NextTable(entry);
        entry := Permit(entry);
        ram.mem := Wr(ram.mem, table / 0x1000, idx, entry);
      } else if !alloc {
        next := 0;
      } else {
        next := BuildTable(table, idx, entry, level, Vpn(va));
      }
    }

    /// mm_walk_page: the address of the last-level entry, 0 for a null pointer.
    method WalkPage(root: U64, va: U64, alloc: bool) returns (slot: U64)
      requires ram == pmm.ram && pmm.Valid() && SpaceOk(View(), root / 0x1000)
      modifies this`pos, pmm, ram
      ensures pmm.Aligned()
      ensures var (s', x) := Walk(old(View()), root / 0x1000, 4, Vpn(va), alloc);
              View() == s' && slot == SlotAddress(x, Vpn(va))
    {
      hide And, Not;
      ghost var s0, r, v := View(), root / 0x1000, Vpn(va);
      slot := 0;
      if root == 0 {
        RootPositive(s0, r);
        return;
      }
      MaskPage(root);
      var table: U64 := And(root, Not(0xFFF));
      RootOnWalk(s0, r, v);
      var level: nat := 4;  // the shift is 3 + 9 * level
      while level > 1
        invariant 1 <= level <= 4 && table % 0x1000 == 0 && pmm.Valid() && SpaceOk(View(), r)
        invariant OnWalk(pos, table / 0x1000, level, v) && table < 0x10_0000_0000_0000
        invariant Walk(s0, r, 4, v, alloc) == Walk(View(), table / 0x1000, level, v, alloc)
      {
        ghost var t := table / 0x1000;
        DescendFacts(View(), t, level, v, alloc, r);
        table := DescendEntry(table, level, va, alloc, r);
        if table == 0 {
          return;
        }
        level := level - 1;
      }
      IndexBits(va, 1);
      slot := table + 8 * And(Shr(va, 12), 0x1FF);
    }

    /// mm_map_page_in, in terms of MapIn; in numbers, kErrorSuccess is 0 and kErrorInvalidData is 56.
    method MapPageIn(root: U64, va: U64, physical: U64, flags: nat) returns (err: int)
      requires Valid(root / 0x1000) && physical < 0x10_0000_0000_0000
      requires TlbAgrees(root / 0x1000)
      modifies this`pos, this`tlb, pmm, ram
      ensures Valid(root / 0x1000) && TlbAgrees(root / 0x1000)
      ensures physical == 0 || physical % 0x1000 != 0 ==> View() == old(View()) && tlb == old(tlb) && err == 56
      ensures err == 0 || err == 56
      ensures err == 0 ==>
                && physical != 0
                && var o := Lookup(ram.mem, root / 0x1000, Vpn(va));
                   (o.Some? <==> flags / 2 % 2 == 1) && (o.Some? ==> 0x1000 * o.value.frame == physical)
      ensures physical % 0x1000 == 0 ==>
                var (s', ok) := MapIn(old(View()), root / 0x1000, Vpn(va), physical / 0x1000, flags);
                View() == s' && err == if ok then ERROR_SUCCESS else ERROR_INVALID_DATA
    {
      if physical == 0 {
        return ERROR_INVALID_DATA;
      }
      MaskLow(physical);
      if And(physical, 0xFFF) != 0 {
        return ERROR_INVALID_DATA;
      }
      ghost var s := View();
      ghost var rt, v, phys := root / 0x1000, Vpn(va), physical / 0x1000;
      ghost var s' := MapIn(s, rt, v, phys, flags).0;
      MapFacts(s, rt, v, phys, flags, tlb);
      var slot := WalkPage(root, va, true);
      MapResult(s, View(), rt, v, phys, flags, slot);
      if slot == 0 {
        assert View() == s';
        return ERROR_INVALID_DATA;
      }
      var w := PteOf(physical / 0x1000, flags);
      ram.mem := Wr(ram.mem, slot / 0x1000, slot % 0x1000 / 8, w);
      tlb := Invalidate(tlb, Vpn(va));
      assert View() == s';
      return ERROR_SUCCESS;
    }

    /// mm_unmap_page: the frame's address, 0 when there was none.
    method UnmapPage(va: U64) returns (frame: U64)
      requires Valid(cr3 / 0x1000) && TlbAgrees(cr3 / 0x1000)
      modifies this`pos, this`tlb, pmm, ram
      ensures Valid(cr3 / 0x1000) && TlbAgrees(cr3 / 0x1000)
      ensures var (s', f) := Unmap(old(View()), cr3 / 0x1000, Vpn(va));
              View() == s' && frame == if f.Some? then 0x1000 * f.value else 0
    {
      ghost var s := View();
      ghost var rt, v := cr3 / 0x1000, Vpn(va);
      ghost var s' := Unmap(s, rt, v).0;
      UnmapFacts(s, rt, v, tlb);
      var slot := WalkPage(cr3, va, false);
      UnmapResult(s, View(), rt, v, slot);
      if slot == 0 {
        assert View() == s';
        return 0;
      }
      var entry := Rd(ram.mem, slot / 0x1000, slot % 0x1000 / 8);
      var present := IsPresent(entry);
      if !present {
        assert View() == s';
        return 0;
      }
      frame := FrameOf(entry);
      ram.mem := Wr(ram.mem, slot / 0x1000, slot % 0x1000 / 8, ZERO_WORD);
      tlb := Invalidate(tlb, Vpn(va));
      assert View() == s';
    }

    /// mm_get_page_addr: the physical address, 0 when the page is not mapped.
    method GetPageAddr(va: U64) returns (pa: U64)
      requires ram == pmm.ram && pmm.Valid() && Tree(ram.mem, cr3 / 0x1000, pos)
      ensures var o := Lookup(ram.mem, cr3 / 0x1000, va / 0x1000 % 0x10_0000_0000);
              pa == if o.None? then 0 else 0x1000 * o.value.frame + va % 0x1000
    {
      ghost var root := cr3 / 0x1000;
      MaskPage(cr3);
      assert TableOk(ram.mem, root, pos, root);
      // Level 4
      var pml4e, pdptAddr, here := ReadEntry(And(cr3, Not(0xFFF)), 4, va, root);
      if !here { return 0; }
      // Level 3
      var pdpte, pdAddr, there := ReadEntry(pdptAddr, 3, va, root);
      if !there { return 0; }
      var huge := IsLarge(pdpte);
      if huge {
        pa := GiBAddress(pdpte, va);
        return;
      }
      // Level 2
      var pde, ptAddr, further := ReadEntry(pdAddr, 2, va, root);
      if !further { return 0; }
      var large := IsLarge(pde);
      if large {
        pa := LargeAddress(pde, va);
        return;
      }
      // Level 1
      var pte, _, last := ReadEntry(ptAddr, 1, va, root);
      if !last { return 0; }
      PageAddress(pte, va);
      return Or(And(Encode(pte), ADDR_MASK), And(va, 0xFFF));
    }

    /// One level of the read-only walk: the entry, whether it is present, and the table it points
    /// to unless it is a leaf.
    method ReadEntry(table: U64, level: nat, va: U64, ghost root: nat) returns (entry: Word, next: U64, present: bool)
      requires ram == pmm.ram && Tree(ram.mem, root, pos) && 1 <= level <= 4
      requires table % 0x1000 == 0 && table / 0x1000 in pos && pos[table / 0x1000].level == level
      ensures present == entry.present && (level == 4 && present ==> !entry.pat)
      ensures present && !IsLeaf(entry, level) ==>
                next % 0x1000 == 0 && next / 0x1000 in pos && pos[next / 0x1000].level == level - 1
      ensures AddressIn(Look(ram.mem, table / 0x1000, level, Vpn(va)), va)
              == if !present then 0
                 else if IsLeaf(entry, level) then LeafAddress(entry, level, va)
                 else AddressIn(Look(ram.mem, next / 0x1000, level - 1, Vpn(va)), va)
    {
      hide And, Shr, Vpn, Index, LeafFrame;
      IndexBits(va, level);
      entry := Rd(ram.mem, table / 0x1000, And(Shr(va, 3 + 9 * level), 0x1FF));
      present := IsPresent(entry);
      next := 0;
      assert EntryOk(ram.mem, pos, table / 0x1000, Index(Vpn(va), level));
      var leaf := IsLarge(entry);
      if present && !leaf && level > 1 {
        next := NextTable(entry);
      }
    }
  }

  /// The GiB needed to reach limit.
  function GiBs(limit: nat): nat { (limit + 0x3FFF_FFFF) / 0x4000_0000 }

  /// The first page of the k-th GiB.
  function FirstPage(k: nat): nat { k * 0x4_0000 }

  lemma GiBIndices(base: U64, k: nat)
    requires base == k * 0x4000_0000 && k < 0x4_0000
    ensures And(Shr(base, 39), 0x1FF) == Index(FirstPage(k), 4)
    ensures And(Shr(base, 30), 0x1FF) == Index(FirstPage(k), 3)
  {
    IndexBits(base, 4);
    IndexBits(base, 3);
    assert Vpn(base) == FirstPage(k);
  }

  lemma RootLevel(s: Space, root: nat)
    requires SpaceOk(s, root)
    ensures s.pos[root].level == 4
  {
    assert TableOk(s.store.mem, root, s.pos, root);
  }

  lemma PdptValid(s: Space, root: nat, k: nat)
    requires SpaceOk(s, root) && k < 0x4_0000
    ensures PmmOk(Pdpt(s, root, FirstPage(k)).0.store)
  {
    PdptOk(s, root, FirstPage(k));
  }

  // Filling a frame that is handed out leaves the free list alone.
  lemma DirectoryFilled(s: Space, st: Store, pd: nat, k: nat)
    requires PmmOk(s.store) && k < 0x4_0000 && pd != 0
    requires var (st1, f) := Alloc(s.store); f == pd && st == st1.(mem := FillIdentity(st1.mem, pd, k))
    ensures PmmOk(st)
  {
    AllocOk(s.store);
    var st1 := Alloc(s.store).0;
    FillIdentityReads(st1.mem, pd, k);
    MemoryKeepsPmm(st1, st.mem);
  }

  function FirstTable(st: Store): Space {
    var (st1, root) := Alloc(st);
    Space(st1, map[root := Pos(4, 0, 0)])
  }

  // Where the loop of mm_init_kernel_tables starts and what it ends in.
  lemma InitFacts(st: Store, n: nat)
    requires PmmOk(st) && n <= 0x4_0000
    ensures var root := Alloc(st).1;
            if root == 0 then InitTables(st, n) == (Space(Alloc(st).0, map[]), 0)
            else
              var (s, ok) := MapFrom(FirstTable(st), root, 0, n);
              && root < FRAMES && Booting(FirstTable(st), root, 0)
              && InitTables(st, n) == (s, if ok then root else 0)
    ensures PmmOk(Alloc(st).0)
    ensures var (s, root) := InitTables(st, n);
            && s.store.pmm.base == st.pmm.base && s.store.pmm.end == st.pmm.end
            && (root != 0 ==> root < FRAMES && Sound(s, root) && IdentityBelow(s.store.mem, root, n))
  {
    AllocOk(st);
    if Alloc(st).1 != 0 {
      StartBooting(st);
    }
    InitTablesOk(st, n);
  }

  lemma MapFromEnd(s: Space, root: nat, n: nat)
    requires n <= 0x4_0000
    ensures MapFrom(s, root, n, n).0 == s && MapFrom(s, root, n, n).1
  {
  }

  lemma MapFromStep(s: Space, root: nat, k: nat, n: nat)
    requires Booting(s, root, k) && k < n <= 0x4_0000
    ensures var (s', ok) := MapGiB(s, root, k);
            && PmmOk(s'.store)
            && (ok ==>
                  && Booting(s', root, k + 1)
                  && MapFrom(s, root, k, n).0 == MapFrom(s', root, k + 1, n).0
                  && MapFrom(s, root, k, n).1 == MapFrom(s', root, k + 1, n).1)
            && (!ok ==> MapFrom(s, root, k, n).0 == s' && !MapFrom(s, root, k, n).1)
  {
    MapGiBOk(s, root, k);
  }

  /// What mm_get_page_addr answers for a translation of the page of va.
  function AddressIn(o: Option<Mapping>, va: U64): nat {
    if o.None? then 0 else 0x1000 * o.value.frame + va % 0x1000
  }

  /// The address of va inside the leaf e.
  function LeafAddress(e: Word, level: nat, va: U64): nat {
    0x1000 * LeafFrame(e, level, Vpn(va)) + va % 0x1000
  }

  /// `(entry & kAddrMask & ~(kHugePage - 1)) | (va & (kHugePage - 1))`
  method GiBAddress(e: Word, va: U64) returns (pa: U64)
    ensures pa == LeafAddress(e, 3, va)
  {
    GiBPageAddress(e, va);
    LeafAddresses(e, va);
    pa := Or(And(And(Encode(e), ADDR_MASK), Not(0x3FFF_FFFF)), And(va, 0x3FFF_FFFF));
  }

  /// `(entry & kAddrMask & ~(kLargePage - 1)) | (va & (kLargePage - 1))`
  method LargeAddress(e: Word, va: U64) returns (pa: U64)
    ensures pa == LeafAddress(e, 2, va)
  {
    LargePageAddress(e, va);
    LeafAddresses(e, va);
    pa := Or(And(And(Encode(e), ADDR_MASK), Not(0x1F_FFFF)), And(va, 0x1F_FFFF));
  }

  // Offsets inside a large page, in frames.
  lemma LeafAddresses(e: Word, va: U64)
    ensures 0x1000 * (e.frame - e.frame % 512) + va % 0x20_0000 == LeafAddress(e, 2, va)
    ensures 0x1000 * (e.frame - e.frame % 0x4_0000) + va % 0x4000_0000 == LeafAddress(e, 3, va)
  {
    var p, o := va / 0x1000, va % 0x1000;
    OffsetParts(va, p, o);
    PageParts(p, p / 0x10_0000_0000, p % 0x10_0000_0000);
  }

  lemma OffsetParts(va: nat, p: nat, o: nat)
    requires va == 0x1000 * p + o && o < 0x1000
    ensures va % 0x20_0000 == 0x1000 * (p % 512) + o
    ensures va % 0x4000_0000 == 0x1000 * (p % 0x4_0000) + o
  {
  }

  lemma PageParts(p: nat, q: nat, r: nat)
    requires p == 0x10_0000_0000 * q + r
    ensures r % 512 == p % 512 && r % 0x4_0000 == p % 0x4_0000
  {
    QuotientStep(p, q, r, 0x800_0000);
    GiBStep(p, q, r);
  }

  lemma GiBStep(p: nat, q: nat, r: nat)
    requires p == 0x4_0000 * (0x4_0000 * q) + r
    ensures r % 0x4_0000 == p % 0x4_0000
  {
  }

  /// `*slot & kAddrMask`
  method FrameOf(e: Word) returns (frame: U64)
    ensures frame == 0x1000 * e.frame
  {
    FrameAddress(e);
    frame := And(Encode(e), 0x000F_FFFF_FFFF_F000);
  }

  /// The entry mm_map_page_in assembles: cleared, then one bit field after the other.
  method PteOf(phys: FrameNo, flags: nat) returns (pte: Word)
    ensures pte == PageWord(phys, flags)
  {
    pte := ZERO_WORD;
    pte := pte.(present := And(flags, FLAG_PRESENT) != 0);
    pte := pte.(wr := And(flags, FLAG_WR) != 0);
    pte := pte.(user := And(flags, FLAG_USER) != 0);
    pte := pte.(nx := And(flags, FLAG_NX) != 0);
    pte := pte.(pcd := And(flags, FLAG_PCD) != 0);
    pte := pte.(pwt := And(flags, FLAG_PWT) != 0);
    pte := pte.(frame := phys);
  }

  // From the address of the slot to the state the map ends in.
  lemma MapResult(s: Space, s1: Space, root: nat, v: nat, phys: FrameNo, flags: nat, slot: nat)
    requires root > 0 && phys != 0
    requires var (s', x) := Walk(s, root, 4, v, true);
               s1 == s' && slot == SlotAddress(x, v) && (x.Some? ==> x.value > 0)
    ensures slot == 0 ==> MapIn(s, root, v, phys, flags) == (s1, false)
    ensures slot != 0 ==>
              MapIn(s, root, v, phys, flags)
              == (s1.(store := s1.store.(mem := Wr(s1.store.mem, slot / 0x1000, slot % 0x1000 / 8,
                                                   PageWord(phys, flags)))), true)
  {
    SlotParts(Walk(s, root, 4, v, true).1, v, slot);
  }

  lemma SlotParts(x: Option<nat>, v: nat, slot: nat)
    requires slot == SlotAddress(x, v)
    ensures x.Some? ==> slot / 0x1000 == x.value && slot % 0x1000 / 8 == Index(v, 1)
  {
  }

  lemma UnmapResult(s: Space, s1: Space, root: nat, v: nat, slot: nat)
    requires root > 0
    requires var (s', x) := Walk(s, root, 4, v, false);
               s1 == s' && slot == SlotAddress(x, v) && (x.Some? ==> x.value > 0)
    ensures slot == 0 ==> Unmap(s, root, v) == (s1, None)
    ensures slot != 0 ==>
              var e := Rd(s1.store.mem, slot / 0x1000, slot % 0x1000 / 8);
              Unmap(s, root, v)
              == if e.present
                 then (s1.(store := s1.store.(mem := Wr(s1.store.mem, slot / 0x1000, slot % 0x1000 / 8, ZERO_WORD))),
                       Some(e.frame))
                 else (s1, None)
  {
    SlotParts(Walk(s, root, 4, v, false).1, v, slot);
  }

  // What a map keeps, as facts about the state it ends in.
  lemma MapFacts(s: Space, root: nat, v: nat, phys: FrameNo, flags: nat, tlb: set<Cached>)
    requires Sound(s, root) && v < PAGES && phys != 0 && Coherent(tlb, s.store.mem, root)
    ensures root > 0
    ensures var (s', ok) := MapIn(s, root, v, phys, flags);
            && Sound(s', root) && Coherent(if ok then Invalidate(tlb, v) else tlb, s'.store.mem, root)
            && (ok ==>
                  var o := Lookup(s'.store.mem, root, v);
                  (o.Some? <==> flags / 2 % 2 == 1) && (o.Some? ==> o.value.frame == phys))
    ensures var (s1, x) := Walk(s, root, 4, v, true);
            x.Some? ==> 0 < x.value < FRAMES
  {
    RootPositive(s, root);
    StepKeepsGood(Machine(s, tlb), root, MapPage(v, phys, flags));
    if MapIn(s, root, v, phys, flags).1 {
      MapRights(s, root, v, phys, flags);
    }
    WalkedTable(s, root, v, true);
  }

  lemma UnmapFacts(s: Space, root: nat, v: nat, tlb: set<Cached>)
    requires Sound(s, root) && v < PAGES && Coherent(tlb, s.store.mem, root)
    ensures root > 0
    ensures var (s', f) := Unmap(s, root, v);
            Sound(s', root) && Coherent(if f.Some? then Invalidate(tlb, v) else tlb, s'.store.mem, root)
    ensures var (s1, x) := Walk(s, root, 4, v, false);
            x.Some? ==> 0 < x.value < FRAMES
  {
    RootPositive(s, root);
    StepKeepsGood(Machine(s, tlb), root, Runs.UnmapPage(v));
    WalkedTable(s, root, v, false);
  }

  lemma WalkedTable(s: Space, root: nat, v: nat, alloc: bool)
    requires Sound(s, root) && v < PAGES
    ensures var (s1, x) := Walk(s, root, 4, v, alloc);
            x.Some? ==> 0 < x.value < FRAMES
  {
    WalkSound(s, root, v, alloc);
    var (s1, x) := Walk(s, root, 4, v, alloc);
    if x.Some? {
      assert TableOk(s1.store.mem, root, s1.pos, x.value);
    }
  }

  /// The address of the last-level entry for page v in table x.
  function SlotAddress(x: Option<nat>, v: nat): nat {
    if x.None? then 0 else 0x1000 * x.value + 8 * Index(v, 1)
  }

  lemma RootPositive(s: Space, root: nat)
    requires SpaceOk(s, root)
    ensures root > 0
  {
    assert TableOk(s.store.mem, root, s.pos, root);
  }

  // What one level keeps, for the loop.
  lemma DescendFacts(s: Space, t: nat, level: nat, v: nat, alloc: bool, root: nat)
    requires SpaceOk(s, root) && OnWalk(s.pos, t, level, v) && 2 <= level <= 4 && v < PAGES
    ensures var (s', c) := Descend(s, t, level, v, alloc);
            SpaceOk(s', root) && (c.Some? ==> OnWalk(s'.pos, c.value, level - 1, v))
  {
    DescendOk(s, t, level, v, alloc, root);
  }

  // What the tree says about an entry above the page tables.
  lemma EntryFacts(m: Memory, root: nat, pos: Shape, t: nat, i: nat)
    requires Tree(m, root, pos) && t in pos && i < 512 && pos[t].level > 1
    ensures var e := Rd(m, t, i);
            e.present ==> if e.pat then pos[t].level <= 3 else IsTableEntry(e) && e.frame > 0
  {
    assert EntryOk(m, pos, t, i);
    var e := Rd(m, t, i);
    if e.present && !e.pat {
      assert TableOk(m, root, pos, e.frame);
    }
  }
}
