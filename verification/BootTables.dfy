/// The kernel's own page tables (mm_init_kernel_tables): an identity map of 2 MiB leaves.

module BootTables {
  import opened Bits
  import opened Words
  import opened PhysicalMemory
  import opened Frames
  import opened Translation
  import opened Paging
  import opened PageMapping

  /// A GiB is 0x4_0000 pages. Entry i of the page directory of the k-th GiB: `(base + i * kLargePage) | kLeafPerm`.
  function IdentityWord(k: nat, i: nat): Word
    requires k < 0x4_0000 && i < 512
  {
    ZERO_WORD.(present := true, wr := true, pat := true, frame := k * 0x4_0000 + i * 512)
  }

  /// What the identity map says about page v: itself, writable, kernel only, executable.
  function IdentityMapping(v: nat): Mapping {
    Mapping(v, Attributes(true, false, false, false, false, 0, 0, false), true, false, true)
  }

  /// The 512 leaves of the k-th GiB.
  function IdentityWords(k: nat): (ws: seq<Word>)
    requires k < 0x4_0000
    ensures |ws| == 512
  {
    seq(512, i requires 0 <= i < 512 => IdentityWord(k, i))
  }

  function FillIdentity(m: Memory, f: nat, k: nat): Memory
    requires k < 0x4_0000
  {
    FillWords(m, f, IdentityWords(k))
  }

  /// Point the entry for page v in table t at the table f, kernel rights only.
  function Hang(s: Space, st: Store, m: Memory, f: FrameNo, t: nat, level: nat, v: nat): Space
    requires 2 <= level <= 4
  {
    Space(st.(mem := Wr(m, t, Index(v, level), TableWord(f, false))),
          s.pos[f := Pos(level - 1, Prefix(v, level - 1), t)])
  }

  /// The page directory pointer table of page v, created if it is missing.
  function Pdpt(s: Space, root: nat, v: nat): (Space, nat) {
    var e := Rd(s.store.mem, root, Index(v, 4));
    if e.present then (s, e.frame)
    else
      var (st, f) := Alloc(s.store);
      if f == 0 || f >= FRAMES then (Space(st, s.pos), 0)
      else (Hang(s, st, st.mem, f, root, 4, v), f)
  }

  /// One round of the loop: the tables of the k-th GiB.
  function MapGiB(s: Space, root: nat, k: nat): (Space, bool)
    requires k < 0x4_0000
  {
    var v := k * 0x4_0000;
    var (s1, pdpt) := Pdpt(s, root, v);
    if pdpt == 0 then (s1, false)
    else
      var (st, pd) := Alloc(s1.store);
      if pd == 0 || pd >= FRAMES then (Space(st, s1.pos), false)
      else (Hang(s1, st, FillIdentity(st.mem, pd, k), pd, pdpt, 3, v), true)
  }

  function MapFrom(s: Space, root: nat, k: nat, n: nat): (Space, bool)
    requires k <= n <= 0x4_0000
    decreases n - k
  {
    if k == n then (s, true)
    else
      var (s1, ok) := MapGiB(s, root, k);
      if ok then MapFrom(s1, root, k + 1, n) else (s1, false)
  }

  /// The whole function, for n GiB. The root is 0 on failure.
  function InitTables(st: Store, n: nat): (Space, nat)
    requires n <= 0x4_0000
  {
    var (st1, root) := Alloc(st);
    if root == 0 then (Space(st1, map[]), 0)
    else
      var (s, ok) := MapFrom(Space(st1, map[root := Pos(4, 0, 0)]), root, 0, n);
      (s, if ok then root else 0)
  }

  // ---- what the loop keeps ---------------------------------------------------------------

  /// Level 3 entries exist for the first k GiB only.
  ghost predicate NoneBeyond(s: Space, k: nat) {
    forall t, i: nat :: t in s.pos && s.pos[t].level == 3 && i < 512 && s.pos[t].prefix * 512 + i >= k
      ==> !Rd(s.store.mem, t, i).present
  }

  /// The first k GiB are mapped to themselves and nothing else is mapped.
  ghost predicate IdentityBelow(m: Memory, root: nat, k: nat) {
    forall v: nat :: v < PAGES ==> Lookup(m, root, v) == if v < k * 0x4_0000 then Some(IdentityMapping(v)) else None
  }

  ghost predicate Booting(s: Space, root: nat, k: nat) {
    SpaceOk(s, root) && NoneBeyond(s, k) && IdentityBelow(s.store.mem, root, k)
  }

  lemma StartBooting(st: Store)
    requires PmmOk(st) && Alloc(st).1 != 0
    ensures var (st1, root) := Alloc(st); Booting(Space(st1, map[root := Pos(4, 0, 0)]), root, 0)
  {
    AllocOk(st);
    var (st1, root) := Alloc(st);
    var s := Space(st1, map[root := Pos(4, 0, 0)]);
    forall t, i: nat | t in s.pos && i < 512
      ensures EntryOk(st1.mem, s.pos, t, i)
    {
      assert Rd(st1.mem, root, i) == ZERO_WORD;
    }
    forall v: nat
      ensures Lookup(st1.mem, root, v) == None
    {
      assert Rd(st1.mem, root, Index(v, 4)) == ZERO_WORD;
    }
  }

  // ---- hanging a table -------------------------------------------------------------------

  lemma HangFresh(s: Space, st: Store, m: Memory, f: nat, t: nat, level: nat, v: nat)
    requires OnWalk(s.pos, t, level, v) && 2 <= level <= 4 && 0 < f < FRAMES && f !in s.pos
    requires HandsOut(s.store, st, f) && PmmOk(st) && !Rd(s.store.mem, t, Index(v, level)).present
    requires forall g, j: nat | g != f :: Rd(m, g, j) == Rd(st.mem, g, j)
    requires forall j: nat | j < 512 :: Rd(m, f, j).present ==> IsLeaf(Rd(m, f, j), level - 1)
    ensures var s' := Hang(s, st, m, f, t, level, v);
            && LinksFresh(s, s', st, t, Index(v, level), f)
            && OnWalk(s'.pos, f, level - 1, v)
            && Rd(s'.store.mem, t, Index(v, level)) == TableWord(f, false)
            && forall j: nat :: Rd(s'.store.mem, f, j) == Rd(m, f, j)
  {
    var i := Index(v, level);
    var s' := Hang(s, st, m, f, t, level, v);
    PrefixStep(v, level);
    forall j: nat
      ensures Rd(s'.store.mem, f, j) == Rd(m, f, j)
    {
    }
    assert s'.pos == LinkedShape(s.pos, t, i, f);
  }

  /// Every entry present at level 3 was there before.
  ghost predicate NoNewEntries(s: Space, s': Space) {
    forall t, j: nat :: t in s'.pos && s'.pos[t].level == 3 && j < 512 && Rd(s'.store.mem, t, j).present
      ==> t in s.pos && s.pos[t] == s'.pos[t] && Rd(s.store.mem, t, j).present
  }

  /// Adding an empty PDPT changes no translation.
  lemma PdptOk(s: Space, root: nat, v: nat)
    requires SpaceOk(s, root) && v < PAGES
    ensures var (s', f) := Pdpt(s, root, v);
            && SpaceOk(s', root) && Grows(s, s')
            && (f != 0 ==> OnWalk(s'.pos, f, 3, v) && SameMeaning(s, s', root) && NoNewEntries(s, s'))
            && (f == 0 ==> s' == s && Alloc(s.store).1 == 0)
  {
    hide Lookup;
    RootOnWalk(s, root, v);
    var i := Index(v, 4);
    PrefixStep(v, 4);
    assert EntryOk(s.store.mem, s.pos, root, i);
    var (st, f) := Alloc(s.store);
    AllocOk(s.store);
    var e := Rd(s.store.mem, root, i);
    if e.present {
      assert TableOk(s.store.mem, root, s.pos, e.frame);
    } else if f != 0 {
      NewPdpt(s, root, v, i, st, f);
    }
  }

  lemma NewPdpt(s: Space, root: nat, v: nat, i: nat, st: Store, f: FrameNo)
    requires SpaceOk(s, root) && v < PAGES && i == Index(v, 4) && !Rd(s.store.mem, root, i).present
    requires (st, f) == Alloc(s.store) && f != 0 && OnWalk(s.pos, root, 4, v)
    ensures var s' := Hang(s, st, st.mem, f, root, 4, v);
            && SpaceOk(s', root) && Grows(s, s') && OnWalk(s'.pos, f, 3, v)
            && SameMeaning(s, s', root) && NoNewEntries(s, s')
  {
    AllocOk(s.store);
    hide Lookup, SameMeaning, Grows, Alloc, PmmOk;
    PrefixStep(v, 4);
    var s' := Hang(s, st, st.mem, f, root, 4, v);
    HangFresh(s, st, st.mem, f, root, 4, v);
    LinkedSpace(s, s', st, root, i, f, root);
    EmptyMeaning(s, s', root, i, f, root);
    assert NoNewEntries(s, s') by {
      assert TableOk(s.store.mem, root, s.pos, root);
    }
  }

  lemma EmptyMeaning(s: Space, s': Space, t: nat, i: nat, f: nat, root: nat)
    requires SpaceOk(s, root) && CanLink(s.store.mem, s'.store.mem, s.pos, t, i, f)
    requires !Rd(s.store.mem, t, i).present
    requires forall j: nat | j < 512 :: Rd(s'.store.mem, f, j) == ZERO_WORD
    ensures SameMeaning(s, s', root)
  {
    var m, m' := s.store.mem, s'.store.mem;
    forall u: nat
      ensures Wider(Lookup(m, root, u), Lookup(m', root, u))
    {
      if Index(u, s.pos[t].level) == i {
        EmptyTableMeaning(m, m', s.pos, t, i, f, u);
      }
      LinkKeepsMeaning(m, m', root, s.pos, t, i, f, u);
    }
  }

  // ---- one round -------------------------------------------------------------------------

  lemma FillIdentityReads(m: Memory, f: nat, k: nat)
    requires k < 0x4_0000
    ensures forall j: nat | j < 512 :: Rd(FillIdentity(m, f, k), f, j) == IdentityWord(k, j)
    ensures forall g, j: nat | g != f :: Rd(FillIdentity(m, f, k), g, j) == Rd(m, g, j)
  {
    FillWordsReads(m, f, IdentityWords(k));
  }

  lemma GiBOfPage(u: nat)
    requires u < PAGES
    ensures Prefix(u, 2) == u / 0x4_0000 && Prefix(u, 3) == u / 0x4_0000 / 512 && Index(u, 3) == u / 0x4_0000 % 512
    ensures u / 0x4_0000 < 0x4_0000 && Index(u, 2) == u % 0x4_0000 / 512
  {
    assert Prefix(u, 1) == u / 512;
    assert Prefix(u, 2) == u / 512 / 512;
  }

  /// A page of the k-th GiB, once its directory is filled and reached through kernel tables.
  lemma IdentityLook(m: Memory, root: nat, pos: Shape, pdpt: nat, pd: nat, k: nat, u: nat)
    requires Tree(m, root, pos) && OnWalk(pos, pdpt, 3, u) && u < PAGES && u / 0x4_0000 == k
    requires pd < FRAMES && Rd(m, pdpt, Index(u, 3)) == TableWord(pd, false)
    requires forall j: nat | j < 512 :: Rd(m, pd, j) == IdentityWord(k, j)
    ensures Lookup(m, root, u) == Some(IdentityMapping(u))
  {
    GiBOfPage(u);
    TreeExact(m, root, pos, u, 3, pdpt);
    assert TableAt(m, root, u, 4) == Some(root);
    assert EntryOk(m, pos, root, Index(u, 4)) && TableOk(m, root, pos, root);
    var e := Rd(m, pd, Index(u, 2));
    assert e == IdentityWord(k, Index(u, 2));
    assert LeafFrame(e, 2, u) == u;
    assert Look(m, pd, 2, u) == Some(IdentityMapping(u).(user := false));
    assert Look(m, pdpt, 3, u) == Some(IdentityMapping(u));
  }

  lemma MapGiBOk(s: Space, root: nat, k: nat)
    requires Booting(s, root, k) && k < 0x4_0000
    ensures var (s', ok) := MapGiB(s, root, k);
            && SpaceOk(s', root) && Grows(s, s')
            && (ok ==> Booting(s', root, k + 1))
            && (!ok ==> Alloc(s'.store).1 == 0)
  {
    hide Pdpt, Alloc;
    var v := k * 0x4_0000;
    GiBOfPage(v);
    PdptOk(s, root, v);
    var (s1, pdpt) := Pdpt(s, root, v);
    if pdpt != 0 {
      AllocOk(s1.store);
      var (st, pd) := Alloc(s1.store);
      if pd != 0 {
        PdptBoots(s, root, k, s1, pdpt);
        HangDirectory(s1, root, k, pdpt, st, pd);
        GrowsTransitive(s, s1, MapGiB(s, root, k).0);
      }
    }
  }

  lemma PdptBoots(s: Space, root: nat, k: nat, s1: Space, pdpt: nat)
    requires Booting(s, root, k) && k < 0x4_0000 && (s1, pdpt) == Pdpt(s, root, k * 0x4_0000) && pdpt != 0
    ensures Booting(s1, root, k)
  {
    var v := k * 0x4_0000;
    PdptOk(s, root, v);
    forall u: nat | u < PAGES
      ensures Lookup(s1.store.mem, root, u) == Lookup(s.store.mem, root, u)
    {
      WiderIsSame(s.store.mem, s1.store.mem, root, u);
    }
  }

  lemma HangDirectory(s: Space, root: nat, k: nat, pdpt: nat, st: Store, pd: nat)
    requires Booting(s, root, k) && k < 0x4_0000 && OnWalk(s.pos, pdpt, 3, k * 0x4_0000)
    requires (st, pd) == Alloc(s.store) && pd != 0
    ensures pd < FRAMES
    ensures var s' := Hang(s, st, FillIdentity(st.mem, pd, k), pd, pdpt, 3, k * 0x4_0000);
            Booting(s', root, k + 1) && Grows(s, s')
  {
    hide IdentityBelow, FillIdentity, PmmOk;
    var v := k * 0x4_0000;
    var i := Index(v, 3);
    GiBOfPage(v);
    assert i == k % 512;
    var m := FillIdentity(st.mem, pd, k);
    AllocOk(s.store);
    FillIdentityReads(st.mem, pd, k);
    var s' := Hang(s, st, m, pd, pdpt, 3, v);
    HangFresh(s, st, m, pd, pdpt, 3, v);
    LinkedSpace(s, s', st, pdpt, i, pd, root);
    DirectoryMeaning(s, s', root, k, pdpt, i, pd);
    DirectoryBeyond(s, s', k, pdpt, i, pd);
  }

  lemma DirectoryMeaning(s: Space, s': Space, root: nat, k: nat, pdpt: nat, i: nat, pd: nat)
    requires Tree(s.store.mem, root, s.pos) && IdentityBelow(s.store.mem, root, k) && k < 0x4_0000
    requires OnWalk(s.pos, pdpt, 3, k * 0x4_0000) && i == k % 512
    requires Tree(s'.store.mem, root, s'.pos) && OnWalk(s'.pos, pdpt, 3, k * 0x4_0000)
    requires SameEntries(s.store.mem, s'.store.mem, s.pos, pdpt, i)
    requires pd < FRAMES && Rd(s'.store.mem, pdpt, i) == TableWord(pd, false)
    requires forall j: nat | j < 512 :: Rd(s'.store.mem, pd, j) == IdentityWord(k, j)
    ensures IdentityBelow(s'.store.mem, root, k + 1)
  {
    var m, m' := s.store.mem, s'.store.mem;
    GiBOfPage(k * 0x4_0000);
    forall u: nat | u < PAGES
      ensures Lookup(m', root, u)
              == if u / 0x4_0000 == k then Some(IdentityMapping(u)) else Lookup(m, root, u)
    {
      GiBOfPage(u);
      if u / 0x4_0000 == k {
        IdentityLook(m', root, s'.pos, pdpt, pd, k, u);
      } else {
        OtherGiB(m, m', root, s.pos, pdpt, k, u);
      }
    }
  }

  lemma OtherGiB(m: Memory, m': Memory, root: nat, pos: Shape, pdpt: nat, k: nat, u: nat)
    requires Tree(m, root, pos) && OnWalk(pos, pdpt, 3, k * 0x4_0000) && k < 0x4_0000
    requires SameEntries(m, m', pos, pdpt, k % 512) && u < PAGES && u / 0x4_0000 != k
    ensures Lookup(m', root, u) == Lookup(m, root, u)
  {
    GiBOfPage(u);
    GiBOfPage(k * 0x4_0000);
    PrefixRoot(u);
    assert TableOk(m, root, pos, root);
    LookElsewhere(m, m', root, pos, pdpt, k % 512, root, u);
  }

  lemma DirectoryBeyond(s: Space, s': Space, k: nat, pdpt: nat, i: nat, pd: nat)
    requires NoneBeyond(s, k) && k < 0x4_0000 && OnWalk(s.pos, pdpt, 3, k * 0x4_0000) && i == k % 512
    requires SameEntries(s.store.mem, s'.store.mem, s.pos, pdpt, i)
    requires pd !in s.pos && s'.pos == LinkedShape(s.pos, pdpt, i, pd)
    ensures NoneBeyond(s', k + 1)
  {
    GiBOfPage(k * 0x4_0000);
  }

  // ---- the loop --------------------------------------------------------------------------

  lemma {:induction false} MapFromOk(s: Space, root: nat, k: nat, n: nat)
    requires Booting(s, root, k) && k <= n <= 0x4_0000
    ensures var (s', ok) := MapFrom(s, root, k, n);
            && SpaceOk(s', root) && Grows(s, s')
            && (ok ==> Booting(s', root, n))
            && (!ok ==> Alloc(s'.store).1 == 0)
    decreases n - k
  {
    if k < n {
      MapGiBOk(s, root, k);
      var (s1, ok) := MapGiB(s, root, k);
      if ok {
        MapFromOk(s1, root, k + 1, n);
        GrowsTransitive(s, s1, MapFrom(s1, root, k + 1, n).0);
      }
    }
  }

  /// When the kernel tables can be built, every page below n GiB translates to itself, every
  /// page above is unmapped, the leaves carry the real policy, and the tables form a sound tree
  /// of handed-out frames. They cannot be built only when the allocator runs out.
  lemma InitTablesOk(st: Store, n: nat)
    requires PmmOk(st) && n <= 0x4_0000
    ensures var (s, root) := InitTables(st, n);
            && PmmOk(s.store) && s.store.pmm.base == st.pmm.base && s.store.pmm.end == st.pmm.end
            && (root != 0 ==>
                  && Sound(s, root) && IdentityBelow(s.store.mem, root, n)
                  && |s.pos| == s.store.pmm.used - st.pmm.used
                  && forall f :: Live(s.store, f) <==> Live(st, f) || f in s.pos)
            && (root == 0 ==> Alloc(s.store).1 == 0)
  {
    var (st1, root) := Alloc(st);
    AllocOk(st);
    if root != 0 {
      StartBooting(st);
      MapFromOk(Space(st1, map[root := Pos(4, 0, 0)]), root, 0, n);
    }
  }

  // ---- the rights of the tables ----------------------------------------------------------

  /// The entries that point to tables are for the kernel only: their lowest bits are 3.
  ghost predicate KernelOnly(s: Space) {
    forall t, i: nat :: t in s.pos && s.pos[t].level >= 3 && i < 512 && Rd(s.store.mem, t, i).present
      ==> Encode(Rd(s.store.mem, t, i)) % 8 == 3
  }

  lemma KernelEntry(f: FrameNo)
    ensures Encode(TableWord(f, false)) % 8 == 3
  {
    hide Encode;
    Layout(TableWord(f, false));
    var x := Encode(TableWord(f, false));
    assert x == 8 * (512 * f) + 3;
  }

  // Hanging a new table whose entries are no tables, or not there.
  lemma HangKernelOnly(s: Space, st: Store, m: Memory, f: FrameNo, t: nat, level: nat, v: nat, root: nat)
    requires SpaceOk(s, root) && KernelOnly(s) && OnWalk(s.pos, t, level, v) && 3 <= level <= 4 && f != 0
    requires HandsOut(s.store, st, f) && PmmOk(st) && f !in s.pos
    requires forall g, j: nat | g != f :: Rd(m, g, j) == Rd(st.mem, g, j)
    requires level == 4 ==> forall j: nat | j < 512 :: !Rd(m, f, j).present
    ensures KernelOnly(Hang(s, st, m, f, t, level, v))
  {
    hide Encode;
    KernelEntry(f);
    var s' := Hang(s, st, m, f, t, level, v);
    forall u, i: nat | u in s'.pos && s'.pos[u].level >= 3 && i < 512 && Rd(s'.store.mem, u, i).present
      ensures Encode(Rd(s'.store.mem, u, i)) % 8 == 3
    {
      if u == t && i == Index(v, level) {
        assert Rd(s'.store.mem, u, i) == TableWord(f, false);
      } else {
        assert Rd(s'.store.mem, u, i) == Rd(m, u, i);
        if u != f {
          assert Rd(m, u, i) == Rd(st.mem, u, i) == Rd(s.store.mem, u, i);
        }
      }
    }
  }

  lemma FreshFrame(s: Space, root: nat)
    requires SpaceOk(s, root)
    ensures var (st, f) := Alloc(s.store);
            && f < FRAMES && (f == 0 ==> st == s.store)
            && (f != 0 ==> f !in s.pos && HandsOut(s.store, st, f) && PmmOk(st))
  {
    AllocOk(s.store);
  }

  lemma PdptKernelOnly(s: Space, root: nat, v: nat)
    requires SpaceOk(s, root) && v < PAGES && KernelOnly(s)
    ensures KernelOnly(Pdpt(s, root, v).0)
  {
    hide KernelOnly;
    RootOnWalk(s, root, v);
    FreshFrame(s, root);
    var (st, f) := Alloc(s.store);
    if !Rd(s.store.mem, root, Index(v, 4)).present && f != 0 {
      HangKernelOnly(s, st, st.mem, f, root, 4, v, root);
    }
  }

  lemma MapGiBKernelOnly(s: Space, root: nat, k: nat)
    requires Booting(s, root, k) && k < 0x4_0000 && KernelOnly(s)
    ensures KernelOnly(MapGiB(s, root, k).0)
  {
    hide KernelOnly, IdentityBelow, FillIdentity, Pdpt;
    var v := k * 0x4_0000;
    GiBOfPage(v);
    PdptOk(s, root, v);
    PdptKernelOnly(s, root, v);
    var (s1, pdpt) := Pdpt(s, root, v);
    if pdpt != 0 {
      FreshFrame(s1, root);
      var (st, pd) := Alloc(s1.store);
      if pd != 0 {
        FillIdentityReads(st.mem, pd, k);
        HangKernelOnly(s1, st, FillIdentity(st.mem, pd, k), pd, pdpt, 3, v, root);
      }
    }
  }

  lemma {:induction false} MapFromKernelOnly(s: Space, root: nat, k: nat, n: nat)
    requires Booting(s, root, k) && k <= n <= 0x4_0000 && KernelOnly(s)
    ensures KernelOnly(MapFrom(s, root, k, n).0)
    decreases n - k
  {
    hide KernelOnly;
    if k < n {
      MapGiBOk(s, root, k);
      MapGiBKernelOnly(s, root, k);
      if MapGiB(s, root, k).1 {
        MapFromKernelOnly(MapGiB(s, root, k).0, root, k + 1, n);
      }
    }
  }

  /// In the kernel's own tables every entry that points to a table has the low bits 3: present and
  /// writable, not for user mode.
  lemma KernelTables(st: Store, n: nat)
    requires PmmOk(st) && n <= 0x4_0000
    ensures var (s, root) := InitTables(st, n);
            root != 0 ==>
              forall t, i: nat :: t in s.pos && s.pos[t].level >= 3 && i < 512 && Rd(s.store.mem, t, i).present
                ==> Encode(Rd(s.store.mem, t, i)) % 8 == 3
  {
    hide Encode;
    var (st1, root) := Alloc(st);
    AllocOk(st);
    if root != 0 {
      StartBooting(st);
      MapFromKernelOnly(Space(st1, map[root := Pos(4, 0, 0)]), root, 0, n);
    }
  }

  // ---- how many frames it takes ----------------------------------------------------------

  /// PML4 entries are present for the GiB done so far and no others.
  ghost predicate PdptsUpTo(m: Memory, root: nat, k: nat) {
    forall i: nat | i < 512 :: Rd(m, root, i).present <==> 512 * i < k
  }

  /// Frames taken by the k-th GiB: a directory, and a PDPT when it is the first GiB of 512.
  function FramesOf(k: nat): nat { if k % 512 == 0 then 2 else 1 }

  function FramesFor(k: nat, n: nat): nat
    requires k <= n
    decreases n - k
  {
    if k == n then 0 else FramesOf(k) + FramesFor(k + 1, n)
  }

  lemma Pml4Index(k: nat)
    requires k < 0x4_0000
    ensures Index(k * 0x4_0000, 4) == k / 512
  {
    GiBOfPage(k * 0x4_0000);
    assert k * 0x4_0000 / 0x4_0000 == k;
  }

  // Entry k / 512 appears with the first of its 512 GiB, and stays.
  lemma PdptsStep(m: Memory, m': Memory, root: nat, k: nat)
    requires PdptsUpTo(m, root, k) && Rd(m', root, k / 512).present
    requires forall j: nat | j < 512 && j != k / 512 :: Rd(m', root, j) == Rd(m, root, j)
    ensures PdptsUpTo(m', root, k + 1)
  {
    forall j: nat | j < 512
      ensures Rd(m', root, j).present <==> 512 * j < k + 1
    {
      assert Rd(m, root, j).present <==> 512 * j < k;
    }
  }

  lemma PdptFrames(s: Space, root: nat, k: nat)
    requires SpaceOk(s, root) && k < 0x4_0000 && PdptsUpTo(s.store.mem, root, k)
    ensures var (s1, f) := Pdpt(s, root, k * 0x4_0000);
            && (f != 0 <==> s.store.pmm.free >= FramesOf(k) - 1)
            && (f != 0 ==> s1.store.pmm.free == s.store.pmm.free - (FramesOf(k) - 1)
                           && PdptsUpTo(s1.store.mem, root, if k % 512 == 0 then k + 1 else k))
  {
    Pml4Index(k);
    CursorPositive(s, root);
    AllocSucceeds(s.store);
    AllocOk(s.store);
    var i := k / 512;
    assert EntryOk(s.store.mem, s.pos, root, i);
    assert TableOk(s.store.mem, root, s.pos, root);
    var e := Rd(s.store.mem, root, i);
    var (st, f) := Alloc(s.store);
    if e.present {
      assert TableOk(s.store.mem, root, s.pos, e.frame);
    } else if f != 0 {
      PdptsStep(s.store.mem, Hang(s, st, st.mem, f, root, 4, k * 0x4_0000).store.mem, root, k);
    }
  }

  lemma CursorPositive(s: Space, root: nat)
    requires SpaceOk(s, root)
    ensures s.store.pmm.cursor > 0 && Live(s.store, root)
  {
    assert root in s.pos;
  }

  /// One round succeeds exactly when its frames are there, and takes just those.
  lemma MapGiBFrames(s: Space, root: nat, k: nat)
    requires Booting(s, root, k) && k < 0x4_0000 && PdptsUpTo(s.store.mem, root, k)
    ensures var (s', ok) := MapGiB(s, root, k);
            && (ok <==> s.store.pmm.free >= FramesOf(k))
            && (ok ==> s'.store.pmm.free == s.store.pmm.free - FramesOf(k) && PdptsUpTo(s'.store.mem, root, k + 1))
  {
    var v := k * 0x4_0000;
    GiBOfPage(v);
    PdptOk(s, root, v);
    PdptFrames(s, root, k);
    var (s1, pdpt) := Pdpt(s, root, v);
    if pdpt != 0 {
      DirectoryFrames(s1, root, k, pdpt);
    }
  }

  lemma PdptsKept(m: Memory, m': Memory, root: nat, k: nat)
    requires PdptsUpTo(m, root, if k % 512 == 0 then k + 1 else k)
    requires forall j: nat | j < 512 :: Rd(m', root, j) == Rd(m, root, j)
    ensures PdptsUpTo(m', root, k + 1)
  {
    forall j: nat | j < 512
      ensures Rd(m', root, j).present <==> 512 * j < k + 1
    {
      assert Rd(m, root, j).present <==> 512 * j < if k % 512 == 0 then k + 1 else k;
    }
  }

  lemma DirectoryFrames(s: Space, root: nat, k: nat, pdpt: nat)
    requires SpaceOk(s, root) && k < 0x4_0000 && OnWalk(s.pos, pdpt, 3, k * 0x4_0000)
    requires PdptsUpTo(s.store.mem, root, if k % 512 == 0 then k + 1 else k)
    ensures var (st, pd) := Alloc(s.store);
            && (pd != 0 <==> s.store.pmm.free >= 1) && pd < FRAMES
            && (pd != 0 ==>
                  var s' := Hang(s, st, FillIdentity(st.mem, pd, k), pd, pdpt, 3, k * 0x4_0000);
                  s'.store.pmm.free == s.store.pmm.free - 1 && PdptsUpTo(s'.store.mem, root, k + 1))
  {
    CursorPositive(s, root);
    AllocSucceeds(s.store);
    AllocOk(s.store);
    var (st, pd) := Alloc(s.store);
    assert TableOk(s.store.mem, root, s.pos, root);
    if pd != 0 {
      FillIdentityReads(st.mem, pd, k);
      assert pd != root && pdpt != root;
      PdptsKept(s.store.mem, Hang(s, st, FillIdentity(st.mem, pd, k), pd, pdpt, 3, k * 0x4_0000).store.mem, root, k);
    }
  }

  lemma {:induction false} MapFromFrames(s: Space, root: nat, k: nat, n: nat)
    requires Booting(s, root, k) && k <= n <= 0x4_0000 && PdptsUpTo(s.store.mem, root, k)
    ensures var (s', ok) := MapFrom(s, root, k, n);
            && (ok <==> s.store.pmm.free >= FramesFor(k, n))
            && (ok ==> s'.store.pmm.free == s.store.pmm.free - FramesFor(k, n))
    decreases n - k
  {
    if k < n {
      MapGiBOk(s, root, k);
      MapGiBFrames(s, root, k);
      if MapGiB(s, root, k).1 {
        MapFromFrames(MapGiB(s, root, k).0, root, k + 1, n);
      }
    }
  }

  lemma NextGiB(k: nat)
    ensures (k + 512) / 512 == (k + 511) / 512 + FramesOf(k) - 1
  {
    var q, r := k / 512, k % 512;
    ModUnique(k + 512, 512, q + 1, r);
    if r == 0 {
      ModUnique(k + 511, 512, q, 511);
    } else {
      ModUnique(k + 511, 512, q + 1, r - 1);
    }
  }

  lemma {:induction false} FramesSum(k: nat, n: nat)
    requires k <= n
    ensures FramesFor(k, n) == n - k + (n + 511) / 512 - (k + 511) / 512
    decreases n - k
  {
    if k < n {
      FramesSum(k + 1, n);
      NextGiB(k);
    }
  }

  /// The kernel tables for n GiB can be built exactly when the allocator can hand out a root, a
  /// directory for every GiB and a PDPT for every 512 of them; these are the frames that are gone then.
  lemma InitTablesSucceeds(st: Store, n: nat)
    requires PmmOk(st) && n <= 0x4_0000
    ensures var (s, root) := InitTables(st, n);
            && (root != 0 <==> st.pmm.cursor > 0 && st.pmm.free >= 1 + n + (n + 511) / 512)
            && (root != 0 ==> s.store.pmm.free == st.pmm.free - (1 + n + (n + 511) / 512))
  {
    var (st1, root) := Alloc(st);
    AllocOk(st);
    AllocSucceeds(st);
    FramesSum(0, n);
    if root != 0 {
      StartBooting(st);
      MapFromFrames(Space(st1, map[root := Pos(4, 0, 0)]), root, 0, n);
    }
  }
}
