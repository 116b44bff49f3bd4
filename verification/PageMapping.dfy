/// Mapping and unmapping one page (mm_map_page_in and mm_unmap_page).

module PageMapping {
  import opened Bits
  import opened Words
  import opened PhysicalMemory
  import opened Frames
  import opened Translation
  import opened Paging

  /// A sound space in which every leaf carries the real policy.
  ghost predicate Sound(s: Space, root: nat) {
    SpaceOk(s, root) && Policy(s.store.mem, root)
  }

  const FLAG_PRESENT: nat := 2
  const FLAG_WR: nat := 4
  const FLAG_USER: nat := 8
  const FLAG_NX: nat := 16
  const FLAG_PCD: nat := 32
  const FLAG_PWT: nat := 64

  predicate HasFlag(flags: nat, flag: nat) { And(flags, flag) != 0 }

  /// The entry mm_map_page_in builds, field by field.
  function PageWord(phys: FrameNo, flags: nat): Word {
    ZERO_WORD.(
      present := HasFlag(flags, FLAG_PRESENT),
      wr := HasFlag(flags, FLAG_WR),
      user := HasFlag(flags, FLAG_USER),
      nx := HasFlag(flags, FLAG_NX),
      pcd := HasFlag(flags, FLAG_PCD),
      pwt := HasFlag(flags, FLAG_PWT),
      frame := phys)
  }

  function WriteSlot(s: Space, x: nat, v: nat, w: Word): Space {
    s.(store := s.store.(mem := Wr(s.store.mem, x, Index(v, 1), w)))
  }

  /// mm_map_page_in for a page-aligned frame; false is kErrorInvalidData.
  function MapIn(s: Space, root: nat, v: nat, phys: FrameNo, flags: nat): (Space, bool) {
    if phys == 0 || root == 0 then (s, false)
    else
      var (s1, x) := Walk(s, root, 4, v, true);
      if x == None then (s1, false) else (WriteSlot(s1, x.value, v, PageWord(phys, flags)), true)
  }

  /// mm_unmap_page; None stands for "there was no page", which the code reports as frame 0.
  function Unmap(s: Space, root: nat, v: nat): (Space, Option<nat>) {
    if root == 0 then (s, None)
    else
      var (s1, x) := Walk(s, root, 4, v, false);
      if x == None then (s1, None)
      else
        var e := Rd(s1.store.mem, x.value, Index(v, 1));
        if e.present then (WriteSlot(s1, x.value, v, ZERO_WORD), Some(e.frame)) else (s1, None)
  }

  // ---- writing the last-level entry ------------------------------------------------------

  /// The translation a last-level entry stands for.
  function PageMeaning(e: Word): Option<Mapping> {
    if e.present then Some(LeafMapping(e, 1, 0)) else None
  }

  /// Behind an open path the last-level entry is the whole truth.
  lemma {:induction false} OpenLook(m: Memory, t: nat, level: nat, v: nat, x: nat)
    requires Open(m, t, level, v, x) && 1 <= level <= 4
    ensures Look(m, t, level, v) == PageMeaning(Rd(m, x, Index(v, 1)))
    decreases level
  {
    if level > 1 {
      OpenLook(m, Rd(m, t, Index(v, level)).frame, level - 1, v, x);
    }
  }

  // Writing a last-level entry does not close the path to it.
  lemma {:induction false} OpenStays(m: Memory, root: nat, pos: Shape, t: nat, level: nat, v: nat, x: nat, w: Word)
    requires Tree(m, root, pos) && OnWalk(pos, t, level, v) && OnWalk(pos, x, 1, v)
    requires Open(m, t, level, v, x) && 1 <= level <= 4
    ensures Open(Wr(m, x, Index(v, 1), w), t, level, v, x)
    decreases level
  {
    if level > 1 {
      var i := Index(v, level);
      assert EntryOk(m, pos, t, i);
      PrefixStep(v, level);
      OpenStays(m, root, pos, Rd(m, t, i).frame, level - 1, v, x, w);
    }
  }

  lemma SlotKeepsTree(m: Memory, root: nat, pos: Shape, x: nat, v: nat, w: Word)
    requires Tree(m, root, pos) && OnWalk(pos, x, 1, v)
    ensures Tree(Wr(m, x, Index(v, 1), w), root, pos)
  {
    var m' := Wr(m, x, Index(v, 1), w);
    forall t, j: nat | t in pos && j < 512
      ensures EntryOk(m', pos, t, j)
    {
      assert EntryOk(m, pos, t, j);
    }
    forall c | c in pos
      ensures TableOk(m', root, pos, c)
    {
      assert TableOk(m, root, pos, c);
    }
  }

  /// Exactly the translation of page v changes.
  ghost predicate OnlyPage(m: Memory, m': Memory, root: nat, v: nat) {
    forall u: nat :: u < PAGES && u != v ==> Lookup(m', root, u) == Lookup(m, root, u)
  }

  ghost predicate SameLookups(m: Memory, m': Memory, root: nat) {
    forall u: nat :: u < PAGES ==> Lookup(m', root, u) == Lookup(m, root, u)
  }

  lemma SlotMeaning(m: Memory, root: nat, pos: Shape, x: nat, v: nat, w: Word)
    requires Tree(m, root, pos) && OnWalk(pos, x, 1, v) && v < PAGES
    ensures OnlyPage(m, Wr(m, x, Index(v, 1), w), root, v)
    ensures Open(m, root, 4, v, x) ==> Lookup(Wr(m, x, Index(v, 1), w), root, v) == PageMeaning(w)
  {
    var m' := Wr(m, x, Index(v, 1), w);
    assert TableOk(m, root, pos, root);
    PrefixRoot(v);
    PrefixStep(v, 1);
    forall u: nat | u < PAGES && u != v
      ensures Lookup(m', root, u) == Lookup(m, root, u)
    {
      PrefixRoot(u);
      LookElsewhere(m, m', root, pos, x, Index(v, 1), root, u);
    }
    if Open(m, root, 4, v, x) {
      OpenStays(m, root, pos, root, 4, v, x, w);
      OpenLook(m', root, 4, v, x);
    }
  }

  /// Writing the last-level entry of page v, reached by an open path, keeps a sound space sound.
  lemma SlotOk(s: Space, root: nat, x: nat, v: nat, w: Word)
    requires Sound(s, root) && OnWalk(s.pos, x, 1, v) && v < PAGES && Open(s.store.mem, root, 4, v, x)
    ensures var s' := WriteSlot(s, x, v, w);
            && Sound(s', root) && Grows(s, s') && OnlyPage(s.store.mem, s'.store.mem, root, v)
            && Lookup(s'.store.mem, root, v) == PageMeaning(w)
  {
    var s' := WriteSlot(s, x, v, w);
    SlotKeepsTree(s.store.mem, root, s.pos, x, v, w);
    SlotMeaning(s.store.mem, root, s.pos, x, v, w);
    MemoryKeepsPmm(s.store, s'.store.mem);
    forall u: nat | u < PAGES
      ensures Honest(Lookup(s'.store.mem, root, u))
    {
      if u != v {
        assert Honest(Lookup(s.store.mem, root, u));
      }
    }
  }

  // ---- the walk in a sound space ---------------------------------------------------------

  lemma RootOnWalk(s: Space, root: nat, v: nat)
    requires SpaceOk(s, root) && v < PAGES
    ensures OnWalk(s.pos, root, 4, v) && root > 0
  {
    assert TableOk(s.store.mem, root, s.pos, root);
    PrefixRoot(v);
  }

  /// In a sound space walking changes no translation, rights included.
  lemma WalkSound(s: Space, root: nat, v: nat, alloc: bool)
    requires Sound(s, root) && v < PAGES
    ensures var (s', x) := Walk(s, root, 4, v, alloc);
            && WalkPost(s, root, 4, v, alloc, root, s', x)
            && Sound(s', root) && SameLookups(s.store.mem, s'.store.mem, root)
  {
    var (s', x) := Walk(s, root, 4, v, alloc);
    RootOnWalk(s, root, v);
    WalkOk(s, root, 4, v, alloc, root);
    forall u: nat | u < PAGES
      ensures Lookup(s'.store.mem, root, u) == Lookup(s.store.mem, root, u)
    {
      assert Honest(Lookup(s.store.mem, root, u));
      WiderIsSame(s.store.mem, s'.store.mem, root, u);
    }
  }

  // ---- mapping ---------------------------------------------------------------------------

  /// Page v is mapped by an entry of its own, not by a large leaf.
  predicate Small(m: Memory, root: nat, v: nat) {
    var x := TableAt(m, root, v, 1);
    x.Some? && Rd(m, x.value, Index(v, 1)).present
  }

  /// Pages with an entry of their own, page v aside, keep one.
  ghost predicate KeepsSmall(m: Memory, m': Memory, root: nat, v: nat) {
    forall u: nat :: u < PAGES && u != v && Small(m, root, u) ==> Small(m', root, u)
  }

  lemma EntriesKeepSmall(m: Memory, m': Memory, root: nat, pos: Shape, pos': Shape, v: nat)
    requires Tree(m, root, pos) && Tree(m', root, pos')
    requires forall t :: t in pos ==> t in pos' && pos'[t] == pos[t]
    requires forall t, j: nat :: t in pos && pos[t].level == 1 && j < 512 && pos[t].prefix * 512 + j != v
               ==> Rd(m', t, j) == Rd(m, t, j)
    ensures KeepsSmall(m, m', root, v)
  {
    forall u: nat | u < PAGES && u != v && Small(m, root, u)
      ensures Small(m', root, u)
    {
      var x := TableAt(m, root, u, 1).value;
      TreeExact(m, root, pos, u, 1, x);
      TreeExact(m', root, pos', u, 1, x);
      PrefixStep(u, 1);
    }
  }

  /// Mapping keeps a sound space sound. On success exactly page v changes, to the given frame, which is
  /// not frame 0, and rights; on failure no translation changes, and for a frame other than 0 the
  /// allocator is empty.
  lemma MapOk(s: Space, root: nat, v: nat, phys: FrameNo, flags: nat)
    requires Sound(s, root) && v < PAGES
    ensures var (s', ok) := MapIn(s, root, v, phys, flags);
            && Sound(s', root) && Grows(s, s') && OnlyPage(s.store.mem, s'.store.mem, root, v)
            && (ok ==>
                  && phys != 0
                  && Lookup(s'.store.mem, root, v) == PageMeaning(PageWord(phys, flags))
                  && (HasFlag(flags, FLAG_PRESENT) ==> Lookup(s'.store.mem, root, v).value.frame == phys)
                  && (Small(s'.store.mem, root, v) <==> HasFlag(flags, FLAG_PRESENT)))
            && (!ok ==> SameLookups(s.store.mem, s'.store.mem, root) && (phys == 0 || Alloc(s'.store).1 == 0))
            && (phys == 0 ==> s' == s)
  {
    if phys == 0 {
      return;
    }
    WalkSound(s, root, v, true);
    RootOnWalk(s, root, v);
    var (s1, x) := Walk(s, root, 4, v, true);
    if x.Some? {
      var w := PageWord(phys, flags);
      var s' := WriteSlot(s1, x.value, v, w);
      SlotOk(s1, root, x.value, v, w);
      GrowsTransitive(s, s1, s');
      TreeExact(s'.store.mem, root, s'.pos, v, 1, x.value);
    }
  }

  lemma MapKeepsSmall(s: Space, root: nat, v: nat, phys: FrameNo, flags: nat)
    requires Sound(s, root) && v < PAGES
    ensures KeepsSmall(s.store.mem, MapIn(s, root, v, phys, flags).0.store.mem, root, v)
  {
    if phys != 0 && root != 0 {
      WalkKeepsSmall(s, root, v, true);
      var (s1, x) := Walk(s, root, 4, v, true);
      if x.Some? {
        SlotKeepsSmall(s1.store.mem, root, s1.pos, x.value, v, PageWord(phys, flags));
      }
    }
  }

  lemma UnmapKeepsSmall(s: Space, root: nat, v: nat)
    requires Sound(s, root) && v < PAGES
    ensures KeepsSmall(s.store.mem, Unmap(s, root, v).0.store.mem, root, v)
  {
    WalkKeepsSmall(s, root, v, false);
    var (s1, x) := Walk(s, root, 4, v, false);
    if x.Some? {
      SlotKeepsSmall(s1.store.mem, root, s1.pos, x.value, v, ZERO_WORD);
    }
  }

  lemma WalkKeepsSmall(s: Space, root: nat, v: nat, alloc: bool)
    requires Sound(s, root) && v < PAGES
    ensures var (s', x) := Walk(s, root, 4, v, alloc);
            && KeepsSmall(s.store.mem, s'.store.mem, root, v)
            && Tree(s'.store.mem, root, s'.pos) && (x.Some? ==> OnWalk(s'.pos, x.value, 1, v))
  {
    WalkSound(s, root, v, alloc);
    var s' := Walk(s, root, 4, v, alloc).0;
    EntriesKeepSmall(s.store.mem, s'.store.mem, root, s.pos, s'.pos, v);
  }

  lemma SlotKeepsSmall(m: Memory, root: nat, pos: Shape, x: nat, v: nat, w: Word)
    requires Tree(m, root, pos) && OnWalk(pos, x, 1, v)
    ensures KeepsSmall(m, Wr(m, x, Index(v, 1), w), root, v)
  {
    SlotKeepsTree(m, root, pos, x, v, w);
    PrefixStep(v, 1);
    EntriesKeepSmall(m, Wr(m, x, Index(v, 1), w), root, pos, pos, v);
  }

  // ---- unmapping -------------------------------------------------------------------------

  // The walk finds the page table if there is one, and leaves its entries alone.
  lemma UnmapReaches(s: Space, root: nat, v: nat, s1: Space, x: Option<nat>)
    requires Tree(s.store.mem, root, s.pos) && v < PAGES && SameAbove(s, s1, 4)
    requires if x.Some? then OnWalk(s.pos, x.value, 1, v) else NoPageTable(s.pos, v)
    ensures x == TableAt(s.store.mem, root, v, 1)
    ensures x.Some? ==> Rd(s1.store.mem, x.value, Index(v, 1)) == Rd(s.store.mem, x.value, Index(v, 1))
  {
    var at := TableAt(s.store.mem, root, v, 1);
    if at.Some? {
      TreeExact(s.store.mem, root, s.pos, v, 1, at.value);
      assert OnWalk(s.pos, at.value, 1, v);
    }
    if x.Some? {
      TreeExact(s.store.mem, root, s.pos, v, 1, x.value);
    }
  }

  /// Unmapping keeps a sound space sound and builds no table. A page with an entry of its own
  /// loses its translation and its frame is returned; otherwise nothing changes.
  lemma UnmapOk(s: Space, root: nat, v: nat)
    requires Sound(s, root) && v < PAGES
    ensures var (s', f) := Unmap(s, root, v);
            && Sound(s', root) && Grows(s, s') && s'.pos == s.pos
            && OnlyPage(s.store.mem, s'.store.mem, root, v)
            && (f.Some? <==> Small(s.store.mem, root, v))
            && (f.Some? ==>
                  && Lookup(s.store.mem, root, v).Some?
                  && Lookup(s.store.mem, root, v).value.frame == f.value
                  && Lookup(s'.store.mem, root, v) == None)
            && (f.None? ==> SameLookups(s.store.mem, s'.store.mem, root))
  {
    WalkSound(s, root, v, false);
    RootOnWalk(s, root, v);
    var (s1, x) := Walk(s, root, 4, v, false);
    UnmapReaches(s, root, v, s1, x);
    if x.Some? {
      OpenLook(s1.store.mem, root, 4, v, x.value);
      SlotOk(s1, root, x.value, v, ZERO_WORD);
      GrowsTransitive(s, s1, WriteSlot(s1, x.value, v, ZERO_WORD));
    }
  }

  /// Mapping a page and unmapping it again returns the frame and leaves the page unmapped and
  /// every other page as it was.
  lemma MapThenUnmap(s: Space, root: nat, v: nat, phys: FrameNo, flags: nat)
    requires Sound(s, root) && v < PAGES && HasFlag(flags, FLAG_PRESENT)
    requires MapIn(s, root, v, phys, flags).1
    ensures var s1 := MapIn(s, root, v, phys, flags).0;
            var (s2, f) := Unmap(s1, root, v);
            && f == Some(phys)
            && Lookup(s2.store.mem, root, v) == None
            && OnlyPage(s.store.mem, s2.store.mem, root, v)
  {
    MapOk(s, root, v, phys, flags);
    UnmapOk(MapIn(s, root, v, phys, flags).0, root, v);
  }

  lemma FlagBits(flags: nat)
    ensures HasFlag(flags, FLAG_PRESENT) <==> flags / 2 % 2 == 1
    ensures HasFlag(flags, FLAG_WR) <==> flags / 4 % 2 == 1
    ensures HasFlag(flags, FLAG_USER) <==> flags / 8 % 2 == 1
    ensures HasFlag(flags, FLAG_NX) <==> flags / 16 % 2 == 1
    ensures HasFlag(flags, FLAG_PCD) <==> flags / 32 % 2 == 1
    ensures HasFlag(flags, FLAG_PWT) <==> flags / 64 % 2 == 1
  {
    hide And, Pow2;
    assert Pow2(1) == 2 && Pow2(2) == 4 && Pow2(3) == 8 && Pow2(4) == 16 && Pow2(5) == 32
           && Pow2(6) == 64 by { FlagPowers(); }
    AndBit(flags, 1);
    AndBit(flags, 2);
    AndBit(flags, 3);
    AndBit(flags, 4);
    AndBit(flags, 5);
    AndBit(flags, 6);
  }

  lemma FlagPowers()
    ensures Pow2(1) == 2 && Pow2(2) == 4 && Pow2(3) == 8 && Pow2(4) == 16 && Pow2(5) == 32 && Pow2(6) == 64
  {
  }

  /// The rights of a mapped page, all levels taken into account, are those the flags ask for, bit by
  /// bit, and so is its caching.
  lemma MapRights(s: Space, root: nat, v: nat, phys: FrameNo, flags: nat)
    requires Sound(s, root) && v < PAGES && MapIn(s, root, v, phys, flags).1
    ensures var o := Lookup(MapIn(s, root, v, phys, flags).0.store.mem, root, v);
            && (o.Some? <==> flags / 2 % 2 == 1)
            && (o.Some? ==>
                  && o.value.frame == phys
                  && (o.value.write <==> flags / 4 % 2 == 1) && (o.value.user <==> flags / 8 % 2 == 1)
                  && (o.value.execute <==> flags / 16 % 2 == 0)
                  && (o.value.attributes.pcd <==> flags / 32 % 2 == 1)
                    && (o.value.attributes.pwt <==> flags / 64 % 2 == 1)
                  && !o.value.attributes.glob)
  {
    hide HasFlag, MapIn;
    FlagBits(flags);
    MapOk(s, root, v, phys, flags);
  }

  /// The number in the last-level entry of page v.
  function EntryNumber(m: Memory, root: nat, v: nat): Option<U64> {
    match TableAt(m, root, v, 1)
    case None => None
    case Some(t) => Some(Encode(Rd(m, t, Index(v, 1))))
  }

  /// After a map the entry holds the frame's address and the flag bits in their places, and nothing else;
  /// after an unmap it holds 0.
  lemma EntryWritten(s: Space, root: nat, v: nat, phys: FrameNo, flags: nat)
    requires Sound(s, root) && v < PAGES
    ensures var (s', ok) := MapIn(s, root, v, phys, flags);
            ok ==> EntryNumber(s'.store.mem, root, v)
                   == Some(flags / 2 % 2 + 2 * (flags / 4 % 2) + 4 * (flags / 8 % 2) + 8 * (flags / 64 % 2)
                           + 16 * (flags / 32 % 2) + 0x1000 * phys + 0x8000_0000_0000_0000 * (flags / 16 % 2))
    ensures var (s', f) := Unmap(s, root, v);
            f.Some? ==> EntryNumber(s'.store.mem, root, v) == Some(0)
  {
    hide Encode, PageWord, Sound;
    if MapIn(s, root, v, phys, flags).1 {
      SlotHolds(s, root, v, true, PageWord(phys, flags));
      PageNumber(phys, flags);
    }
    if Unmap(s, root, v).1.Some? {
      SlotHolds(s, root, v, false, ZERO_WORD);
      WordNumber(ZERO_WORD);
    }
  }

  // What is written to the slot the walk ends at is the last-level entry of the page.
  lemma SlotHolds(s: Space, root: nat, v: nat, alloc: bool, w: Word)
    requires Sound(s, root) && v < PAGES && root != 0
    ensures var (s1, x) := Walk(s, root, 4, v, alloc);
            x.Some? ==> EntryNumber(WriteSlot(s1, x.value, v, w).store.mem, root, v) == Some(Encode(w))
  {
    hide Encode;
    WalkSound(s, root, v, alloc);
    RootOnWalk(s, root, v);
    var (s1, x) := Walk(s, root, 4, v, alloc);
    if x.Some? {
      SlotOk(s1, root, x.value, v, w);
      TreeExact(WriteSlot(s1, x.value, v, w).store.mem, root, s1.pos, v, 1, x.value);
    }
  }

  lemma PageNumber(phys: FrameNo, flags: nat)
    ensures Encode(PageWord(phys, flags))
            == flags / 2 % 2 + 2 * (flags / 4 % 2) + 4 * (flags / 8 % 2) + 8 * (flags / 64 % 2)
               + 16 * (flags / 32 % 2) + 0x1000 * phys + 0x8000_0000_0000_0000 * (flags / 16 % 2)
  {
    hide Encode, HasFlag;
    FlagBits(flags);
    WordNumber(PageWord(phys, flags));
  }
}
