/// Whole runs of the memory manager, with the translations the processor has cached
/// (Intel SDM volume 3A, section 4.10).

module Runs {
  import opened Words
  import opened PhysicalMemory
  import opened Frames
  import opened Translation
  import opened Paging
  import opened PageMapping

  // ---- changes outside the tables --------------------------------------------------------

  ghost predicate SameTables(m: Memory, m': Memory, pos: Shape) {
    forall t, j: nat :: t in pos && j < 512 ==> Rd(m', t, j) == Rd(m, t, j)
  }

  lemma {:induction false} LookOutside(m: Memory, m': Memory, root: nat, pos: Shape, t: nat, v: nat)
    requires Tree(m, root, pos) && SameTables(m, m', pos) && t in pos
    ensures Look(m', t, pos[t].level, v) == Look(m, t, pos[t].level, v)
    decreases pos[t].level
  {
    var level: nat := pos[t].level;
    var j := Index(v, level);
    assert EntryOk(m, pos, t, j);
    var e := Rd(m, t, j);
    if e.present && !IsLeaf(e, level) {
      LookOutside(m, m', root, pos, e.frame, v);
    }
  }

  /// Memory outside the tables has no say in translation.
  lemma OutsideTables(m: Memory, m': Memory, root: nat, pos: Shape)
    requires Tree(m, root, pos) && SameTables(m, m', pos)
    ensures Tree(m', root, pos)
    ensures forall v: nat :: Lookup(m', root, v) == Lookup(m, root, v)
  {
    forall t, j: nat | t in pos && j < 512
      ensures EntryOk(m', pos, t, j)
    {
      assert EntryOk(m, pos, t, j);
    }
    forall c | c in pos
      ensures TableOk(m', root, pos, c)
    {
      assert TableOk(m, root, pos, c);
    }
    assert TableOk(m, root, pos, root);
    forall v: nat
      ensures Lookup(m', root, v) == Lookup(m, root, v)
    {
      LookOutside(m, m', root, pos, root, v);
    }
  }

  lemma OutsideKeepsSmall(m: Memory, m': Memory, root: nat, pos: Shape)
    requires Tree(m, root, pos) && SameTables(m, m', pos)
    ensures KeepsSmall(m, m', root, PAGES)
  {
    OutsideTables(m, m', root, pos);
    EntriesKeepSmall(m, m', root, pos, pos, PAGES);
  }

  // ---- allocating and freeing data frames ------------------------------------------------

  function Take(s: Space): (Space, nat) {
    var (st, f) := Alloc(s.store);
    (s.(store := st), f)
  }

  /// A frame taken for data leaves every translation alone.
  lemma TakeOk(s: Space, root: nat)
    requires Sound(s, root)
    ensures var (s', f) := Take(s);
            && Sound(s', root) && s'.pos == s.pos && SameLookups(s.store.mem, s'.store.mem, root)
            && (if f == 0 then s' == s else HandsOut(s.store, s'.store, f) && f !in s.pos)
  {
    AllocOk(s.store);
    OutsideTables(s.store.mem, Take(s).0.store.mem, root, s.pos);
  }

  function Give(s: Space, f: nat): Space {
    s.(store := Free(s.store, f))
  }

  /// Giving a data frame back leaves every translation alone.
  lemma GiveOk(s: Space, root: nat, f: nat)
    requires Sound(s, root) && Live(s.store, f) && f !in s.pos
    ensures var s' := Give(s, f);
            && Sound(s', root) && s'.pos == s.pos && SameLookups(s.store.mem, s'.store.mem, root)
            && TakesBack(s.store, s'.store, f)
  {
    FreeOk(s.store, f);
    OutsideTables(s.store.mem, Give(s, f).store.mem, root, s.pos);
  }

  /// One word written outside the tables.
  function Put(s: Space, f: nat, i: nat, w: Word): Space {
    s.(store := s.store.(mem := Wr(s.store.mem, f, i, w)))
  }

  /// It leaves every translation alone.
  lemma PutOk(s: Space, root: nat, f: nat, i: nat, w: Word)
    requires Sound(s, root) && f !in s.pos && f !in s.store.list
    ensures var s' := Put(s, f, i, w);
            Sound(s', root) && s'.pos == s.pos && SameLookups(s.store.mem, s'.store.mem, root)
    ensures forall g :: Live(Put(s, f, i, w).store, g) <==> Live(s.store, g)
  {
    MemoryKeepsPmm(s.store, Put(s, f, i, w).store.mem);
    OutsideTables(s.store.mem, Put(s, f, i, w).store.mem, root, s.pos);
  }

  // ---- the TLB ---------------------------------------------------------------------------

  /// A cached translation: `span` pages from page `first`, onto frames from mapping.frame.
  datatype Cached = Cached(first: nat, span: nat, mapping: Mapping)

  predicate Covers(c: Cached, v: nat) { c.first <= v < c.first + c.span }

  /// What the processor uses for page v while c is cached.
  function CachedMapping(c: Cached, v: nat): Mapping
    requires Covers(c, v)
  {
    c.mapping.(frame := c.mapping.frame + (v - c.first))
  }

  ghost predicate Agrees(c: Cached, m: Memory, root: nat) {
    forall v: nat :: v < PAGES && Covers(c, v) ==> Lookup(m, root, v) == Some(CachedMapping(c, v))
  }

  ghost predicate Coherent(tlb: set<Cached>, m: Memory, root: nat) {
    forall c :: c in tlb ==> Agrees(c, m, root)
  }

  /// hal_invl_tlb: every cached translation that covers the page is dropped.
  function Invalidate(tlb: set<Cached>, v: nat): set<Cached> {
    set c | c in tlb && !Covers(c, v)
  }

  /// One invalidation is enough when only one page changed, however large the cached pages are.
  lemma InvalidateCoheres(tlb: set<Cached>, m: Memory, m': Memory, root: nat, v: nat)
    requires Coherent(tlb, m, root) && OnlyPage(m, m', root, v)
    ensures Coherent(Invalidate(tlb, v), m', root)
  {
    forall c | c in Invalidate(tlb, v)
      ensures Agrees(c, m', root)
    {
      assert Agrees(c, m, root);
    }
  }

  lemma SameCoheres(tlb: set<Cached>, m: Memory, m': Memory, root: nat)
    requires Coherent(tlb, m, root) && SameLookups(m, m', root)
    ensures Coherent(tlb, m', root)
  {
    forall c | c in tlb
      ensures Agrees(c, m', root)
    {
      assert Agrees(c, m, root);
    }
  }

  // ---- runs ------------------------------------------------------------------------------

  datatype Machine = Machine(space: Space, tlb: set<Cached>)

  datatype Op =
    | MapPage(v: nat, phys: FrameNo, flags: nat)
    | UnmapPage(v: nat)
    | TakeFrame
    | GiveFrame(f: nat)
    | StoreWord(f: nat, i: nat, w: Word)
    | CacheFill(c: Cached)  // the processor may cache any translation the tables hold
    | CacheDrop(c: Cached)  // and forget it again

  /// Callers name pages of the address space, give back only data frames that are handed out, write
  /// neither to tables nor to free frames, and the processor caches only what the tables say.
  ghost predicate Allowed(c: Machine, root: nat, op: Op) {
    match op
    case MapPage(v, phys, _) => v < PAGES
    case UnmapPage(v) => v < PAGES
    case TakeFrame => true
    case GiveFrame(f) => Live(c.space.store, f) && f !in c.space.pos
    case StoreWord(f, i, _) => i < 512 && f !in c.space.pos && f !in c.space.store.list
    case CacheFill(e) => Agrees(e, c.space.store.mem, root)
    case CacheDrop(_) => true
  }

  function Step(c: Machine, root: nat, op: Op): Machine {
    match op
    case MapPage(v, phys, flags) =>
      var (s, ok) := MapIn(c.space, root, v, phys, flags);
      Machine(s, if ok then Invalidate(c.tlb, v) else c.tlb)
    case UnmapPage(v) =>
      var (s, f) := Unmap(c.space, root, v);
      Machine(s, if f.Some? then Invalidate(c.tlb, v) else c.tlb)
    case TakeFrame => c.(space := Take(c.space).0)
    case GiveFrame(f) => c.(space := Give(c.space, f))
    case StoreWord(f, i, w) => c.(space := Put(c.space, f, i, w))
    case CacheFill(e) => c.(tlb := c.tlb + {e})
    case CacheDrop(e) => c.(tlb := c.tlb - {e})
  }

  /// Sound tables with honest leaves, an allocator in balance, and a TLB that agrees with both.
  ghost predicate Good(c: Machine, root: nat) {
    Sound(c.space, root) && Coherent(c.tlb, c.space.store.mem, root)
  }

  ghost predicate SameRegion(c: Machine, c': Machine) {
    c'.space.store.pmm.base == c.space.store.pmm.base && c'.space.store.pmm.end == c.space.store.pmm.end
  }

  lemma StepKeepsGood(c: Machine, root: nat, op: Op)
    requires Good(c, root) && Allowed(c, root, op)
    ensures var c' := Step(c, root, op); Good(c', root) && SameRegion(c, c')
  {
    var c' := Step(c, root, op);
    var m, m' := c.space.store.mem, c'.space.store.mem;
    match op
    case MapPage(v, phys, flags) =>
      if phys != 0 {
        MapOk(c.space, root, v, phys, flags);
        if MapIn(c.space, root, v, phys, flags).1 {
          InvalidateCoheres(c.tlb, m, m', root, v);
        } else {
          SameCoheres(c.tlb, m, m', root);
        }
      }
    case UnmapPage(v) =>
      RootOnWalk(c.space, root, v);
      UnmapOk(c.space, root, v);
      if Unmap(c.space, root, v).1.Some? {
        InvalidateCoheres(c.tlb, m, m', root, v);
      } else {
        SameCoheres(c.tlb, m, m', root);
      }
    case TakeFrame =>
      TakeOk(c.space, root);
      SameCoheres(c.tlb, m, m', root);
    case GiveFrame(f) =>
      GiveOk(c.space, root, f);
      SameCoheres(c.tlb, m, m', root);
    case StoreWord(f, i, w) =>
      PutOk(c.space, root, f, i, w);
      SameCoheres(c.tlb, m, m', root);
    case CacheFill(e) =>
    case CacheDrop(e) =>
  }

  /// c' is reached from c by the operations, each of them allowed when it is made.
  ghost predicate Reaches(c: Machine, root: nat, ops: seq<Op>, c': Machine)
    decreases |ops|
  {
    if ops == [] then c' == c
    else
      && Allowed(c, root, ops[0])
      && Reaches(Step(c, root, ops[0]), root, ops[1..], c')
  }

  /// Runs can be joined.
  lemma {:induction false} ReachesJoined(c: Machine, root: nat, ops: seq<Op>, c1: Machine, more: seq<Op>, c': Machine)
    requires Reaches(c, root, ops, c1) && Reaches(c1, root, more, c')
    ensures Reaches(c, root, ops + more, c')
    decreases |ops|
  {
    if ops == [] {
      assert ops + more == more;
    } else {
      assert (ops + more)[0] == ops[0] && (ops + more)[1..] == ops[1..] + more;
      ReachesJoined(Step(c, root, ops[0]), root, ops[1..], c1, more, c');
    }
  }

  /// In every reachable state the tables form a tree of handed-out frames, every leaf carries the
  /// real policy, the TLB agrees with the tables, and no frame has been lost or duplicated.
  lemma {:induction false} RunsStayGood(c: Machine, root: nat, ops: seq<Op>, c': Machine)
    requires Good(c, root) && Reaches(c, root, ops, c')
    ensures Good(c', root) && SameRegion(c, c')
    ensures c'.space.store.pmm.free + c'.space.store.pmm.used == c.space.store.pmm.free + c.space.store.pmm.used
    decreases |ops|
  {
    if ops != [] {
      StepKeepsGood(c, root, ops[0]);
      RunsStayGood(Step(c, root, ops[0]), root, ops[1..], c');
    }
  }

  /// Entry i of table p points to the table t.
  ghost predicate PointsTo(s: Space, p: nat, i: nat, t: nat) {
    && p in s.pos && s.pos[p].level > 1 && i < 512
    && var e := Rd(s.store.mem, p, i); e.present && !e.pat && e.frame == t
  }

  /// Every table that some walk reaches is a frame handed out by the allocator, not on the free
  /// list, and exactly one entry points to it: none to the root.
  lemma TablesOwned(s: Space, root: nat, v: nat, level: nat, t: nat)
    requires Sound(s, root) && v < PAGES && 1 <= level <= 4 && TableAt(s.store.mem, root, v, level) == Some(t)
    ensures Live(s.store, t) && t !in s.store.list && s.store.pmm.base <= t < s.store.pmm.cursor && 0 < t < FRAMES
    ensures t == root ==> forall p, i: nat :: !PointsTo(s, p, i, t)
    ensures t != root ==> exists p, i: nat :: PointsTo(s, p, i, t)
    ensures forall p, i: nat, p', i': nat :: PointsTo(s, p, i, t) && PointsTo(s, p', i', t) ==> p == p' && i == i'
  {
    TreeExact(s.store.mem, root, s.pos, v, level, t);
    assert TableOk(s.store.mem, root, s.pos, t);
    if t != root {
      assert PointsTo(s, s.pos[t].parent, s.pos[t].prefix % 512, t);
    }
    forall p, i: nat, p', i': nat | PointsTo(s, p, i, t) && PointsTo(s, p', i', t)
      ensures p == p' && i == i' && t != root
    {
      ReferencedOnce(s.store.mem, root, s.pos, p, i, p', i');
    }
  }
}
