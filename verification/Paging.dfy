/// Walking, mapping and unmapping (HALKit/AMD64/HalPagingMgr.cpp), as functions on states.

module Paging {
  import opened Bits
  import opened Words
  import opened PhysicalMemory
  import opened Frames
  import opened Translation

  /// The allocator with its memory, and the shape of the tree of tables.
  datatype Space = Space(store: Store, pos: Shape)

  /// Allocator and tree are sound and every table is a frame the allocator has handed out.
  ghost predicate SpaceOk(s: Space, root: nat) {
    && PmmOk(s.store)
    && Tree(s.store.mem, root, s.pos)
    && forall t :: t in s.pos ==> Live(s.store, t)
  }

  /// s' was reached from s by building tables only: the frames handed out since are new tables,
  /// and the frames that were handed out before, tables aside, keep their content.
  ghost predicate Grows(s: Space, s': Space) {
    && (forall t {:trigger t in s'.pos} {:trigger t in s.pos} :: t in s.pos ==> t in s'.pos && s'.pos[t] == s.pos[t])
    && (forall f :: Live(s'.store, f) <==> Live(s.store, f) || (f in s'.pos && f !in s.pos))
    && (forall f :: f in s'.pos && f !in s.pos ==> !Live(s.store, f))
    && (forall f, i: nat :: Live(s.store, f) && f !in s.pos ==> Rd(s'.store.mem, f, i) == Rd(s.store.mem, f, i))
    && s'.store.pmm.used - s.store.pmm.used == |s'.pos| - |s.pos|
    && s'.store.pmm.base == s.store.pmm.base && s'.store.pmm.end == s.store.pmm.end
  }

  lemma GrowsTransitive(a: Space, b: Space, c: Space)
    requires Grows(a, b) && Grows(b, c)
    ensures Grows(a, c)
  {
  }

  // ---- one level of mm_walk_page ---------------------------------------------------------

  /// The 512 entries that replace the large leaf e.
  function SplitWords(e: Word, level: nat): (ws: seq<Word>)
    requires 2 <= level <= 4
    ensures |ws| == 512
  {
    seq(512, i requires 0 <= i < 512 => SplitWord(e, level, i))
  }

  function FillSplit(m: Memory, f: nat, e: Word, level: nat): Memory
    requires 2 <= level <= 4
  {
    FillWords(m, f, SplitWords(e, level))
  }

  /// Fill the fresh frame f from the entry it replaces and point that entry at it.
  function LinkTable(s: Space, st: Store, f: FrameNo, t: nat, level: nat, v: nat): Space
    requires 2 <= level <= 4
  {
    var i := Index(v, level);
    var e := Rd(s.store.mem, t, i);
    var m := if e.present then FillSplit(st.mem, f, e, level) else st.mem;
    Space(st.(mem := Wr(m, t, i, TableWord(f, true))), s.pos[f := Pos(level - 1, Prefix(v, level - 1), t)])
  }

  function Permissive(e: Word): Word {
    e.(present := true, wr := true, user := true)
  }

  /// The table below entry Index(v, level) of t, created or split off a large leaf if need be.
  function Descend(s: Space, t: nat, level: nat, v: nat, alloc: bool): (Space, Option<nat>)
    requires 2 <= level <= 4
  {
    var i := Index(v, level);
    var e := Rd(s.store.mem, t, i);
    if e.present && !e.pat then
      (s.(store := s.store.(mem := Wr(s.store.mem, t, i, Permissive(e)))), Some(e.frame))
    else if !alloc then
      (s, None)
    else
      var (st, f) := Alloc(s.store);
      if f == 0 || f >= FRAMES then (Space(st, s.pos), None)
      else
        (LinkTable(s, st, f, t, level, v), Some(f))
  }

  /// mm_walk_page from table t down to the page table of v.
  function Walk(s: Space, t: nat, level: nat, v: nat, alloc: bool): (Space, Option<nat>)
    requires level <= 4
    decreases level, v
  {
    if level <= 1 then (s, Some(t))
    else
      var (s1, c) := Descend(s, t, level, v, alloc);
      if c == None then (s1, None) else Walk(s1, c.value, level - 1, v, alloc)
  }

  // ---- widening an entry -----------------------------------------------------------------

  lemma WidenKeepsTree(m: Memory, root: nat, pos: Shape, x: nat, i: nat)
    requires Tree(m, root, pos) && x in pos && i < 512 && pos[x].level > 1
    requires Rd(m, x, i).present && !Rd(m, x, i).pat
    ensures Tree(Wr(m, x, i, Permissive(Rd(m, x, i))), root, pos)
  {
    var e := Rd(m, x, i);
    var m' := Wr(m, x, i, Permissive(e));
    forall t, j: nat | t in pos && j < 512
      ensures EntryOk(m', pos, t, j)
    {
      assert EntryOk(m, pos, t, j);
    }
    forall c | c in pos
      ensures TableOk(m', root, pos, c)
    {
      assert TableOk(m, root, pos, c);
    }
  }

  lemma WidenKeepsMeaning(m: Memory, root: nat, pos: Shape, x: nat, i: nat, v: nat)
    requires Tree(m, root, pos) && x in pos && i < 512 && pos[x].level > 1
    requires Rd(m, x, i).present && !Rd(m, x, i).pat
    ensures Wider(Lookup(m, root, v), Lookup(Wr(m, x, i, Permissive(Rd(m, x, i))), root, v))
  {
    var e := Rd(m, x, i);
    var m' := Wr(m, x, i, Permissive(e));
    assert TableOk(m, root, pos, root) && EntryOk(m, pos, x, i);
    LookBelow(m, m', root, pos, x, i, e.frame, v);
    LookAbove(m, m', root, pos, x, i, root, v);
  }

  // ---- linking a new table ---------------------------------------------------------------

  predicate IsTableWord(w: Word, c: nat) {
    w.frame == c && (w == TableWord(w.frame, true) || w == TableWord(w.frame, false))
  }

  /// Table c can take the place of entry i of table x: it is new, the entry was no table, and
  /// its own entries are absent or leaves.
  ghost predicate CanLink(m: Memory, m': Memory, pos: Shape, x: nat, i: nat, c: nat) {
    && x in pos && i < 512 && pos[x].level > 1
    && c !in pos && 0 < c < FRAMES
    && (Rd(m, x, i).present ==> Rd(m, x, i).pat)
    && SameEntries(m, m', pos, x, i)
    && IsTableWord(Rd(m', x, i), c)
    && (forall j: nat | j < 512 :: Rd(m', c, j).present ==> IsLeaf(Rd(m', c, j), pos[x].level - 1))
  }

  function LinkedShape(pos: Shape, x: nat, i: nat, c: nat): Shape
    requires x in pos && pos[x].level > 1
  {
    pos[c := Pos(pos[x].level - 1, pos[x].prefix * 512 + i, x)]
  }

  lemma LinkKeepsTree(m: Memory, m': Memory, root: nat, pos: Shape, x: nat, i: nat, c: nat)
    requires Tree(m, root, pos) && CanLink(m, m', pos, x, i, c)
    ensures Tree(m', root, LinkedShape(pos, x, i, c))
  {
    var pos' := LinkedShape(pos, x, i, c);
    forall t, j: nat | t in pos' && j < 512
      ensures EntryOk(m', pos', t, j)
    {
      if t != c {
        assert EntryOk(m, pos, t, j);
      }
    }
    forall t | t in pos'
      ensures TableOk(m', root, pos', t)
    {
      assert TableOk(m, root, pos, x);
      if t != c {
        assert TableOk(m, root, pos, t);
      }
    }
  }

  lemma LinkKeepsMeaning(m: Memory, m': Memory, root: nat, pos: Shape, x: nat, i: nat, c: nat, v: nat)
    requires Tree(m, root, pos) && CanLink(m, m', pos, x, i, c)
    requires Index(v, pos[x].level) == i ==> Wider(Look(m, x, pos[x].level, v), Look(m', x, pos[x].level, v))
    ensures Wider(Lookup(m, root, v), Lookup(m', root, v))
  {
    assert TableOk(m, root, pos, root);
    LookAbove(m, m', root, pos, x, i, root, v);
  }

  // A zeroed table below an absent entry maps nothing either.
  lemma EmptyTableMeaning(m: Memory, m': Memory, pos: Shape, x: nat, i: nat, c: nat, v: nat)
    requires CanLink(m, m', pos, x, i, c) && !Rd(m, x, i).present && Index(v, pos[x].level) == i
    requires forall j: nat | j < 512 :: Rd(m', c, j) == ZERO_WORD
    ensures Look(m, x, pos[x].level, v) == None == Look(m', x, pos[x].level, v)
  {
    var level := pos[x].level;
    assert Rd(m', c, Index(v, level - 1)) == ZERO_WORD;
  }

  // The pieces of a split leaf map every page as the whole did.
  lemma SplitMeaning(m: Memory, m': Memory, pos: Shape, x: nat, i: nat, c: nat, v: nat)
    requires CanLink(m, m', pos, x, i, c) && Rd(m, x, i).present && pos[x].level <= 3
    requires Index(v, pos[x].level) == i && Rd(m', x, i) == TableWord(c, true)
    requires forall j: nat | j < 512 :: Rd(m', c, j) == SplitWord(Rd(m, x, i), pos[x].level, j)
    ensures Wider(Look(m, x, pos[x].level, v), Look(m', x, pos[x].level, v))
  {
    var level := pos[x].level;
    var e := Rd(m, x, i);
    var j := Index(v, level - 1);
    SplitFrame(e, level, v);
    var piece := SplitWord(e, level, j);
    assert Rd(m', c, j) == piece && piece.present && IsLeaf(piece, level - 1);
    assert Look(m', c, level - 1, v) == Some(LeafMapping(piece, level - 1, v));
    assert Look(m', x, level, v) == Through(TableWord(c, true), Look(m', c, level - 1, v));
  }

  lemma SplitFrame(e: Word, level: nat, v: nat)
    requires level == 2 || level == 3
    ensures LeafFrame(SplitWord(e, level, Index(v, level - 1)), level - 1, v) == LeafFrame(e, level, v)
  {
    assert Prefix(v, 1) == v / 512;
    if level == 3 {
      GiBParts(e.frame, v, e.frame / 0x4_0000, v / 512, Index(v, 2));
    }
  }

  lemma GiBParts(f: nat, v: nat, k: nat, p: nat, i: nat)
    requires k == f / 0x4_0000 && p == v / 512 && i == p % 512
    ensures f - f % 0x4_0000 == 0x4_0000 * k && (0x4_0000 * k + i * 512) % 512 == 0
    ensures v % 0x4_0000 == i * 512 + v % 512
  {
    ModUnique(0x4_0000 * k + i * 512, 512, 512 * k + i, 0);
    ModUnique(v, 0x4_0000, p / 512, i * 512 + v % 512);
  }

  // ---- one level -------------------------------------------------------------------------

  /// t is the table at a level of the walk for page v.
  predicate OnWalk(pos: Shape, t: nat, level: nat, v: nat) {
    t in pos && pos[t].level == level && pos[t].prefix == Prefix(v, level)
  }

  /// The entry leads to table c and lets every right through.
  predicate LeadsTo(e: Word, c: nat) {
    IsTableEntry(e) && e.user && e.frame == c
  }

  /// No page table holds an entry for page v.
  ghost predicate NoPageTable(pos: Shape, v: nat) {
    forall c :: !OnWalk(pos, c, 1, v)
  }

  ghost predicate SameMeaning(s: Space, s': Space, root: nat) {
    forall v: nat :: Wider(Lookup(s.store.mem, root, v), Lookup(s'.store.mem, root, v))
  }

  /// What one level of the walk guarantees.
  ghost predicate DescendPost(s: Space, t: nat, level: nat, v: nat, alloc: bool, root: nat, s': Space, c: Option<nat>)
    requires level > 1
  {
    && SpaceOk(s', root) && Grows(s, s') && SameMeaning(s, s', root)
    && SameEntries(s.store.mem, s'.store.mem, s.pos, t, Index(v, level))
    && (c.None? ==> s' == s)
    && (c.Some? ==> OnWalk(s'.pos, c.value, level - 1, v) && LeadsTo(Rd(s'.store.mem, t, Index(v, level)), c.value))
    && (c.None? && !alloc ==> NoPageTable(s.pos, v))
    && (c.None? && alloc ==> Alloc(s.store).1 == 0)
    && (!alloc ==> s'.pos == s.pos)
  }

  lemma DescendOk(s: Space, t: nat, level: nat, v: nat, alloc: bool, root: nat)
    requires SpaceOk(s, root) && OnWalk(s.pos, t, level, v) && 2 <= level <= 4 && v < PAGES
    ensures var (s', c) := Descend(s, t, level, v, alloc); DescendPost(s, t, level, v, alloc, root, s', c)
  {
    var i := Index(v, level);
    var e := Rd(s.store.mem, t, i);
    PrefixStep(v, level);
    assert EntryOk(s.store.mem, s.pos, t, i);
    if e.present && !e.pat {
      DescendWiden(s, t, level, v, alloc, root);
    } else if !alloc {
      DeadEnd(s.store.mem, root, s.pos, t, level, v);
    } else {
      AllocOk(s.store);
      if Alloc(s.store).1 != 0 {
        DescendLink(s, t, level, v, root);
      }
    }
  }

  // A walk that stops above the page tables has no page table to reach.
  lemma DeadEnd(m: Memory, root: nat, pos: Shape, t: nat, level: nat, v: nat)
    requires Tree(m, root, pos) && OnWalk(pos, t, level, v) && 2 <= level <= 4 && v < PAGES
    requires var e := Rd(m, t, Index(v, level)); !e.present || IsLeaf(e, level)
    ensures NoPageTable(pos, v)
  {
    TreeExact(m, root, pos, v, level, t);
    assert TableAt(m, root, v, level - 1) == None;
    assert TableAt(m, root, v, 1) == None by {
      if level == 4 {
        assert TableAt(m, root, v, 2) == None;
      }
    }
    forall c
      ensures !OnWalk(pos, c, 1, v)
    {
      TreeExact(m, root, pos, v, 1, c);
    }
  }

  lemma DescendWiden(s: Space, t: nat, level: nat, v: nat, alloc: bool, root: nat)
    requires SpaceOk(s, root) && OnWalk(s.pos, t, level, v) && 2 <= level <= 4 && v < PAGES
    requires var e := Rd(s.store.mem, t, Index(v, level)); e.present && !e.pat
    ensures var (s', c) := Descend(s, t, level, v, alloc); DescendPost(s, t, level, v, alloc, root, s', c)
  {
    var i := Index(v, level);
    var (s', c) := Descend(s, t, level, v, alloc);
    assert EntryOk(s.store.mem, s.pos, t, i);
    PrefixStep(v, level);
    WidenKeepsTree(s.store.mem, root, s.pos, t, i);
    MemoryKeepsPmm(s.store, s'.store.mem);
    forall u: nat
      ensures Wider(Lookup(s.store.mem, root, u), Lookup(s'.store.mem, root, u))
    {
      WidenKeepsMeaning(s.store.mem, root, s.pos, t, i, u);
    }
  }

  lemma DescendLink(s: Space, t: nat, level: nat, v: nat, root: nat)
    requires SpaceOk(s, root) && OnWalk(s.pos, t, level, v) && 2 <= level <= 4 && v < PAGES
    requires var e := Rd(s.store.mem, t, Index(v, level)); e.present ==> e.pat
    requires Alloc(s.store).1 != 0
    ensures var (s', c) := Descend(s, t, level, v, true); DescendPost(s, t, level, v, true, root, s', c)
  {
    var i := Index(v, level);
    var (st, f) := Alloc(s.store);
    AllocOk(s.store);
    assert EntryOk(s.store.mem, s.pos, t, i);
    var s' := LinkTable(s, st, f, t, level, v);
    FreshTable(s, st, f, t, level, v);
    LinkTableFresh(s, st, f, t, level, v);
    LinkedSpace(s, s', st, t, i, f, root);
    LinkedMeaning(s, s', t, i, f, root, Rd(s.store.mem, t, i));
  }

  lemma LinkTableFresh(s: Space, st: Store, f: nat, t: nat, level: nat, v: nat)
    requires OnWalk(s.pos, t, level, v) && 2 <= level <= 4 && 0 < f < FRAMES && f !in s.pos
    requires HandsOut(s.store, st, f) && PmmOk(st)
    requires var e := Rd(s.store.mem, t, Index(v, level)); e.present ==> e.pat && level <= 3
    ensures LinksFresh(s, LinkTable(s, st, f, t, level, v), st, t, Index(v, level), f)
    ensures OnWalk(LinkTable(s, st, f, t, level, v).pos, f, level - 1, v)
  {
    var i := Index(v, level);
    var s' := LinkTable(s, st, f, t, level, v);
    FreshTable(s, st, f, t, level, v);
    FreshCanLink(s.store.mem, s'.store.mem, s.pos, t, i, f, Rd(s.store.mem, t, i));
    PrefixStep(v, level);
    assert s'.pos == LinkedShape(s.pos, t, i, f);
  }

  lemma FreshCanLink(m: Memory, m': Memory, pos: Shape, t: nat, i: nat, f: nat, e: Word)
    requires t in pos && i < 512 && pos[t].level > 1 && f !in pos && 0 < f < FRAMES
    requires e == Rd(m, t, i) && (e.present ==> e.pat && pos[t].level <= 3)
    requires Rd(m', t, i) == TableWord(f, true)
    requires forall j: nat | j < 512 :: Rd(m', f, j) == if e.present then SplitWord(e, pos[t].level, j) else ZERO_WORD
    requires forall g, j: nat | g != f && (g != t || j != i) :: Rd(m', g, j) == Rd(m, g, j)
    ensures CanLink(m, m', pos, t, i, f)
  {
  }

  /// s' is s with the freshly allocated frame f linked as entry i of table t.
  ghost predicate LinksFresh(s: Space, s': Space, st: Store, t: nat, i: nat, f: nat) {
    && HandsOut(s.store, st, f) && PmmOk(st)
    && s'.store == st.(mem := s'.store.mem)
    && CanLink(s.store.mem, s'.store.mem, s.pos, t, i, f)
    && s'.pos == LinkedShape(s.pos, t, i, f)
    && (forall g, j: nat | g != f && (g != t || j != i) :: Rd(s'.store.mem, g, j) == Rd(s.store.mem, g, j))
  }

  lemma LinkedSpace(s: Space, s': Space, st: Store, t: nat, i: nat, f: nat, root: nat)
    requires SpaceOk(s, root) && LinksFresh(s, s', st, t, i, f)
    ensures SpaceOk(s', root) && Grows(s, s')
  {
    assert SameExcept(s.store.mem, st.mem, f);
    forall g | g in st.list
      ensures Rd(s'.store.mem, g, 0) == Rd(st.mem, g, 0)
    {
      assert !Live(st, g);
      assert g != t by { assert Live(s.store, t); }
    }
    MemoryKeepsPmm(st, s'.store.mem);
    LinkKeepsTree(s.store.mem, s'.store.mem, root, s.pos, t, i, f);
    assert |s'.pos| == |s.pos| + 1 by {
      assert s'.pos.Keys == s.pos.Keys + {f};
    }
  }

  lemma LinkedMeaning(s: Space, s': Space, t: nat, i: nat, f: nat, root: nat, e: Word)
    requires SpaceOk(s, root) && CanLink(s.store.mem, s'.store.mem, s.pos, t, i, f) && e == Rd(s.store.mem, t, i)
    requires Rd(s'.store.mem, t, i) == TableWord(f, true)
    requires e.present ==> s.pos[t].level <= 3
    requires forall j: nat | j < 512 ::
               Rd(s'.store.mem, f, j) == if e.present then SplitWord(e, s.pos[t].level, j) else ZERO_WORD
    ensures SameMeaning(s, s', root)
  {
    var m, m' := s.store.mem, s'.store.mem;
    forall u: nat
      ensures Wider(Lookup(m, root, u), Lookup(m', root, u))
    {
      if Index(u, s.pos[t].level) == i {
        if e.present {
          SplitMeaning(m, m', s.pos, t, i, f, u);
        } else {
          EmptyTableMeaning(m, m', s.pos, t, i, f, u);
        }
      }
      LinkKeepsMeaning(m, m', root, s.pos, t, i, f, u);
    }
  }

  /// What memory holds once frame f has been filled and linked.
  lemma FreshTable(s: Space, st: Store, f: nat, t: nat, level: nat, v: nat)
    requires HandsOut(s.store, st, f) && 2 <= level <= 4 && t != f && f < FRAMES
    ensures var m, m', i := s.store.mem, LinkTable(s, st, f, t, level, v).store.mem, Index(v, level);
            && Rd(m', t, i) == TableWord(f, true)
            && (forall j: nat | j < 512 ::
                  Rd(m', f, j) == if Rd(m, t, i).present then SplitWord(Rd(m, t, i), level, j) else ZERO_WORD)
            && (forall g, j: nat | g != f && (g != t || j != i) :: Rd(m', g, j) == Rd(m, g, j))
  {
    var e := Rd(s.store.mem, t, Index(v, level));
    var m' := LinkTable(s, st, f, t, level, v).store.mem;
    forall j: nat | j < 512
      ensures Rd(m', f, j) == if e.present then SplitWord(e, level, j) else ZERO_WORD
    {
      if e.present {
        FillSplitReads(st.mem, f, e, level, j);
      } else {
        assert Rd(st.mem, f, j) == ZERO_WORD;
      }
    }
  }

  lemma FillSplitReads(m: Memory, f: nat, e: Word, level: nat, j: nat)
    requires 2 <= level <= 4 && j < 512
    ensures Rd(FillSplit(m, f, e, level), f, j) == SplitWord(e, level, j)
  {
    FillWordsReads(m, f, SplitWords(e, level));
  }

  /// Changing frames that are not on the free list does not disturb it.
  lemma MemoryKeepsPmm(s: Store, m: Memory)
    requires PmmOk(s)
    requires forall f | f in s.list :: Rd(m, f, 0) == Rd(s.mem, f, 0)
    ensures PmmOk(s.(mem := m))
    ensures forall f :: Live(s.(mem := m), f) <==> Live(s, f)
  {
    LinkedSame(s.mem, m, s.list);
  }

  // ---- the whole walk --------------------------------------------------------------------

  /// Every entry from t down to page table x lets every right through.
  predicate Open(m: Memory, t: nat, level: nat, v: nat, x: nat)
    decreases level, v
  {
    if level <= 1 then t == x
    else
      var e := Rd(m, t, Index(v, level));
      LeadsTo(e, e.frame) && Open(m, e.frame, level - 1, v, x)
  }

  /// Tables above a level are untouched, and so are the page tables.
  ghost predicate SameAbove(s: Space, s': Space, level: nat) {
    forall t, j: nat :: t in s.pos && (s.pos[t].level > level || s.pos[t].level == 1) && j < 512
      ==> Rd(s'.store.mem, t, j) == Rd(s.store.mem, t, j)
  }

  ghost predicate WalkPost(s: Space, t: nat, level: nat, v: nat, alloc: bool, root: nat, s': Space, r: Option<nat>) {
    && SpaceOk(s', root) && Grows(s, s') && SameMeaning(s, s', root) && SameAbove(s, s', level)
    && (r.Some? ==> OnWalk(s'.pos, r.value, 1, v) && Open(s'.store.mem, t, level, v, r.value))
    && (r.None? && !alloc ==> NoPageTable(s.pos, v))
    && (r.None? && alloc ==> Alloc(s'.store).1 == 0)
    && (!alloc ==> s'.pos == s.pos)
  }

  /// Walking never changes what any address means, whether it succeeds or runs out of frames
  /// half way, and leaves a sound tree behind.
  lemma {:induction false} WalkOk(s: Space, t: nat, level: nat, v: nat, alloc: bool, root: nat)
    requires SpaceOk(s, root) && OnWalk(s.pos, t, level, v) && 1 <= level <= 4 && v < PAGES
    ensures var (s', r) := Walk(s, t, level, v, alloc); WalkPost(s, t, level, v, alloc, root, s', r)
    decreases level
  {
    if level == 1 {
      WalkHere(s, t, v, alloc, root);
    } else {
      DescendOk(s, t, level, v, alloc, root);
      var (s1, c) := Descend(s, t, level, v, alloc);
      if c.None? {
        WalkStops(s, t, level, v, alloc, root, s1);
      } else {
        WalkContinues(s, t, level, v, alloc, root, s1, c.value);
      }
    }
  }

  lemma {:induction false} WalkContinues(s: Space, t: nat, level: nat, v: nat, alloc: bool, root: nat, s1: Space,
                                         c: nat)
    requires OnWalk(s.pos, t, level, v) && 2 <= level <= 4 && v < PAGES
    requires SpaceOk(s1, root) && OnWalk(s1.pos, c, level - 1, v)
    requires DescendPost(s, t, level, v, alloc, root, s1, Some(c))
    ensures var (s', r) := Walk(s1, c, level - 1, v, alloc); WalkPost(s, t, level, v, alloc, root, s', r)
    decreases level, 0
  {
    WalkOk(s1, c, level - 1, v, alloc, root);
    var (s', r) := Walk(s1, c, level - 1, v, alloc);
    WalkStep(s, s1, s', t, level, v, alloc, root, c, r);
  }

  lemma WalkStep(s: Space, s1: Space, s': Space, t: nat, level: nat, v: nat, alloc: bool, root: nat, c: nat,
                 r: Option<nat>)
    requires OnWalk(s.pos, t, level, v) && 2 <= level <= 4
    requires DescendPost(s, t, level, v, alloc, root, s1, Some(c))
    requires WalkPost(s1, c, level - 1, v, alloc, root, s', r)
    ensures WalkPost(s, t, level, v, alloc, root, s', r)
  {
    GrowsTransitive(s, s1, s');
    MeaningTransitive(s, s1, s', root);
    AboveTransitive(s, s1, s', t, level, v, c);
  }

  lemma WalkHere(s: Space, t: nat, v: nat, alloc: bool, root: nat)
    requires SpaceOk(s, root) && OnWalk(s.pos, t, 1, v)
    ensures WalkPost(s, t, 1, v, alloc, root, s, Some(t))
  {
  }

  lemma WalkStops(s: Space, t: nat, level: nat, v: nat, alloc: bool, root: nat, s1: Space)
    requires level > 1 && DescendPost(s, t, level, v, alloc, root, s1, None)
    ensures WalkPost(s, t, level, v, alloc, root, s1, None)
  {
  }

  lemma MeaningTransitive(s: Space, s1: Space, s': Space, root: nat)
    requires SameMeaning(s, s1, root) && SameMeaning(s1, s', root)
    ensures SameMeaning(s, s', root)
  {
    forall u: nat
      ensures Wider(Lookup(s.store.mem, root, u), Lookup(s'.store.mem, root, u))
    {
      assert Wider(Lookup(s.store.mem, root, u), Lookup(s1.store.mem, root, u));
      assert Wider(Lookup(s1.store.mem, root, u), Lookup(s'.store.mem, root, u));
    }
  }

  lemma AboveTransitive(s: Space, s1: Space, s': Space, t: nat, level: nat, v: nat, c: nat)
    requires OnWalk(s.pos, t, level, v) && 2 <= level <= 4
    requires forall u :: u in s.pos ==> u in s1.pos && s1.pos[u] == s.pos[u]
    requires SameEntries(s.store.mem, s1.store.mem, s.pos, t, Index(v, level)) && SameAbove(s1, s', level - 1)
    ensures SameAbove(s, s', level)
    ensures Rd(s'.store.mem, t, Index(v, level)) == Rd(s1.store.mem, t, Index(v, level))
  {
  }
}
