/// What mapping costs: the tables a walk has to add, counted before it starts (mm_walk_page).

module TableCost {
  import opened Words
  import opened PhysicalMemory
  import opened Frames
  import opened Translation
  import opened Paging
  import opened PageMapping

  /// A place in the tree: the tables of a level are told apart by the prefix that leads to them.
  datatype Place = Place(level: nat, prefix: nat)

  /// There is a table in that place.
  ghost predicate Has(pos: Shape, level: nat, prefix: nat) {
    exists t :: t in pos && pos[t].level == level && pos[t].prefix == prefix
  }

  /// The places below `level` on the way to page v that hold no table yet.
  ghost function NewOnPath(pos: Shape, level: nat, v: nat): set<Place> {
    set l: nat | 1 <= l < level && !Has(pos, l, Prefix(v, l)) :: Place(l, Prefix(v, l))
  }

  /// The tables that mapping the pages has to add: places on levels 1 to 3 that hold none.
  ghost function NewTables(pos: Shape, pages: seq<nat>): set<Place> {
    set v: nat, l: nat | v in pages && 1 <= l <= 3 && !Has(pos, l, Prefix(v, l)) :: Place(l, Prefix(v, l))
  }

  /// pos' holds the tables of pos and those of `new`.
  ghost predicate Adds(pos: Shape, pos': Shape, new': set<Place>) {
    forall l: nat, p: nat :: Has(pos', l, p) <==> Has(pos, l, p) || Place(l, p) in new'
  }

  // ---- one level -------------------------------------------------------------------------

  /// A table below t exists exactly when the entry for it points to one.
  lemma EntryShowsTable(m: Memory, root: nat, pos: Shape, t: nat, level: nat, v: nat)
    requires Tree(m, root, pos) && OnWalk(pos, t, level, v) && 2 <= level <= 4 && v < PAGES
    ensures var e := Rd(m, t, Index(v, level));
            Has(pos, level - 1, Prefix(v, level - 1)) <==> e.present && !e.pat
  {
    var e := Rd(m, t, Index(v, level));
    assert EntryOk(m, pos, t, Index(v, level));
    PrefixStep(v, level);
    TreeExact(m, root, pos, v, level, t);
    if Has(pos, level - 1, Prefix(v, level - 1)) {
      var c :| c in pos && pos[c].level == level - 1 && pos[c].prefix == Prefix(v, level - 1);
      TreeExact(m, root, pos, v, level - 1, c);
    }
  }

  lemma PmmCursor(s: Space, root: nat)
    requires SpaceOk(s, root)
    ensures s.store.pmm.cursor > 0
  {
    assert root in s.pos && Live(s.store, root);
    assert TableOk(s.store.mem, root, s.pos, root);
  }

  /// The one table a round of the walk may have to add.
  ghost function NewHere(pos: Shape, level: nat, v: nat): set<Place>
    requires level > 1
  {
    if Has(pos, level - 1, Prefix(v, level - 1)) then {} else {Place(level - 1, Prefix(v, level - 1))}
  }

  lemma DescendCost(s: Space, t: nat, level: nat, v: nat, root: nat)
    requires SpaceOk(s, root) && OnWalk(s.pos, t, level, v) && 2 <= level <= 4 && v < PAGES
    ensures var (s', c) := Descend(s, t, level, v, true);
            && (c.Some? <==> s.store.pmm.free >= |NewHere(s.pos, level, v)|)
            && (c.Some? ==> s'.store.pmm.free == s.store.pmm.free - |NewHere(s.pos, level, v)|)
            && (c.Some? ==> Adds(s.pos, s'.pos, NewHere(s.pos, level, v)))
  {
    EntryShowsTable(s.store.mem, root, s.pos, t, level, v);
    PmmCursor(s, root);
    AllocSucceeds(s.store);
    AllocOk(s.store);
    var (s', c) := Descend(s, t, level, v, true);
    var e := Rd(s.store.mem, t, Index(v, level));
    if !(e.present && !e.pat) && c.Some? {
      LinkAdds(s.pos, s'.pos, c.value, Pos(level - 1, Prefix(v, level - 1), t));
    }
  }

  lemma LinkAdds(pos: Shape, pos': Shape, f: nat, here: Pos)
    requires f !in pos && pos' == pos[f := here]
    ensures Adds(pos, pos', {Place(here.level, here.prefix)})
  {
    forall l: nat, p: nat
      ensures Has(pos', l, p) <==> Has(pos, l, p) || Place(l, p) == Place(here.level, here.prefix)
    {
      if Has(pos, l, p) {
        var t :| t in pos && pos[t].level == l && pos[t].prefix == p;
        assert t in pos' && pos'[t] == pos[t];
      }
      if Place(l, p) == Place(here.level, here.prefix) {
        assert f in pos' && pos'[f] == here;
      }
    }
  }

  // ---- the whole walk --------------------------------------------------------------------

  lemma PathParts(pos: Shape, pos1: Shape, level: nat, v: nat)
    requires level > 1 && Adds(pos, pos1, NewHere(pos, level, v))
    ensures NewOnPath(pos, level, v) == NewHere(pos, level, v) + NewOnPath(pos1, level - 1, v)
    ensures NewHere(pos, level, v) !! NewOnPath(pos1, level - 1, v)
    ensures |NewOnPath(pos, level, v)| == |NewHere(pos, level, v)| + |NewOnPath(pos1, level - 1, v)|
  {
    var a, b := NewHere(pos, level, v), NewOnPath(pos1, level - 1, v);
    forall x
      ensures x in NewOnPath(pos, level, v) <==> x in a + b
    {
      assert Place(x.level, x.prefix) == x;
    }
  }

  lemma AddsTwice(pos: Shape, pos1: Shape, pos2: Shape, a: set<Place>, b: set<Place>)
    requires Adds(pos, pos1, a) && Adds(pos1, pos2, b)
    ensures Adds(pos, pos2, a + b)
  {
  }

  /// A walk that may build tables succeeds exactly when the missing ones can be paid for, takes just
  /// that many frames, and then they are there.
  lemma {:induction false} WalkCost(s: Space, t: nat, level: nat, v: nat, root: nat)
    requires SpaceOk(s, root) && OnWalk(s.pos, t, level, v) && 1 <= level <= 4 && v < PAGES
    ensures var (s', r) := Walk(s, t, level, v, true);
            && (r.Some? <==> s.store.pmm.free >= |NewOnPath(s.pos, level, v)|)
            && (r.Some? ==> s'.store.pmm.free == s.store.pmm.free - |NewOnPath(s.pos, level, v)|)
            && (r.Some? ==> Adds(s.pos, s'.pos, NewOnPath(s.pos, level, v)))
    decreases level
  {
    hide Adds, NewHere, NewOnPath, Descend;
    if level == 1 {
      NothingBelow(s.pos, v);
    } else {
      DescendOk(s, t, level, v, true, root);
      DescendCost(s, t, level, v, root);
      var (s1, c) := Descend(s, t, level, v, true);
      if c.Some? {
        PathParts(s.pos, s1.pos, level, v);
        WalkCost(s1, c.value, level - 1, v, root);
        var (s', r) := Walk(s1, c.value, level - 1, v, true);
        if r.Some? {
          AddsTwice(s.pos, s1.pos, s'.pos, NewHere(s.pos, level, v), NewOnPath(s1.pos, level - 1, v));
        }
      } else {
        MissingHere(s.pos, level, v);
      }
    }
  }

  lemma NothingBelow(pos: Shape, v: nat)
    ensures NewOnPath(pos, 1, v) == {} && Adds(pos, pos, NewOnPath(pos, 1, v))
  {
    assert NewOnPath(pos, 1, v) == {};
  }

  lemma MissingHere(pos: Shape, level: nat, v: nat)
    requires level > 1
    ensures |NewHere(pos, level, v)| <= |NewOnPath(pos, level, v)|
  {
    var a, b := NewHere(pos, level, v), NewOnPath(pos, level, v);
    if a != {} {
      var x := Place(level - 1, Prefix(v, level - 1));
      assert a == {x} && x in b && {x} <= b;
      assert |b - {x}| + 1 == |b|;
    }
  }

  /// Mapping a page succeeds exactly when its missing tables can be paid for.
  lemma MapCost(s: Space, root: nat, v: nat, phys: FrameNo, flags: nat)
    requires SpaceOk(s, root) && v < PAGES && phys != 0
    ensures var (s', ok) := MapIn(s, root, v, phys, flags);
            && (ok <==> s.store.pmm.free >= |NewTables(s.pos, [v])|)
            && (ok ==> s'.store.pmm.free == s.store.pmm.free - |NewTables(s.pos, [v])|)
            && (ok ==> Adds(s.pos, s'.pos, NewTables(s.pos, [v])))
  {
    RootOnWalk(s, root, v);
    WalkCost(s, root, 4, v, root);
    assert TableOk(s.store.mem, root, s.pos, root);
    assert NewOnPath(s.pos, 4, v) == NewTables(s.pos, [v]);
  }
}
