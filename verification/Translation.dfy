/// What the page tables mean: address translation, and the tree the tables form.

module Translation {
  import opened Words
  import opened PhysicalMemory

  const PAGES: nat := 0x10_0000_0000  // 2^36 pages of 4 KiB in the 48-bit address space

  datatype Option<+T> = None | Some(value: T)

  // ---- virtual page numbers --------------------------------------------------------------

  /// The page number without its lowest `level` indices.
  function Prefix(v: nat, level: nat): nat {
    if level == 0 then v else Prefix(v, level - 1) / 512
  }

  /// The index the walk uses at a level: 4 for the PML4, 1 for the page table.
  function Index(v: nat, level: nat): (i: nat)
    requires level > 0
    ensures i < 512
  {
    Prefix(v, level - 1) % 512
  }

  lemma PrefixStep(v: nat, level: nat)
    requires level > 0
    ensures Prefix(v, level - 1) == Prefix(v, level) * 512 + Index(v, level)
  {
  }

  // ---- translation -----------------------------------------------------------------------

  /// The attributes a leaf carries.
  datatype Attributes = Attributes(
    wr: bool, user: bool, pwt: bool, pcd: bool, glob: bool, ignored2: Bits7, key: Bits4, nx: bool)

  /// Translation of one page: its frame, the leaf's attributes and the rights left after every
  /// level of the walk has been taken into account (Intel SDM volume 3A, section 4.6).
  datatype Mapping = Mapping(frame: nat, attributes: Attributes, write: bool, user: bool, execute: bool)

  function LeafAttributes(e: Word): Attributes {
    Attributes(e.wr, e.user, e.pwt, e.pcd, e.glob, e.ignored2, e.key, e.nx)
  }

  /// The frame of page v inside the leaf e.
  function LeafFrame(e: Word, level: nat, v: nat): nat {
    if level == 1 then e.frame
    else if level == 2 then e.frame - e.frame % 512 + v % 512
    else e.frame - e.frame % 0x4_0000 + v % 0x4_0000
  }

  function LeafMapping(e: Word, level: nat, v: nat): Mapping {
    Mapping(LeafFrame(e, level, v), LeafAttributes(e), e.wr, e.user, !e.nx)
  }

  predicate IsLeaf(e: Word, level: nat) {
    level == 1 || (level <= 3 && e.pat)
  }

  /// Rights narrowed by a table entry on the way down.
  function Through(e: Word, o: Option<Mapping>): Option<Mapping> {
    match o
    case None => None
    case Some(p) =>
      Some(p.(write := e.wr && p.write, user := e.user && p.user, execute := !e.nx && p.execute))
  }

  /// The translation of page v by the tables below `table`.
  function Look(m: Memory, table: nat, level: nat, v: nat): Option<Mapping>
    decreases level, v
  {
    if level == 0 then None
    else
      var e := Rd(m, table, Index(v, level));
      if !e.present then None
      else if IsLeaf(e, level) then Some(LeafMapping(e, level, v))
      else Through(e, Look(m, e.frame, level - 1, v))
  }

  /// The translation of page v in the address space rooted at root.
  function Lookup(m: Memory, root: nat, v: nat): Option<Mapping> {
    Look(m, root, 4, v)
  }

  /// The four-level translation written out: nine bits of the page number a level, large leaves of 512 and
  /// of 512 * 512 pages, and every right only where all levels grant it.
  lemma LookupByLevels(m: Memory, root: nat, v: nat)
    ensures var e4 := Rd(m, root, v / 0x800_0000 % 512);
            var e3 := Rd(m, e4.frame, v / 0x4_0000 % 512);
            var e2 := Rd(m, e3.frame, v / 512 % 512);
            var e1 := Rd(m, e2.frame, v % 512);
            Lookup(m, root, v)
            == if !e4.present || !e3.present then None
               else if e3.pat then
                 Some(Mapping(e3.frame - e3.frame % 0x4_0000 + v % 0x4_0000, LeafAttributes(e3),
                              e4.wr && e3.wr, e4.user && e3.user, !e4.nx && !e3.nx))
               else if !e2.present then None
               else if e2.pat then
                 Some(Mapping(e2.frame - e2.frame % 512 + v % 512, LeafAttributes(e2),
                              e4.wr && e3.wr && e2.wr, e4.user && e3.user && e2.user, !e4.nx && !e3.nx && !e2.nx))
               else if !e1.present then None
               else
                 Some(Mapping(e1.frame, LeafAttributes(e1), e4.wr && e3.wr && e2.wr && e1.wr,
                              e4.user && e3.user && e2.user && e1.user, !e4.nx && !e3.nx && !e2.nx && !e1.nx))
  {
    IndicesOf(v);
    hide Index, Look, Rd, LeafAttributes;
    var e4 := Rd(m, root, Index(v, 4));
    var e3 := Rd(m, e4.frame, Index(v, 3));
    var e2 := Rd(m, e3.frame, Index(v, 2));
    LookStep(m, root, 4, v, e4);
    LookStep(m, e4.frame, 3, v, e3);
    if e4.present && e3.present && !e3.pat {
      LookStep(m, e3.frame, 2, v, e2);
      if e2.present && !e2.pat {
        LookStep(m, e2.frame, 1, v, Rd(m, e2.frame, Index(v, 1)));
      }
    }
  }

  lemma LookStep(m: Memory, t: nat, level: nat, v: nat, e: Word)
    requires 1 <= level && e == Rd(m, t, Index(v, level))
    ensures Look(m, t, level, v)
            == if !e.present then None
               else if IsLeaf(e, level) then Some(LeafMapping(e, level, v))
               else Through(e, Look(m, e.frame, level - 1, v))
  {
  }

  lemma IndicesOf(v: nat)
    ensures Index(v, 1) == v % 512 && Index(v, 2) == v / 512 % 512
    ensures Index(v, 3) == v / 0x4_0000 % 512 && Index(v, 4) == v / 0x800_0000 % 512
  {
    assert Prefix(v, 1) == v / 512;
    assert Prefix(v, 2) == v / 512 / 512 == v / 0x4_0000;
    assert Prefix(v, 3) == v / 512 / 512 / 512 == v / 0x800_0000;
  }

  // ---- the tree of tables ----------------------------------------------------------------

  /// Where a table hangs: its level, the part of the page number that leads to it, its parent.
  datatype Pos = Pos(level: Level, prefix: nat, parent: nat)

  type Level = l: nat | 1 <= l <= 4 witness 1

  type Shape = map<nat, Pos>

  /// An entry that points to a table.
  predicate IsTableEntry(e: Word) {
    e.present && e.wr && !e.pat && !e.nx && e.ignored2 == 0 && e.key == 0
  }

  predicate EntryOk(m: Memory, pos: Shape, t: nat, i: nat)
    requires t in pos
  {
    var e := Rd(m, t, i);
    pos[t].level > 1 && e.present ==>
      if e.pat then pos[t].level <= 3
      else IsTableEntry(e) && e.frame in pos && pos[e.frame] == Pos(pos[t].level - 1, pos[t].prefix * 512 + i, t)
  }

  /// Every table but the root is referenced by its parent.
  predicate TableOk(m: Memory, root: nat, pos: Shape, c: nat)
    requires c in pos
  {
    && 0 < c < FRAMES
    && (c == root ==> pos[c] == Pos(4, 0, 0))
    && (c != root ==>
          && pos[c].parent in pos
          && pos[pos[c].parent].level == pos[c].level + 1
          && pos[pos[c].parent].prefix == pos[c].prefix / 512
          && var e := Rd(m, pos[c].parent, pos[c].prefix % 512);
             e.present && !e.pat && e.frame == c)
  }

  /// The tables in pos form the tree of the address space rooted at root.
  ghost predicate Tree(m: Memory, root: nat, pos: Shape) {
    && root in pos
    && (forall t, i: nat :: t in pos && i < 512 ==> EntryOk(m, pos, t, i))
    && (forall c {:trigger TableOk(m, root, pos, c)} :: c in pos ==> TableOk(m, root, pos, c))
  }

  /// A table is referenced by exactly one entry.
  lemma ReferencedOnce(m: Memory, root: nat, pos: Shape, t: nat, i: nat, t': nat, i': nat)
    requires Tree(m, root, pos) && t in pos && t' in pos && i < 512 && i' < 512
    requires pos[t].level > 1 && pos[t'].level > 1
    requires var e := Rd(m, t, i); e.present && !e.pat
    requires var e := Rd(m, t', i'); e.present && !e.pat && e.frame == Rd(m, t, i).frame
    ensures t == t' && i == i'
    ensures Rd(m, t, i).frame != root
  {
    assert EntryOk(m, pos, t, i) && EntryOk(m, pos, t', i');
    assert TableOk(m, root, pos, root);
  }

  /// The table the walk for page v reaches at a level.
  function TableAt(m: Memory, root: nat, v: nat, level: nat): Option<nat>
    decreases 4 - level, v
  {
    if level >= 4 then Some(root)
    else
      match TableAt(m, root, v, level + 1)
      case None => None
      case Some(t) =>
        var e := Rd(m, t, Index(v, level + 1));
        if e.present && !IsLeaf(e, level + 1) then Some(e.frame) else None
  }

  /// The tables of the shape are exactly the tables that some walk reaches, each under its prefix.
  lemma {:induction false} TreeExact(m: Memory, root: nat, pos: Shape, v: nat, level: nat, c: nat)
    requires Tree(m, root, pos) && v < PAGES && 1 <= level <= 4
    ensures TableAt(m, root, v, level) == Some(c)
            <==> c in pos && pos[c].level == level && pos[c].prefix == Prefix(v, level)
    decreases 4 - level
  {
    PrefixRoot(v);
    if level == 4 {
      assert TableOk(m, root, pos, root);
      if c in pos {
        assert TableOk(m, root, pos, c);
        if c != root {
          assert TableOk(m, root, pos, pos[c].parent);
        }
      }
    } else {
      var i := Index(v, level + 1);
      assert Prefix(v, level) == Prefix(v, level + 1) * 512 + i;
      var at := TableAt(m, root, v, level + 1);
      if at.Some? {
        TreeExact(m, root, pos, v, level + 1, at.value);
        assert EntryOk(m, pos, at.value, i);
      }
      if c in pos && pos[c].level == level && pos[c].prefix == Prefix(v, level) {
        assert TableOk(m, root, pos, c) && TableOk(m, root, pos, root);
        TreeExact(m, root, pos, v, level + 1, pos[c].parent);
      }
    }
  }

  lemma PrefixRoot(v: nat)
    requires v < PAGES
    ensures Prefix(v, 4) == 0
  {
    assert Prefix(v, 1) < 0x800_0000;
    assert Prefix(v, 2) < 0x4_0000;
    assert Prefix(v, 3) < 512;
  }

  // ---- changes that keep translations ----------------------------------------------------

  /// Same frame and attributes; rights may have been widened on the way down.
  predicate Wider(o: Option<Mapping>, o': Option<Mapping>) {
    match (o, o')
    case (None, None) => true
    case (Some(p), Some(p')) =>
      && p'.frame == p.frame && p'.attributes == p.attributes
      && (p.write ==> p'.write) && (p.user ==> p'.user) && (p.execute ==> p'.execute)
    case _ => false
  }

  /// The rights left after the walk are the rights the leaf asks for.
  predicate Honest(o: Option<Mapping>) {
    o.Some? ==>
      && (o.value.write <==> o.value.attributes.wr)
      && (o.value.user <==> o.value.attributes.user)
      && (o.value.execute <==> !o.value.attributes.nx)
  }

  /// The leaf carries the real policy, for every page.
  ghost predicate Policy(m: Memory, root: nat) {
    forall v: nat :: v < PAGES ==> Honest(Lookup(m, root, v))
  }

  lemma {:induction false} RightsBounded(m: Memory, t: nat, level: nat, v: nat)
    ensures var o := Look(m, t, level, v);
            o.Some? ==>
              && (o.value.write ==> o.value.attributes.wr)
              && (o.value.user ==> o.value.attributes.user)
              && (o.value.execute ==> !o.value.attributes.nx)
    decreases level
  {
    if level > 0 {
      RightsBounded(m, Rd(m, t, Index(v, level)).frame, level - 1, v);
    }
  }

  /// Widening rights above honest leaves changes no translation at all.
  lemma WiderIsSame(m: Memory, m': Memory, root: nat, v: nat)
    requires Wider(Lookup(m, root, v), Lookup(m', root, v)) && Honest(Lookup(m, root, v))
    ensures Lookup(m', root, v) == Lookup(m, root, v)
  {
    RightsBounded(m', root, 4, v);
  }

  /// The tables of the shape hold the same entries in both memories, entry i of table x aside.
  ghost predicate SameEntries(m: Memory, m': Memory, pos: Shape, x: nat, i: nat) {
    forall t, j: nat :: t in pos && j < 512 && (t != x || j != i) ==> Rd(m', t, j) == Rd(m, t, j)
  }

  // Below the changed table nothing changes.
  lemma {:induction false} LookBelow(m: Memory, m': Memory, root: nat, pos: Shape, x: nat, i: nat, t: nat, v: nat)
    requires Tree(m, root, pos) && SameEntries(m, m', pos, x, i) && x in pos && t in pos
    requires pos[t].level <= pos[x].level && t != x
    ensures Look(m', t, pos[t].level, v) == Look(m, t, pos[t].level, v)
    decreases pos[t].level
  {
    var level: nat := pos[t].level;
    assert TableOk(m, root, pos, t);
    var j := Index(v, level);
    assert EntryOk(m, pos, t, j);
    var e := Rd(m, t, j);
    if e.present && !IsLeaf(e, level) {
      LookBelow(m, m', root, pos, x, i, e.frame, v);
    }
  }

  // A change that widens what one table says widens what every table says.
  lemma {:induction false} LookAbove(m: Memory, m': Memory, root: nat, pos: Shape, x: nat, i: nat, t: nat, v: nat)
    requires Tree(m, root, pos) && SameEntries(m, m', pos, x, i) && x in pos && t in pos
    requires Index(v, pos[x].level) == i ==> Wider(Look(m, x, pos[x].level, v), Look(m', x, pos[x].level, v))
    ensures Wider(Look(m, t, pos[t].level, v), Look(m', t, pos[t].level, v))
    decreases pos[t].level
  {
    var level: nat := pos[t].level;
    assert TableOk(m, root, pos, t);
    var j := Index(v, level);
    if !(t == x && j == i) {
      assert EntryOk(m, pos, t, j);
      var e := Rd(m, t, j);
      if e.present && !IsLeaf(e, level) {
        LookAbove(m, m', root, pos, x, i, e.frame, v);
      }
    }
  }

  // A walk for another page does not see the changed entry.
  lemma {:induction false} LookElsewhere(m: Memory, m': Memory, root: nat, pos: Shape, x: nat, i: nat, t: nat, v: nat)
    requires Tree(m, root, pos) && SameEntries(m, m', pos, x, i) && x in pos && t in pos && i < 512
    requires pos[t].prefix == Prefix(v, pos[t].level)
    requires Prefix(v, pos[x].level - 1) != pos[x].prefix * 512 + i
    ensures Look(m', t, pos[t].level, v) == Look(m, t, pos[t].level, v)
    decreases pos[t].level
  {
    var level: nat := pos[t].level;
    assert TableOk(m, root, pos, t) && TableOk(m, root, pos, x);
    var j := Index(v, level);
    PrefixStep(v, level);
    assert EntryOk(m, pos, t, j);
    var e := Rd(m, t, j);
    if e.present && !IsLeaf(e, level) {
      LookElsewhere(m, m', root, pos, x, i, e.frame, v);
    }
  }
}
