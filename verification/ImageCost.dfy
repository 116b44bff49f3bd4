/// How many frames an image takes, and how far a load gets with fewer.

module ImageCost {
  import opened Frames
  import opened Translation
  import opened Paging
  import opened PageMapping
  import opened Runs
  import opened Loading
  import opened TableCost

  /// A frame for every page and for every table that is missing on the way to one.
  ghost function Cost(pos: Shape, pages: seq<nat>): nat {
    |pages| + |NewTables(pos, pages)|
  }

  /// The number of pages, from the first one on, that `free` frames suffice for.
  ghost function Fit(pos: Shape, pages: seq<nat>, free: nat): (k: nat)
    ensures k <= |pages|
    decreases |pages|
  {
    if pages == [] || Cost(pos, pages) <= free then |pages| else Fit(pos, Front(pages), free)
  }

  lemma CostNone(pos: Shape)
    ensures Cost(pos, []) == 0
  {
    assert NewTables(pos, []) == {};
  }

  lemma NewTablesCons(pos: Shape, pos1: Shape, v: nat, rest: seq<nat>)
    requires Adds(pos, pos1, NewTables(pos, [v]))
    ensures Cost(pos, [v] + rest) == Cost(pos, [v]) + Cost(pos1, rest)
  {
    var a, b, c := NewTables(pos, [v]), NewTables(pos1, rest), NewTables(pos, [v] + rest);
    forall x
      ensures x in c <==> x in a + b
    {
      assert Place(x.level, x.prefix) == x;
      if x in a {
        assert v in [v] + rest;
      }
      if x in b {
        var u: nat, l: nat :| u in rest && 1 <= l <= 3 && !Has(pos1, l, Prefix(u, l)) && x == Place(l, Prefix(u, l));
        assert u in [v] + rest && !Has(pos, l, Prefix(u, l));
      }
    }
    assert c == a + b && a !! b;
    assert |a + b| == |a| + |b|;
  }

  lemma CostGrows(pos: Shape, pages: seq<nat>, j: nat)
    requires j <= |pages|
    ensures Cost(pos, pages[..j]) <= Cost(pos, pages)
  {
    var a, b := NewTables(pos, pages[..j]), NewTables(pos, pages);
    assert a <= b;
    assert |b| == |a| + |b - a|;
  }

  lemma CostOne(pos: Shape, pages: seq<nat>)
    requires pages != []
    ensures pages[..1] == [pages[0]]
    ensures Cost(pos, [pages[0]]) <= Cost(pos, pages)
  {
    CostGrows(pos, pages, 1);
  }

  /// k is where the frames run out, so k pages fit.
  lemma {:induction false} FitIs(pos: Shape, pages: seq<nat>, free: nat, k: nat)
    requires k < |pages| && Cost(pos, pages[..k]) <= free < Cost(pos, pages[..k + 1])
    ensures Fit(pos, pages, free) == k
    decreases |pages|
  {
    CostGrows(pos, pages, k + 1);
    var front := Front(pages);
    assert front[..k] == pages[..k];
    if k == |front| {
      assert front == pages[..k];
    } else {
      assert front[..k + 1] == pages[..k + 1];
      FitIs(pos, front, free, k);
    }
  }

  // ---- one page --------------------------------------------------------------------------

  /// A page is backed exactly when there are frames for it and its missing tables.
  lemma BackCost(s: Space, root: nat, v: nat)
    requires Sound(s, root) && v < PAGES
    ensures var (s', f) := BackPage(s, root, v);
            && Sound(s', root)
            && (f != 0 <==> s.store.pmm.free >= Cost(s.pos, [v]))
            && (f != 0 ==> s'.store.pmm.free == s.store.pmm.free - Cost(s.pos, [v]))
            && (f != 0 ==> Adds(s.pos, s'.pos, NewTables(s.pos, [v])))
  {
    PmmCursor(s, root);
    AllocSucceeds(s.store);
    TakeOk(s, root);
    var (s1, f) := Take(s);
    if f != 0 {
      MapOk(s1, root, v, f, IMAGE_FLAGS);
      MapCost(s1, root, v, f, IMAGE_FLAGS);
      if !MapIn(s1, root, v, f, IMAGE_FLAGS).1 {
        GiveOk(MapIn(s1, root, v, f, IMAGE_FLAGS).0, root, f);
      }
    }
  }

  // ---- the loop --------------------------------------------------------------------------

  /// The mapping loop succeeds exactly when the cost can be paid; else it stops at the first page
  /// that cannot.
  lemma {:induction false} MapPagesCost(s: Space, root: nat, todo: seq<nat>, pages: seq<nat>, frames: seq<nat>)
    requires Sound(s, root) && forall u | u in todo :: u < PAGES
    ensures var out := MapPages(s, root, todo, pages, frames).1;
            && (out.Loaded? <==> s.store.pmm.free >= Cost(s.pos, todo))
            && (out.Failed? ==>
                  && |pages| <= |out.mapped| < |pages| + |todo|
                  && var k := |out.mapped| - |pages|;
                     Cost(s.pos, todo[..k]) <= s.store.pmm.free < Cost(s.pos, todo[..k + 1]))
    decreases |todo|
  {
    hide BackPage, Sound, NewTables, Adds;
    CostNone(s.pos);
    if todo != [] {
      var v, rest := todo[0], todo[1..];
      assert v in todo && forall u | u in rest :: u in todo;
      BackCost(s, root, v);
      CostOne(s.pos, todo);
      var (s1, f) := BackPage(s, root, v);
      if f == 0 {
        assert todo[..0] == [];
      } else {
        MapPagesCost(s1, root, rest, pages + [v], frames + [f]);
        var out := MapPages(s1, root, rest, pages + [v], frames + [f]).1;
        CostMore(s.pos, s1.pos, todo, if out.Failed? then |out.mapped| - |pages| - 1 else 0);
      }
    }
  }

  lemma CostMore(pos: Shape, pos1: Shape, todo: seq<nat>, k: nat)
    requires todo != [] && Adds(pos, pos1, NewTables(pos, [todo[0]])) && k <= |todo| - 1
    ensures Cost(pos, todo) == Cost(pos, [todo[0]]) + Cost(pos1, todo[1..])
    ensures Cost(pos, todo[..k + 1]) == Cost(pos, [todo[0]]) + Cost(pos1, todo[1..][..k])
    ensures k + 2 <= |todo| ==> Cost(pos, todo[..k + 2]) == Cost(pos, [todo[0]]) + Cost(pos1, todo[1..][..k + 1])
  {
    hide Cost, NewTables;
    var v, rest := todo[0], todo[1..];
    assert todo == [v] + rest && todo[..k + 1] == [v] + rest[..k];
    NewTablesCons(pos, pos1, v, rest);
    NewTablesCons(pos, pos1, v, rest[..k]);
    if k + 2 <= |todo| {
      assert todo[..k + 2] == [v] + rest[..k + 1];
      NewTablesCons(pos, pos1, v, rest[..k + 1]);
    }
  }

  lemma EndsEarly(s: Space, s': Space, root: nat, pages: seq<nat>, out: Outcome)
    requires Ends(s, s', root, pages, out) && out.Failed?
    ensures |out.mapped| < |pages| && out.mapped == pages[..|out.mapped|]
  {
  }

  /// Backing distinct pages succeeds exactly when there are frames for the pages and their missing
  /// tables; otherwise the pages that fit had been mapped, and are unmapped again.
  lemma BackImageCost(s: Space, root: nat, pages: seq<nat>)
    requires Sound(s, root) && Distinct(pages) && forall u | u in pages :: u < PAGES
    ensures var (s', out) := MapPages(s, root, pages, [], []);
            && Ends(s, s', root, pages, out)
            && (out.Loaded? <==> s.store.pmm.free >= Cost(s.pos, pages))
            && (out.Failed? ==>
                  && out.mapped == pages[..Fit(s.pos, pages, s.store.pmm.free)]
                  && Fit(s.pos, pages, s.store.pmm.free) < |pages|)
  {
    hide MapPages, Ends, Sound, Cost, Fit;
    BackImageOk(s, root, pages);
    MapPagesCost(s, root, pages, [], []);
    var out := MapPages(s, root, pages, [], []).1;
    if out.Failed? {
      EndsEarly(s, MapPages(s, root, pages, [], []).0, root, pages, out);
      FitIs(s.pos, pages, s.store.pmm.free, |out.mapped|);
    }
  }
}
