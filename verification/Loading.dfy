/// Backing an image with frames, page by page, with rollback (pef_load_section, LoadImage).

module Loading {
  import opened Words
  import opened PhysicalMemory
  import opened Frames
  import opened Translation
  import opened Paging
  import opened PageMapping
  import opened Runs

  function Last(s: seq<nat>): nat
    requires s != []
  {
    s[|s| - 1]
  }

  function Front(s: seq<nat>): seq<nat>
    requires s != []
  {
    s[..|s| - 1]
  }

  // ---- the loaders' loops ----------------------------------------------------------------

  const IMAGE_FLAGS: nat := 14  // present, writable, user

  datatype Outcome = Loaded(frames: seq<nat>) | Failed(mapped: seq<nat>)

  /// `pmmi_free_frame(mm_unmap_page(...))`
  function UnmapFree(s: Space, root: nat, v: nat): Space {
    var u := Unmap(s, root, v);
    if u.1.Some? then Give(u.0, u.1.value) else u.0
  }

  /// ldr_unmap_pages, last page first.
  function UnmapPages(s: Space, root: nat, pages: seq<nat>): Space
    decreases |pages|
  {
    if pages == [] then s else UnmapPages(UnmapFree(s, root, Last(pages)), root, Front(pages))
  }

  /// Map page v onto the frame f; 0 when that fails, with the frame given back.
  function MapOnto(s: Space, root: nat, v: nat, f: FrameNo): (Space, nat) {
    var (s1, ok) := MapIn(s, root, v, f, IMAGE_FLAGS);
    if ok then (s1, f) else (Give(s1, f), 0)
  }

  /// Take a frame and map page v onto it; 0 when either fails.
  function BackPage(s: Space, root: nat, v: nat): (Space, nat) {
    var (s1, f) := Take(s);
    if f == 0 || f >= FRAMES then (s1, 0) else MapOnto(s1, root, v, f)
  }

  /// The mapping loop: `pages` are mapped onto `frames`, `todo` remains.
  function MapPages(s: Space, root: nat, todo: seq<nat>, pages: seq<nat>, frames: seq<nat>): (Space, Outcome)
    decreases |todo|
  {
    if todo == [] then (s, Loaded(frames))
    else
      var (s1, f) := BackPage(s, root, todo[0]);
      if f == 0 then (UnmapPages(s1, root, pages), Failed(pages))
      else MapPages(s1, root, todo[1..], pages + [todo[0]], frames + [f])
  }

  // ---- accounting ------------------------------------------------------------------------

  /// s' was reached from s by building tables and taking the data frames `extra`; every other
  /// frame that was handed out before still is, and tables aside holds what it held.
  ghost predicate GrowsWith(s: Space, s': Space, extra: seq<nat>) {
    && (forall t {:trigger t in s'.pos} {:trigger t in s.pos} :: t in s.pos ==> t in s'.pos && s'.pos[t] == s.pos[t])
    && (forall f :: Live(s'.store, f) <==> Live(s.store, f) || f in extra || (f in s'.pos && f !in s.pos))
    && (forall f :: f in s'.pos && f !in s.pos ==> !Live(s.store, f))
    && (forall f :: f in extra ==> !Live(s.store, f) && f !in s'.pos)
    && (forall f, i: nat :: Live(s.store, f) && f !in s.pos ==> Rd(s'.store.mem, f, i) == Rd(s.store.mem, f, i))
    && s'.store.pmm.used - s.store.pmm.used == |s'.pos| - |s.pos| + |extra|
    && s'.store.pmm.base == s.store.pmm.base && s'.store.pmm.end == s.store.pmm.end
  }

  lemma GrowsWithTables(a: Space, b: Space, c: Space, extra: seq<nat>)
    requires GrowsWith(a, b, extra) && Grows(b, c)
    requires forall t :: t in a.pos ==> Live(a.store, t)
    ensures GrowsWith(a, c, extra)
    ensures forall f, i: nat :: f in extra ==> Rd(c.store.mem, f, i) == Rd(b.store.mem, f, i)
  {
  }

  lemma GrowsWithTake(a: Space, b: Space, c: Space, extra: seq<nat>, f: nat)
    requires GrowsWith(a, b, extra) && c.pos == b.pos && HandsOut(b.store, c.store, f)
    requires forall t :: t in a.pos ==> Live(a.store, t)
    requires forall t :: t in b.pos ==> Live(b.store, t)
    ensures GrowsWith(a, c, extra + [f]) && f !in extra
    ensures forall g, i: nat :: g in extra ==> Rd(c.store.mem, g, i) == Rd(b.store.mem, g, i)
  {
  }

  lemma GrowsWithGive(a: Space, b: Space, c: Space, frames: seq<nat>)
    requires GrowsWith(a, b, frames) && c.pos == b.pos && frames != [] && TakesBack(b.store, c.store, Last(frames))
    requires Distinct(frames)
    ensures GrowsWith(a, c, Front(frames)) && Distinct(Front(frames))
  {
    assert frames == Front(frames) + [Last(frames)];
    assert forall g :: g in frames <==> g in Front(frames) || g == Last(frames);
    assert Last(frames) !in Front(frames);
  }

  // ---- what the loops keep ---------------------------------------------------------------

  /// The translation of an image page: the frame, writable, user, executable.
  function ImageMapping(f: nat): Mapping {
    Mapping(f, Attributes(true, true, false, false, false, 0, 0, false), true, true, true)
  }

  predicate PageIs(m: Memory, root: nat, v: nat, f: nat) {
    Small(m, root, v) && Lookup(m, root, v) == Some(ImageMapping(f))
  }

  /// `pages` are mapped onto `frames`; the other pages of the window are unmapped and the pages
  /// outside it are as they were in m0.
  ghost predicate Window(m0: Memory, m: Memory, root: nat, pages: seq<nat>, frames: seq<nat>, window: set<nat>) {
    && |pages| == |frames| && Distinct(pages)
    && (forall j | 0 <= j < |pages| :: pages[j] in window && PageIs(m, root, pages[j], frames[j]))
    && (forall u :: u in window ==> u < PAGES)
    && (forall u :: u in window && u !in pages ==> Lookup(m, root, u) == None)
    && (forall u: nat :: u < PAGES && u !in window ==> Lookup(m, root, u) == Lookup(m0, root, u))
  }

  predicate GoodFrames(frames: seq<nat>) {
    Distinct(frames) && forall j | 0 <= j < |frames| :: 0 < frames[j] < FRAMES
  }

  /// The window is mapped that far, in a sound space that grew from s0 by these frames and tables.
  ghost predicate Partly(s0: Space, s: Space, root: nat, pages: seq<nat>, frames: seq<nat>, window: set<nat>) {
    && (forall t :: t in s0.pos ==> Live(s0.store, t))
    && Sound(s, root) && GrowsWith(s0, s, frames) && GoodFrames(frames)
    && Window(s0.store.mem, s.store.mem, root, pages, frames, window)
  }

  // ---- rollback --------------------------------------------------------------------------

  lemma WindowSame(m0: Memory, m: Memory, m': Memory, root: nat, pages: seq<nat>, frames: seq<nat>, window: set<nat>,
                   v: nat)
    requires Window(m0, m, root, pages, frames, window) && v !in pages
    requires SameLookups(m, m', root) && KeepsSmall(m, m', root, v)
    ensures Window(m0, m', root, pages, frames, window)
  {
    forall j | 0 <= j < |pages|
      ensures PageIs(m', root, pages[j], frames[j])
    {
      assert PageIs(m, root, pages[j], frames[j]);
    }
  }

  lemma FrontLast(s: seq<nat>)
    requires s != []
    ensures forall j | 0 <= j < |Front(s)| :: Front(s)[j] == s[j]
    ensures forall x :: x in s <==> x in Front(s) || x == Last(s)
    ensures Distinct(s) ==> Last(s) !in Front(s) && Distinct(Front(s))
  {
    assert s == Front(s) + [Last(s)];
  }

  lemma WindowShrinks(m0: Memory, m: Memory, m': Memory, root: nat, pages: seq<nat>, frames: seq<nat>, window: set<nat>)
    requires Window(m0, m, root, pages, frames, window) && pages != []
    requires var v := Last(pages);
             OnlyPage(m, m', root, v) && KeepsSmall(m, m', root, v) && Lookup(m', root, v) == None
    ensures Window(m0, m', root, Front(pages), Front(frames), window)
  {
    FrontLast(pages);
    FrontLast(frames);
    forall j | 0 <= j < |Front(pages)|
      ensures PageIs(m', root, Front(pages)[j], Front(frames)[j])
    {
      assert PageIs(m, root, pages[j], frames[j]);
    }
  }

  // One round of the rollback, as facts about the states before, between and after.
  lemma AfterUnmap(s0: Space, s: Space, s1: Space, root: nat, pages: seq<nat>, frames: seq<nat>, window: set<nat>,
                   v: nat)
    requires Partly(s0, s, root, pages, frames, window) && pages != [] && v == Last(pages) && Grows(s, s1)
    requires OnlyPage(s.store.mem, s1.store.mem, root, v) && KeepsSmall(s.store.mem, s1.store.mem, root, v)
    requires Lookup(s1.store.mem, root, v) == None
    ensures GrowsWith(s0, s1, frames)
    ensures Live(s1.store, Last(frames)) && Last(frames) !in s1.pos
    ensures Window(s0.store.mem, s1.store.mem, root, Front(pages), Front(frames), window)
  {
    GrowsWithTables(s0, s, s1, frames);
    assert Last(frames) in frames;
    WindowShrinks(s0.store.mem, s.store.mem, s1.store.mem, root, pages, frames, window);
  }

  lemma AfterGive(s0: Space, s1: Space, s2: Space, root: nat, pages: seq<nat>, frames: seq<nat>, window: set<nat>)
    requires Tree(s1.store.mem, root, s1.pos) && Sound(s2, root) && s2.pos == s1.pos && frames != []
             && GoodFrames(frames)
    requires forall t :: t in s1.pos ==> Live(s1.store, t)
    requires forall t :: t in s0.pos ==> Live(s0.store, t)
    requires GrowsWith(s0, s1, frames) && TakesBack(s1.store, s2.store, Last(frames))
    requires Last(frames) !in s1.pos && SameLookups(s1.store.mem, s2.store.mem, root)
    requires Window(s0.store.mem, s1.store.mem, root, pages, Front(frames), window)
    ensures Partly(s0, s2, root, pages, Front(frames), window)
  {
    GrowsWithGive(s0, s1, s2, frames);
    FrontLast(frames);
    OutsideKeepsSmall(s1.store.mem, s2.store.mem, root, s1.pos);
    WindowSame(s0.store.mem, s1.store.mem, s2.store.mem, root, pages, Front(frames), window, PAGES);
  }

  // One round of the rollback: the frame that comes out of the page, and what giving it back keeps.
  lemma UnmapRound(s0: Space, s: Space, root: nat, pages: seq<nat>, frames: seq<nat>, window: set<nat>, v: nat)
    requires Partly(s0, s, root, pages, frames, window) && pages != [] && v == Last(pages)
    ensures var (s1, f) := Unmap(s, root, v);
            && f.Some? && 0 < f.value < FRAMES && Live(s1.store, f.value) && s1.pos == s.pos
            && UnmapFree(s, root, v) == Give(s1, f.value)
            && Sound(Give(s1, f.value), root)
            && SameLookups(s1.store.mem, Give(s1, f.value).store.mem, root)
    ensures UnmapPages(s, root, pages) == UnmapPages(UnmapFree(s, root, v), root, Front(pages))
    ensures Partly(s0, UnmapFree(s, root, v), root, Front(pages), Front(frames), window)
  {
    assert PageIs(s.store.mem, root, pages[|pages| - 1], frames[|pages| - 1]);
    assert PageIs(s.store.mem, root, v, Last(frames));
    UnmapOk(s, root, v);
    UnmapKeepsSmall(s, root, v);
    var s1 := Unmap(s, root, v).0;
    AfterUnmap(s0, s, s1, root, pages, frames, window, v);
    GiveOk(s1, root, Last(frames));
    AfterGive(s0, s1, Give(s1, Last(frames)), root, Front(pages), frames, window);
  }

  /// The window is unmapped, everything outside it is as it was, and no data frame is left:
  /// the frames in use grew only by tables newly linked into the tree.
  ghost predicate RolledBack(s0: Space, s: Space, root: nat, window: set<nat>) {
    && Sound(s, root) && Grows(s0, s)
    && (forall u :: u in window ==> Lookup(s.store.mem, root, u) == None)
    && (forall u: nat :: u < PAGES && u !in window ==> Lookup(s.store.mem, root, u) == Lookup(s0.store.mem, root, u))
  }

  lemma NothingMapped(s0: Space, s: Space, root: nat, pages: seq<nat>, frames: seq<nat>, window: set<nat>)
    requires Partly(s0, s, root, pages, frames, window) && pages == []
    ensures RolledBack(s0, s, root, window)
  {
  }

  lemma {:induction false} UnmapPagesOk(s0: Space, s: Space, root: nat, pages: seq<nat>, frames: seq<nat>,
                                        window: set<nat>)
    requires Partly(s0, s, root, pages, frames, window)
    ensures RolledBack(s0, UnmapPages(s, root, pages), root, window)
    decreases |pages|
  {
    if pages == [] {
      NothingMapped(s0, s, root, pages, frames, window);
    } else {
      UnmapRound(s0, s, root, pages, frames, window, Last(pages));
      UnmapPagesOk(s0, UnmapFree(s, root, Last(pages)), root, Front(pages), Front(frames), window);
    }
  }

  /// The frames come back in the order in which they were taken: that of the first page is the next one
  /// to be handed out, then that of the second.
  lemma {:induction false} UnmapPagesList(s0: Space, s: Space, root: nat, pages: seq<nat>, frames: seq<nat>,
                                          window: set<nat>)
    requires Partly(s0, s, root, pages, frames, window)
    ensures UnmapPages(s, root, pages).store.list == frames + s.store.list
    decreases |pages|
  {
    hide Partly;
    if pages == [] {
      NoFrames(s0, s, root, pages, frames, window);
    } else {
      var v := Last(pages);
      LastFrame(s0, s, root, pages, frames, window);
      assert frames == Front(frames) + [Last(frames)];
      UnmapRound(s0, s, root, pages, frames, window, v);
      var s1 := UnmapFree(s, root, v);
      UnmapPagesList(s0, s1, root, Front(pages), Front(frames), window);
      assert Front(frames) + ([Last(frames)] + s.store.list) == frames + s.store.list;
    }
  }

  lemma NoFrames(s0: Space, s: Space, root: nat, pages: seq<nat>, frames: seq<nat>, window: set<nat>)
    requires Partly(s0, s, root, pages, frames, window) && pages == []
    ensures frames == []
  {
  }

  lemma LastFrame(s0: Space, s: Space, root: nat, pages: seq<nat>, frames: seq<nat>, window: set<nat>)
    requires Partly(s0, s, root, pages, frames, window) && pages != []
    ensures frames != [] && UnmapFree(s, root, Last(pages)).store.list == [Last(frames)] + s.store.list
  {
    var v := Last(pages);
    assert PageIs(s.store.mem, root, pages[|pages| - 1], frames[|pages| - 1]);
    UnmapOk(s, root, v);
    UnmapRound(s0, s, root, pages, frames, window, v);
    UnmapKeepsList(s, root, v);
  }

  lemma UnmapKeepsList(s: Space, root: nat, v: nat)
    requires Sound(s, root) && v < PAGES
    ensures Unmap(s, root, v).0.store.list == s.store.list
  {
    WalkKeepsList(s, root, 4, v);
  }

  lemma {:induction false} WalkKeepsList(s: Space, t: nat, level: nat, v: nat)
    requires level <= 4
    ensures Walk(s, t, level, v, false).0.store.list == s.store.list
    decreases level
  {
    if level > 1 {
      var (s1, c) := Descend(s, t, level, v, false);
      if c.Some? {
        WalkKeepsList(s1, c.value, level - 1, v);
      }
    }
  }

  // ---- mapping ---------------------------------------------------------------------------

  ghost predicate Zeroed(m: Memory, frames: seq<nat>) {
    forall f, i: nat :: f in frames && i < 512 ==> Rd(m, f, i) == ZERO_WORD
  }

  lemma ImageFlags(f: FrameNo)
    ensures PageMeaning(PageWord(f, IMAGE_FLAGS)) == Some(ImageMapping(f))
    ensures HasFlag(IMAGE_FLAGS, FLAG_PRESENT)
  {
  }

  lemma WindowGrows(m0: Memory, m: Memory, m': Memory, root: nat, pages: seq<nat>, frames: seq<nat>, window: set<nat>,
                    v: nat, f: nat)
    requires Window(m0, m, root, pages, frames, window) && v !in window && v < PAGES
    requires OnlyPage(m, m', root, v) && KeepsSmall(m, m', root, v) && PageIs(m', root, v, f)
    ensures Window(m0, m', root, pages + [v], frames + [f], window + {v})
  {
    var pages', frames' := pages + [v], frames + [f];
    forall j | 0 <= j < |pages'|
      ensures pages'[j] in window + {v} && PageIs(m', root, pages'[j], frames'[j])
    {
      if j < |pages| {
        assert PageIs(m, root, pages[j], frames[j]);
      }
    }
  }

  // The state between taking the frame and mapping the page.
  lemma AfterTake(s0: Space, s: Space, s1: Space, root: nat, pages: seq<nat>, frames: seq<nat>, window: set<nat>,
                  f: nat)
    requires Partly(s0, s, root, pages, frames, window) && Zeroed(s.store.mem, frames)
    requires SpaceOk(s1, root) && s1.pos == s.pos && HandsOut(s.store, s1.store, f) && 0 < f < FRAMES
    requires SameLookups(s.store.mem, s1.store.mem, root)
    ensures GrowsWith(s0, s1, frames + [f]) && GoodFrames(frames + [f]) && Zeroed(s1.store.mem, frames + [f])
    ensures Window(s0.store.mem, s1.store.mem, root, pages, frames, window)
    ensures f !in s1.pos
  {
    GrowsWithTake(s0, s, s1, frames, f);
    OutsideKeepsSmall(s.store.mem, s1.store.mem, root, s.pos);
    WindowSame(s0.store.mem, s.store.mem, s1.store.mem, root, pages, frames, window, PAGES);
  }

  lemma AfterMap(s0: Space, s1: Space, s2: Space, root: nat, pages: seq<nat>, frames: seq<nat>, window: set<nat>,
                 f: nat, v: nat)
    requires forall t :: t in s0.pos ==> Live(s0.store, t)
    requires GrowsWith(s0, s1, frames + [f]) && GoodFrames(frames + [f]) && Zeroed(s1.store.mem, frames + [f])
    requires Window(s0.store.mem, s1.store.mem, root, pages, frames, window) && v !in window && v < PAGES
    requires Sound(s2, root) && Grows(s1, s2)
    requires OnlyPage(s1.store.mem, s2.store.mem, root, v) && KeepsSmall(s1.store.mem, s2.store.mem, root, v)
    requires PageIs(s2.store.mem, root, v, f)
    ensures Partly(s0, s2, root, pages + [v], frames + [f], window + {v}) && Zeroed(s2.store.mem, frames + [f])
  {
    GrowsWithTables(s0, s1, s2, frames + [f]);
    WindowGrows(s0.store.mem, s1.store.mem, s2.store.mem, root, pages, frames, window, v, f);
  }

  // When the page cannot be mapped the frame goes back and only tables remain.
  lemma AfterMapFails(s0: Space, s1: Space, s2: Space, s3: Space, root: nat, pages: seq<nat>, frames: seq<nat>,
                      window: set<nat>, f: nat, v: nat)
    requires forall t :: t in s0.pos ==> Live(s0.store, t)
    requires GrowsWith(s0, s1, frames + [f]) && GoodFrames(frames + [f])
    requires Window(s0.store.mem, s1.store.mem, root, pages, frames, window) && v !in window
    requires SpaceOk(s2, root) && Grows(s1, s2)
    requires SameLookups(s1.store.mem, s2.store.mem, root) && KeepsSmall(s1.store.mem, s2.store.mem, root, v)
    requires Sound(s3, root) && s3.pos == s2.pos && TakesBack(s2.store, s3.store, f)
    requires SameLookups(s2.store.mem, s3.store.mem, root) && f !in s2.pos
    ensures Partly(s0, s3, root, pages, frames, window)
  {
    NotMappedYet(s0.store.mem, s1.store.mem, root, pages, frames, window, f, v);
    hide GrowsWith, Window, KeepsSmall, SameLookups, Lookup;
    GrowsWithTables(s0, s1, s2, frames + [f]);
    assert Last(frames + [f]) == f && Front(frames + [f]) == frames;
    GrowsWithGive(s0, s2, s3, frames + [f]);
    WindowSame(s0.store.mem, s1.store.mem, s2.store.mem, root, pages, frames, window, v);
    OutsideKeepsSmall(s2.store.mem, s3.store.mem, root, s2.pos);
    WindowSame(s0.store.mem, s2.store.mem, s3.store.mem, root, pages, frames, window, PAGES);
  }

  lemma NotMappedYet(m0: Memory, m: Memory, root: nat, pages: seq<nat>, frames: seq<nat>, window: set<nat>, f: nat,
                     v: nat)
    requires Window(m0, m, root, pages, frames, window) && v !in window && GoodFrames(frames + [f])
    ensures v !in pages && PAGES !in pages && GoodFrames(frames)
  {
    assert forall j | 0 <= j < |frames| :: frames[j] == (frames + [f])[j];
  }

  /// Either page v is mapped onto the zeroed frame f as well, or nothing more is mapped.
  ghost predicate Backed(s0: Space, s: Space, root: nat, pages: seq<nat>, frames: seq<nat>, window: set<nat>, v: nat,
                         f: nat)
  {
    if f == 0 then Partly(s0, s, root, pages, frames, window)
    else Partly(s0, s, root, pages + [v], frames + [f], window + {v}) && Zeroed(s.store.mem, frames + [f])
  }

  lemma MapOntoOk(s0: Space, s1: Space, root: nat, pages: seq<nat>, frames: seq<nat>, window: set<nat>, f: nat, v: nat)
    requires forall t :: t in s0.pos ==> Live(s0.store, t)
    requires GrowsWith(s0, s1, frames + [f]) && GoodFrames(frames + [f]) && Zeroed(s1.store.mem, frames + [f])
    requires Window(s0.store.mem, s1.store.mem, root, pages, frames, window) && v !in window && v < PAGES
    requires Sound(s1, root) && Live(s1.store, f) && f !in s1.pos && 0 < f < FRAMES
    ensures var (s', g) := MapOnto(s1, root, v, f); Backed(s0, s', root, pages, frames, window, v, g)
  {
    MapOk(s1, root, v, f, IMAGE_FLAGS);
    MapKeepsSmall(s1, root, v, f, IMAGE_FLAGS);
    ImageFlags(f);
    var (s2, ok) := MapIn(s1, root, v, f, IMAGE_FLAGS);
    if ok {
      AfterMap(s0, s1, s2, root, pages, frames, window, f, v);
    } else {
      GiveOk(s2, root, f);
      AfterMapFails(s0, s1, s2, Give(s2, f), root, pages, frames, window, f, v);
    }
  }

  lemma BackPageOk(s0: Space, s: Space, root: nat, pages: seq<nat>, frames: seq<nat>, window: set<nat>, v: nat)
    requires Partly(s0, s, root, pages, frames, window) && Zeroed(s.store.mem, frames) && v !in window && v < PAGES
    ensures var (s', f) := BackPage(s, root, v); Backed(s0, s', root, pages, frames, window, v, f)
  {
    TakeOk(s, root);
    var (s1, f) := Take(s);
    if f != 0 {
      AfterTake(s0, s, s1, root, pages, frames, window, f);
      MapOntoOk(s0, s1, root, pages, frames, window, f, v);
    }
  }

  // What taking a frame for page v keeps, and what giving it back keeps when v cannot be mapped.
  lemma TakeFacts(s: Space, root: nat, tlb: set<Cached>)
    requires Sound(s, root) && Coherent(tlb, s.store.mem, root)
    ensures var (s1, f) := Take(s);
            && Sound(s1, root) && s1.pos == s.pos && Coherent(tlb, s1.store.mem, root) && f < FRAMES
            && (f == 0 ==> s1 == s)
            && (f != 0 ==> Live(s1.store, f) && f !in s1.pos)
  {
    TakeOk(s, root);
    SameCoheres(tlb, s.store.mem, Take(s).0.store.mem, root);
  }

  lemma GiveFacts(s: Space, root: nat, v: nat, f: FrameNo)
    requires Sound(s, root) && v < PAGES && f != 0 && Live(s.store, f) && f !in s.pos
    ensures var (s', ok) := MapIn(s, root, v, f, IMAGE_FLAGS);
            && Sound(s', root)
            && (!ok ==>
                  && Live(s'.store, f) && Sound(Give(s', f), root)
                  && SameLookups(s'.store.mem, Give(s', f).store.mem, root))
  {
    MapOk(s, root, v, f, IMAGE_FLAGS);
    GiveOk(MapIn(s, root, v, f, IMAGE_FLAGS).0, root, f);
  }

  // ---- the whole loop --------------------------------------------------------------------

  ghost predicate SameMembers(window: set<nat>, pages: seq<nat>) {
    forall u :: u in window <==> u in pages
  }

  /// How the mapping loop ends: with every page on a zeroed frame of its own, or with the pages
  /// mapped so far unmapped again and every other page as it was.
  ghost predicate Ends(s0: Space, s: Space, root: nat, pages: seq<nat>, out: Outcome) {
    match out
    case Loaded(frames) =>
      Zeroed(s.store.mem, frames)
        && exists window :: SameMembers(window, pages) && Partly(s0, s, root, pages, frames, window)
    case Failed(mapped) =>
      |mapped| < |pages| && mapped <= pages
        && exists window :: SameMembers(window, mapped) && RolledBack(s0, s, root, window)
  }

  lemma EndsHere(s0: Space, s: Space, root: nat, pages: seq<nat>, frames: seq<nat>, window: set<nat>, all: seq<nat>)
    requires Partly(s0, s, root, pages, frames, window) && Zeroed(s.store.mem, frames) && SameMembers(window, pages)
    requires all == pages
    ensures Ends(s0, s, root, all, Loaded(frames))
  {
  }

  lemma EndsUndone(s0: Space, s: Space, root: nat, pages: seq<nat>, frames: seq<nat>, window: set<nat>, all: seq<nat>)
    requires Partly(s0, s, root, pages, frames, window) && SameMembers(window, pages)
    requires |pages| < |all| && pages <= all
    ensures Ends(s0, UnmapPages(s, root, pages), root, all, Failed(pages))
  {
    UnmapPagesOk(s0, s, root, pages, frames, window);
  }

  lemma NextPage(pages: seq<nat>, todo: seq<nat>, all: seq<nat>)
    requires todo != [] && all == pages + todo && Distinct(all)
    ensures all == (pages + [todo[0]]) + todo[1..] && todo[0] !in pages && pages <= all && |pages| < |all|
  {
    assert all[|pages|] == todo[0];
    forall j | 0 <= j < |pages|
      ensures pages[j] != todo[0]
    {
      assert all[j] == pages[j];
    }
  }

  lemma {:induction false} MapPagesOk(s0: Space, s: Space, root: nat, todo: seq<nat>, pages: seq<nat>, frames: seq<nat>,
                                      window: set<nat>, all: seq<nat>)
    requires Partly(s0, s, root, pages, frames, window) && Zeroed(s.store.mem, frames) && SameMembers(window, pages)
    requires all == pages + todo && Distinct(all) && forall u | u in todo :: u < PAGES
    ensures var (s', out) := MapPages(s, root, todo, pages, frames); Ends(s0, s', root, all, out)
    decreases |todo|
  {
    if todo == [] {
      EndsHere(s0, s, root, pages, frames, window, all);
    } else {
      NextPage(pages, todo, all);
      assert todo[0] in todo;
      BackPageOk(s0, s, root, pages, frames, window, todo[0]);
      var (s1, f) := BackPage(s, root, todo[0]);
      if f == 0 {
        EndsUndone(s0, s1, root, pages, frames, window, all);
      } else {
        NextMembers(window, pages, todo);
        MapPagesOk(s0, s1, root, todo[1..], pages + [todo[0]], frames + [f], window + {todo[0]}, all);
      }
    }
  }

  lemma NextMembers(window: set<nat>, pages: seq<nat>, todo: seq<nat>)
    requires SameMembers(window, pages) && todo != []
    ensures SameMembers(window + {todo[0]}, pages + [todo[0]])
    ensures forall u :: u in todo[1..] ==> u in todo
  {
  }

  /// What the mapping loop keeps: `pages` are mapped onto `frames`, `todo` remains of `all`.
  ghost predicate Midway(s0: Space, s: Space, root: nat, todo: seq<nat>, pages: seq<nat>, frames: seq<nat>,
                         window: set<nat>, all: seq<nat>)
  {
    && Partly(s0, s, root, pages, frames, window) && Zeroed(s.store.mem, frames) && SameMembers(window, pages)
    && all == pages + todo && Distinct(all) && (forall u | u in todo :: u < PAGES)
    && MapPages(s, root, todo, pages, frames) == MapPages(s0, root, all, [], [])
  }

  lemma MapRound(s0: Space, s: Space, root: nat, todo: seq<nat>, pages: seq<nat>, frames: seq<nat>, window: set<nat>,
                 all: seq<nat>, v: nat)
    requires Midway(s0, s, root, todo, pages, frames, window, all) && todo != [] && v == todo[0]
    ensures var (s1, f) := BackPage(s, root, v);
            if f == 0 then
              Partly(s0, s1, root, pages, frames, window)
                && MapPages(s0, root, all, [], []) == (UnmapPages(s1, root, pages), Failed(pages))
            else Midway(s0, s1, root, todo[1..], pages + [v], frames + [f], window + {v}, all)
  {
    NextPage(pages, todo, all);
    assert todo[0] in todo;
    BackPageOk(s0, s, root, pages, frames, window, v);
    NextMembers(window, pages, todo);
  }

  lemma StartEmpty(s: Space, root: nat)
    requires Sound(s, root)
    ensures Partly(s, s, root, [], [], {}) && Zeroed(s.store.mem, [])
  {
  }

  /// Backing distinct pages with frames either succeeds for all of them or is undone.
  lemma BackImageOk(s: Space, root: nat, pages: seq<nat>)
    requires Sound(s, root) && Distinct(pages) && forall u | u in pages :: u < PAGES
    ensures var (s', out) := MapPages(s, root, pages, [], []); Ends(s, s', root, pages, out)
  {
    StartEmpty(s, root);
    assert [] + pages == pages;
    MapPagesOk(s, s, root, pages, [], [], {}, pages);
  }
}
