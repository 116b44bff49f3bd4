/// What loads do to the rest of the address space: the allocator's frames, pages a failed load leaves
/// mapped, and frames that earlier loads had mapped.

module LoadEffects {
  import opened PhysicalMemory
  import opened Frames
  import opened Translation
  import opened Paging
  import opened PageMapping
  import opened Loading
  import opened Images
  import opened Overlays
  import opened Loaders
  import opened BootTables
  import opened Regions
  import opened Bytes

  // ---- loads and the allocator's frames --------------------------------------------------

  /// How many pages a load gets to.
  ghost function Reached(s: Space, base: nat, n: nat): (k: nat)
    ensures k <= n
  {
    if FramesSuffice(s, base, n) then n else Affordable(s, base, n)
  }

  lemma LoadedKeepsFrames(s: Space, s': Space, root: nat, base: nat, n: nat, content: seq<Byte>)
    requires FramesHome(s, root) && LoadedAs(s, s', root, base, n, content)
    ensures FramesHome(s', root) <==> Misses(s.store.pmm, PagesFrom(base, n))
  {
    var pages := PagesFrom(base, n);
    var frames, window :| SameMembers(window, pages) && Partly(s, s', root, pages, frames, window);
    if j :| 0 <= j < n && InFrames(s.store.pmm, pages[j]) {
      assert PageIs(s'.store.mem, root, pages[j], frames[j]);
      assert InFrames(s'.store.pmm, pages[j]);
    } else {
      assert forall u :: u in window ==> u in pages && !InFrames(s.store.pmm, u);
      ElsewhereKeepsFrames(s, s', root, window);
    }
  }

  lemma UndoneKeepsFrames(s: Space, s': Space, root: nat, base: nat, n: nat, k: nat)
    requires FramesHome(s, root) && Undone(s, s', root, base, n, k)
    ensures FramesHome(s', root) <==> Misses(s.store.pmm, PagesFrom(base, n)[..k])
  {
    var pages := PagesFrom(base, n)[..k];
    var window :| SameMembers(window, pages) && RolledBack(s, s', root, window);
    if j :| 0 <= j < k && InFrames(s.store.pmm, pages[j]) {
      assert pages[j] in window;
      assert InFrames(s'.store.pmm, pages[j]);
    } else {
      assert forall u :: u in window ==> u in pages && !InFrames(s.store.pmm, u);
      ElsewhereKeepsFrames(s, s', root, window);
    }
  }

  /// A load of a section keeps every frame of the allocator at its own address exactly when no page
  /// it gets to has the address of such a frame.
  lemma SectionKeepsFrames(s: Space, root: nat, base: nat, size: nat, src: seq<Byte>)
    requires Sound(s, root) && FramesHome(s, root) && base / 4096 + PageCount(size) <= PAGES
    requires base % 4096 + size <= 4096 * PageCount(size)
    ensures var n := PageCount(size);
            FramesHome(LoadSection(s, root, base, size, src).0, root)
            <==> Misses(s.store.pmm, PagesFrom(base, n)[..Reached(s, base, n)])
  {
    hide LoadSection, SectionContent;
    var s', n := LoadSection(s, root, base, size, src).0, PageCount(size);
    SectionOutcome(s, root, base, size, src);
    assert PagesFrom(base, n)[..n] == PagesFrom(base, n);
    if FramesSuffice(s, base, n) {
      LoadedKeepsFrames(s, s', root, base, n, SectionContent(base, size, src));
    } else {
      UndoneKeepsFrames(s, s', root, base, n, Affordable(s, base, n));
    }
  }

  /// The same for a PE32+ image, whose base the code does not compare with anything.
  lemma ImageKeepsFrames(s: Space, root: nat, base: nat, imageSize: nat, blob: seq<Byte>, secs: seq<Section>)
    requires Sound(s, root) && FramesHome(s, root) && base / 4096 + PageCount(imageSize) <= PAGES
    requires base % 4096 + imageSize <= 4096 * PageCount(imageSize)
    ensures var n := PageCount(imageSize);
            FramesHome(LoadImage(s, root, base, imageSize, blob, secs).0, root)
            <==> Misses(s.store.pmm, PagesFrom(base, n)[..Reached(s, base, n)])
  {
    hide LoadImage, Shows;
    var (s', r) := LoadImage(s, root, base, imageSize, blob, secs);
    var n, o := PageCount(imageSize), Shows(base, Zeros(imageSize), blob, secs);
    ImageOutcome(s, root, base, imageSize, blob, secs);
    assert PagesFrom(base, n)[..n] == PagesFrom(base, n);
    if FramesSuffice(s, base, n) && o.Some? {
      LoadedKeepsFrames(s, s', root, base, n, o.value);
    } else {
      var k := if FramesSuffice(s, base, n) then n else Affordable(s, base, n);
      UndoneKeepsFrames(s, s', root, base, n, k);
    }
  }

  /// A section that misses the allocator's frames is loaded faithfully or not at all, exactly as
  /// the frames suffice, and the frames stay reachable at their own addresses.
  lemma LoadSectionOk(s: Space, root: nat, base: nat, size: nat, src: seq<Byte>)
    requires Sound(s, root) && base / 4096 + PageCount(size) <= PAGES
    requires base % 4096 + size <= 4096 * PageCount(size)
    requires Misses(s.store.pmm, PagesFrom(base, PageCount(size)))
    ensures var (s', r) := LoadSection(s, root, base, size, src);
            var n := PageCount(size);
            && (if FramesSuffice(s, base, n) then
                  r == Image(base) && LoadedAs(s, s', root, base, n, SectionContent(base, size, src))
                else r == OutOfMemory && Undone(s, s', root, base, n, Affordable(s, base, n)))
            && (FramesHome(s, root) ==> FramesHome(s', root))
  {
    SectionOutcome(s, root, base, size, src);
    if FramesHome(s, root) {
      SectionKeepsFrames(s, root, base, size, src);
      FirstMisses(s.store.pmm, PagesFrom(base, PageCount(size)), Affordable(s, base, PageCount(size)));
    }
  }

  lemma FirstMisses(p: Pmm, pages: seq<nat>, k: nat)
    requires Misses(p, pages) && k <= |pages|
    ensures Misses(p, pages[..k])
  {
  }

  /// An image that misses the allocator's frames is loaded faithfully or not at all, exactly as the
  /// frames suffice and its sections fit, and the frames stay reachable at their own addresses.
  lemma LoadImageOk(s: Space, root: nat, base: nat, imageSize: nat, blob: seq<Byte>, secs: seq<Section>)
    requires Sound(s, root) && base / 4096 + PageCount(imageSize) <= PAGES
    requires base % 4096 + imageSize <= 4096 * PageCount(imageSize)
    requires Misses(s.store.pmm, PagesFrom(base, PageCount(imageSize)))
    ensures var (s', r) := LoadImage(s, root, base, imageSize, blob, secs);
            var n := PageCount(imageSize);
            && (if FramesSuffice(s, base, n) then
                  SectionsEnd(s, s', root, base, n, Shows(base, Zeros(imageSize), blob, secs), r)
                else r == OutOfMemory && Undone(s, s', root, base, n, Affordable(s, base, n)))
            && (FramesHome(s, root) ==> FramesHome(s', root))
  {
    ImageOutcome(s, root, base, imageSize, blob, secs);
    if FramesHome(s, root) {
      ImageKeepsFrames(s, root, base, imageSize, blob, secs);
      FirstMisses(s.store.pmm, PagesFrom(base, PageCount(imageSize)), Affordable(s, base, PageCount(imageSize)));
    }
  }

  /// An image based at the address of the root table takes that address away from it: the next walk
  /// would read the image's own bytes as page tables.
  lemma RootOverwritten(s: Space, root: nat, size: nat, blob: seq<Byte>)
    requires Sound(s, root) && FramesHome(s, root) && 0 < size <= 4096 && FramesSuffice(s, 4096 * root, 1)
    ensures var s' := LoadImage(s, root, 4096 * root, size, blob, []).0;
            && !FramesHome(s', root)
            && Lookup(s'.store.mem, root, root).Some? && Lookup(s'.store.mem, root, root).value.frame != root
  {
    hide LoadImage, Shows, FramesSuffice;
    assert Live(s.store, root) && TableOk(s.store.mem, root, s.pos, root) by {
      assert root in s.pos;
    }
    var s', n := LoadImage(s, root, 4096 * root, size, blob, []).0, PageCount(size);
    assert n == 1 && PagesFrom(4096 * root, 1) == [root];
    ImageOutcome(s, root, 4096 * root, size, blob, []);
    ImageKeepsFrames(s, root, 4096 * root, size, blob, []);
    assert !Misses(s.store.pmm, [root][..1]) by {
      assert InFrames(s.store.pmm, [root][..1][0]);
    }
    NothingToShow(4096 * root, Zeros(size), blob);
    var frames, window :| Partly(s, s', root, [root], frames, window) && SameMembers(window, [root]);
    assert PageIs(s'.store.mem, root, [root][0], frames[0]) && frames[0] in frames;
  }

  // ---- what a failed load leaves ---------------------------------------------------------

  /// With no frame left a load fails at its first page and changes nothing at all: pages of the
  /// window that the identity map covered stay mapped.
  lemma OutOfFrames(s: Space, root: nat, base: nat, size: nat, src: seq<Byte>)
    requires Sound(s, root) && Alloc(s.store).1 == 0 && size > 0
    ensures LoadSection(s, root, base, size, src) == (s, OutOfMemory)
  {
    AllocOk(s.store);
    var pages := PagesFrom(base, PageCount(size));
    assert pages != [];
    assert BackPage(s, root, pages[0]) == (s, 0);
  }

  ghost predicate NoneMapped(m: Memory, root: nat, pages: seq<nat>) {
    forall j | 0 <= j < |pages| :: Lookup(m, root, pages[j]) == None
  }

  // Rolled back after k pages: those are unmapped, the others are as they were.
  lemma UndoneLeaves(s: Space, s': Space, root: nat, base: nat, n: nat, k: nat)
    requires base / 4096 + n <= PAGES && Undone(s, s', root, base, n, k)
    ensures NoneMapped(s'.store.mem, root, PagesFrom(base, n))
            <==> NoneMapped(s.store.mem, root, PagesFrom(base, n)[k..])
  {
    var pages := PagesFrom(base, n);
    var window :| SameMembers(window, pages[..k]) && RolledBack(s, s', root, window);
    forall j | 0 <= j < n
      ensures Lookup(s'.store.mem, root, pages[j]) == if j < k then None else Lookup(s.store.mem, root, pages[j])
      ensures j >= k ==> pages[k..][j - k] == pages[j]
    {
      if j < k {
        assert pages[j] == pages[..k][j];
        assert pages[j] in window;
      } else {
        assert forall i | 0 <= i < k :: pages[..k][i] != pages[j];
        assert pages[j] !in window;
      }
    }
    assert forall j | 0 <= j < n - k :: pages[k..][j] == pages[k + j];
  }

  /// A section that could not be loaded for lack of frames leaves no page of its range mapped exactly
  /// when the pages beyond those that were affordable had not been mapped before.
  lemma SectionResidue(s: Space, root: nat, base: nat, size: nat, src: seq<Byte>)
    requires Sound(s, root) && base / 4096 + PageCount(size) <= PAGES
    requires !FramesSuffice(s, base, PageCount(size))
    ensures var pages := PagesFrom(base, PageCount(size));
            NoneMapped(LoadSection(s, root, base, size, src).0.store.mem, root, pages)
            <==> NoneMapped(s.store.mem, root, pages[Affordable(s, base, PageCount(size))..])
  {
    hide LoadSection, NoneMapped;
    var n := PageCount(size);
    SectionUndone(s, root, base, size, src);
    UndoneLeaves(s, LoadSection(s, root, base, size, src).0, root, base, n, Affordable(s, base, n));
  }

  /// The same for an image; one that is refused for its sections always leaves no page mapped.
  lemma ImageResidue(s: Space, root: nat, base: nat, imageSize: nat, blob: seq<Byte>, secs: seq<Section>)
    requires Sound(s, root) && base / 4096 + PageCount(imageSize) <= PAGES
    requires FramesSuffice(s, base, PageCount(imageSize)) ==>
               !SectionsFit(secs, imageSize, |blob|) && base % 4096 + imageSize <= 4096 * PageCount(imageSize)
    ensures var n := PageCount(imageSize);
            NoneMapped(LoadImage(s, root, base, imageSize, blob, secs).0.store.mem, root, PagesFrom(base, n))
            <==>
            || FramesSuffice(s, base, n)
            || NoneMapped(s.store.mem, root, PagesFrom(base, n)[Affordable(s, base, n)..])
  {
    hide LoadImage, Stored;
    var n := PageCount(imageSize);
    var s' := LoadImage(s, root, base, imageSize, blob, secs).0;
    if FramesSuffice(s, base, n) {
      ImageOutcome(s, root, base, imageSize, blob, secs);
      assert PagesFrom(base, n)[..n] == PagesFrom(base, n);
      assert Undone(s, s', root, base, n, n);
      UndoneLeaves(s, s', root, base, n, n);
    } else {
      ImageUndone(s, root, base, imageSize, blob, secs);
      UndoneLeaves(s, s', root, base, n, Affordable(s, base, n));
    }
  }

  /// Two GiB mapped to themselves with the last frame the region had: a load into the image window
  /// fails, and its page stays mapped.
  lemma PageStaysMapped(m: Memory, src: seq<Byte>)
    ensures var (s, root) := InitTables(Store(m, Init(PRISTINE, 4096, 4 * 4096), []), 2);
            var (s', r) := LoadSection(s, root, WINDOW_START, 4096, src);
            && root != 0 && Sound(s, root) && r == OutOfMemory
            && Lookup(s'.store.mem, root, WINDOW_START / 4096) == Some(IdentityMapping(WINDOW_START / 4096))
  {
    hide InitTables, LoadSection, Lookup;
    var st := Store(m, Init(PRISTINE, 4096, 4 * 4096), []);
    InitOk(m, 4096, 4 * 4096);
    InitTablesOk(st, 2);
    InitTablesSucceeds(st, 2);
    var (s, root) := InitTables(st, 2);
    AllocSucceeds(s.store);
    OutOfFrames(s, root, WINDOW_START, 4096, src);
  }

  // ---- frames that are lost --------------------------------------------------------------

  /// Page v translates to frame f.
  predicate LeadsTo(s: Space, root: nat, v: nat, f: nat) {
    var o := Lookup(s.store.mem, root, v); o.Some? && o.value.frame == f
  }

  /// Page v has an entry of its own for f, which is handed out: unmapping v is the way to give f back.
  predicate Holds(s: Space, root: nat, v: nat, f: nat) {
    v < PAGES && Small(s.store.mem, root, v) && LeadsTo(s, root, v, f) && Live(s.store, f)
  }

  /// A page that held frame f no longer leads to it, and f is still handed out.
  ghost predicate Loses(s: Space, s': Space, root: nat, f: nat) {
    Live(s'.store, f) && exists v :: Holds(s, root, v, f) && !LeadsTo(s', root, v, f)
  }

  /// Frame f is held by one of the pages.
  ghost predicate Held(s: Space, root: nat, pages: seq<nat>, f: nat) {
    exists v :: v in pages && Holds(s, root, v, f)
  }

  lemma LoadedLoses(s: Space, s': Space, root: nat, base: nat, n: nat, content: seq<Byte>, f: nat)
    requires LoadedAs(s, s', root, base, n, content)
    ensures Loses(s, s', root, f) <==> Held(s, root, PagesFrom(base, n), f)
  {
    hide Small, Lookup;
    var pages := PagesFrom(base, n);
    var frames, window :| SameMembers(window, pages) && Partly(s, s', root, pages, frames, window);
    if v :| Holds(s, root, v, f) && !LeadsTo(s', root, v, f) {
      assert v in window;
      assert v in pages;
    }
    if v :| v in pages && Holds(s, root, v, f) {
      var j :| 0 <= j < n && pages[j] == v;
      assert PageIs(s'.store.mem, root, pages[j], frames[j]) && frames[j] in frames;
      assert !LeadsTo(s', root, pages[j], f);
    }
  }

  lemma UndoneLoses(s: Space, s': Space, root: nat, base: nat, n: nat, k: nat, f: nat)
    requires Undone(s, s', root, base, n, k)
    ensures Loses(s, s', root, f) <==> Held(s, root, PagesFrom(base, n)[..k], f)
  {
    hide Small, Lookup;
    var pages := PagesFrom(base, n)[..k];
    var window :| SameMembers(window, pages) && RolledBack(s, s', root, window);
    if v :| Holds(s, root, v, f) && !LeadsTo(s', root, v, f) {
      assert v in window;
      assert v in pages;
    }
    if v :| v in pages && Holds(s, root, v, f) {
      assert v in window;
      assert !LeadsTo(s', root, v, f);
    }
  }

  /// A load, whether it ends well or not, loses a frame exactly when a page it gets to held it: nothing
  /// is unmapped before it is mapped again.
  lemma SectionLoses(s: Space, root: nat, base: nat, size: nat, src: seq<Byte>, f: nat)
    requires Sound(s, root) && base / 4096 + PageCount(size) <= PAGES
    requires FramesSuffice(s, base, PageCount(size)) ==> base % 4096 + size <= 4096 * PageCount(size)
    ensures var n := PageCount(size);
            Loses(s, LoadSection(s, root, base, size, src).0, root, f)
            <==> Held(s, root, PagesFrom(base, n)[..Reached(s, base, n)], f)
  {
    hide LoadSection, SectionContent, Loses, Holds;
    var s', n := LoadSection(s, root, base, size, src).0, PageCount(size);
    assert PagesFrom(base, n)[..n] == PagesFrom(base, n);
    if FramesSuffice(s, base, n) {
      SectionOutcome(s, root, base, size, src);
      LoadedLoses(s, s', root, base, n, SectionContent(base, size, src), f);
    } else {
      SectionUndone(s, root, base, size, src);
      UndoneLoses(s, s', root, base, n, Affordable(s, base, n), f);
    }
  }

  lemma ImageLoses(s: Space, root: nat, base: nat, imageSize: nat, blob: seq<Byte>, secs: seq<Section>, f: nat)
    requires Sound(s, root) && base / 4096 + PageCount(imageSize) <= PAGES
    requires FramesSuffice(s, base, PageCount(imageSize)) ==> base % 4096 + imageSize <= 4096 * PageCount(imageSize)
    ensures var n := PageCount(imageSize);
            Loses(s, LoadImage(s, root, base, imageSize, blob, secs).0, root, f)
            <==> Held(s, root, PagesFrom(base, n)[..Reached(s, base, n)], f)
  {
    hide LoadImage, Shows, Loses, Holds;
    var s', n := LoadImage(s, root, base, imageSize, blob, secs).0, PageCount(imageSize);
    var o := Shows(base, Zeros(imageSize), blob, secs);
    assert PagesFrom(base, n)[..n] == PagesFrom(base, n);
    if !FramesSuffice(s, base, n) {
      ImageUndone(s, root, base, imageSize, blob, secs);
      UndoneLoses(s, s', root, base, n, Affordable(s, base, n), f);
    } else {
      ImageOutcome(s, root, base, imageSize, blob, secs);
      if o.Some? {
        LoadedLoses(s, s', root, base, n, o.value, f);
      } else {
        UndoneLoses(s, s', root, base, n, n, f);
      }
    }
  }

  /// The failing case: a section that is loaded again loses the frames it had, page by page.
  lemma LoadedAgain(s: Space, root: nat, base: nat, size: nat, src: seq<Byte>, j: nat)
    requires Sound(s, root) && base / 4096 + PageCount(size) <= PAGES
    requires base % 4096 + size <= 4096 * PageCount(size) && FramesSuffice(s, base, PageCount(size))
    requires j < Reached(LoadSection(s, root, base, size, src).0, base, PageCount(size))
    ensures var s1 := LoadSection(s, root, base, size, src).0;
            var o := Lookup(s1.store.mem, root, PagesFrom(base, PageCount(size))[j]);
            && Sound(s1, root) && o.Some?
            && Loses(s1, LoadSection(s1, root, base, size, src).0, root, o.value.frame)
  {
    hide LoadSection, SectionContent, Loses, Small, Lookup;
    var s1, n := LoadSection(s, root, base, size, src).0, PageCount(size);
    var pages := PagesFrom(base, n);
    SectionOutcome(s, root, base, size, src);
    var frames, window :| SameMembers(window, pages) && Partly(s, s1, root, pages, frames, window);
    assert PageIs(s1.store.mem, root, pages[j], frames[j]) && frames[j] in frames && pages[j] in pages;
    assert Holds(s1, root, pages[j], frames[j]);
    assert pages[..Reached(s1, base, n)][j] == pages[j];
    SectionLoses(s1, root, base, size, src, frames[j]);
  }
}
