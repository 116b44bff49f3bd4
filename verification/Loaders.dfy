/// The two image loaders: a PEF section (pef_load_section) and a PE32+ image (PE32Loader::LoadImage).

module Loaders {
  import opened PhysicalMemory
  import opened Translation
  import opened Paging
  import opened PageMapping
  import opened Bytes
  import opened Loading
  import opened Images
  import opened Overlays
  import opened ImageCost

  /// Memory after rt_copy_memory_safe to virtual address dst; a null destination is left alone.
  function CopySafe(m: Memory, root: nat, dst: nat, src: seq<Byte>, dstSize: nat): Memory {
    if dst == 0 then m else CopyIn(m, root, dst, SafeBytes(src, dstSize))
  }

  /// The backing frames hold `content` from offset y on.
  ghost predicate Shown(m: Memory, frames: seq<nat>, y: nat, content: seq<Byte>) {
    && y + |content| <= 4096 * |frames|
    && forall x: nat | y <= x < y + |content| :: ViewByte(m, frames, x) == content[x - y]
  }

  /// Reading memory through the page tables at address base gives `content`.
  ghost predicate Reads(m: Memory, root: nat, base: nat, content: seq<Byte>) {
    forall va: nat | base <= va < base + |content| :: LoadByte(m, root, va) == Some(content[va - base])
  }

  lemma ShownReads(m: Memory, root: nat, base: nat, pages: seq<nat>, frames: seq<nat>, y: nat, content: seq<Byte>)
    requires pages == PagesFrom(base, |frames|) && Backs(m, root, pages, frames)
    requires Shown(m, frames, y, content) && y == base % 4096
    ensures Reads(m, root, base, content)
  {
    hide LoadByte, ViewByte, Backs, StoreByte, WriteByte;
    forall va: nat | base <= va < base + |content|
      ensures LoadByte(m, root, va) == Some(content[va - base])
    {
      var x := va - (base - y);
      AccessInImage(m, root, base, pages, frames, va, x, 0);
      assert ViewByte(m, frames, x) == content[x - y];
    }
  }

  lemma ZeroShown(m: Memory, frames: seq<nat>, y: nat, size: nat)
    requires Zeroed(m, frames) && y + size <= 4096 * |frames|
    ensures Shown(m, frames, y, Zeros(size))
  {
    forall x: nat | y <= x < y + size
      ensures ViewByte(m, frames, x) == 0
    {
      ZeroView(m, frames, x);
    }
  }

  lemma CopiedShown(m: Memory, m': Memory, frames: seq<nat>, y: nat, img: seq<Byte>, at: nat, data: seq<Byte>, z: nat)
    requires Shown(m, frames, y, img) && at + |data| <= |img| && z == y + at && Copied(m, m', frames, z, data)
    ensures Shown(m', frames, y, Overlaid(img, at, data))
  {
    hide ViewByte;
    var img' := Overlaid(img, at, data);
    forall x: nat | y <= x < y + |img'|
      ensures ViewByte(m', frames, x) == img'[x - y]
    {
      assert ViewByte(m, frames, x) == img[x - y];
    }
  }

  /// What rt_copy_memory_safe leaves in an image, byte by byte: the source, or zeros over the whole
  /// destination when the source is too long; nothing changes for a null destination.
  lemma CopySafeBytes(s0: Space, s: Space, root: nat, base: nat, pages: seq<nat>, frames: seq<nat>, window: set<nat>,
                      dst: nat, x: nat, src: seq<Byte>, dstSize: nat, y: nat)
    requires Partly(s0, s, root, pages, frames, window) && pages == PagesFrom(base, |frames|)
    requires IsByte(base, dst, x) && x + dstSize <= 4096 * |frames| && y < 4096 * |frames|
    ensures var m' := CopySafe(s.store.mem, root, dst, src, dstSize);
            ViewByte(m', frames, y)
            == if dst > 0 && |src| > dstSize && x <= y < x + dstSize then 0
               else if dst > 0 && |src| <= dstSize && x <= y < x + |src| then src[y - x]
               else ViewByte(s.store.mem, frames, y)
  {
    if dst > 0 {
      CopyKeeps(s0, s, root, base, pages, frames, window, dst, x, SafeBytes(src, dstSize));
    }
  }

  /// Every page of a loaded image is mapped for reading, writing and running, in user mode too.
  lemma LoadedRights(s: Space, s': Space, root: nat, base: nat, n: nat, content: seq<Byte>, j: nat)
    requires LoadedAs(s, s', root, base, n, content) && j < n
    ensures var o := Lookup(s'.store.mem, root, base / 4096 + j);
            o.Some? && o.value.write && o.value.user && o.value.execute && !o.value.attributes.pcd
  {
    hide Lookup, Small, Reads, GrowsWith, Sound;
    var frames, window :| SameMembers(window, PagesFrom(base, n))
                          && Partly(s, s', root, PagesFrom(base, n), frames, window);
    assert PageIs(s'.store.mem, root, PagesFrom(base, n)[j], frames[j]);
  }

  // ---- PEF -------------------------------------------------------------------------------

  datatype LoadResult = Image(base: nat) | OutOfMemory | InvalidData

  /// pef_load_section: the section's bytes at its virtual address, zeros up to its virtual size.
  function LoadSection(s: Space, root: nat, base: nat, size: nat, src: seq<Byte>): (Space, LoadResult) {
    var (s1, out) := MapPages(s, root, PagesFrom(base, PageCount(size)), [], []);
    if out.Failed? then (s1, OutOfMemory)
    else if src == [] then (s1, Image(base))
    else (WithMem(s1, CopySafe(s1.store.mem, root, base, src, size)), Image(base))
  }

  /// The whole result of a load: the image readable on fresh frames of its own, or nothing.
  ghost predicate LoadedAs(s: Space, s': Space, root: nat, base: nat, n: nat, content: seq<Byte>) {
    exists frames, window ::
      && SameMembers(window, PagesFrom(base, n))
      && Partly(s, s', root, PagesFrom(base, n), frames, window)
      && Reads(s'.store.mem, root, base, content)
  }

  /// The first k pages of the image had been mapped; they are unmapped, nothing else has changed.
  ghost predicate Undone(s: Space, s': Space, root: nat, base: nat, n: nat, k: nat) {
    k <= n && exists window :: SameMembers(window, PagesFrom(base, n)[..k]) && RolledBack(s, s', root, window)
  }

  /// The pages of an image that the free frames suffice for.
  ghost function Affordable(s: Space, base: nat, n: nat): nat {
    Fit(s.pos, PagesFrom(base, n), s.store.pmm.free)
  }

  /// There are frames for every page of an image and for the tables that are missing.
  ghost predicate FramesSuffice(s: Space, base: nat, n: nat) {
    s.store.pmm.free >= Cost(s.pos, PagesFrom(base, n))
  }

  /// Without the frames it needs a section is not loaded, whatever its base: only tables are left.
  lemma SectionUndone(s: Space, root: nat, base: nat, size: nat, src: seq<Byte>)
    requires Sound(s, root) && base / 4096 + PageCount(size) <= PAGES && !FramesSuffice(s, base, PageCount(size))
    ensures var (s', r) := LoadSection(s, root, base, size, src);
            r == OutOfMemory && Undone(s, s', root, base, PageCount(size), Affordable(s, base, PageCount(size)))
  {
    hide Partly, RolledBack, MapPages, Fit, Cost;
    PagesDistinct(base, PageCount(size));
    BackImageCost(s, root, PagesFrom(base, PageCount(size)));
    var out := MapPages(s, root, PagesFrom(base, PageCount(size)), [], []).1;
    assert out == Failed(out.mapped);
  }

  /// Where a section ends up in the tables: loaded exactly when the frames suffice, its bytes
  /// followed by zeros on distinct fresh frames, every other translation and every other live frame
  /// untouched; otherwise only tables are left.
  lemma SectionOutcome(s: Space, root: nat, base: nat, size: nat, src: seq<Byte>)
    requires Sound(s, root) && base / 4096 + PageCount(size) <= PAGES
    requires base % 4096 + size <= 4096 * PageCount(size)
    ensures var (s', r) := LoadSection(s, root, base, size, src);
            var n := PageCount(size);
            if FramesSuffice(s, base, n) then
              r == Image(base) && LoadedAs(s, s', root, base, n, SectionContent(base, size, src))
            else r == OutOfMemory && Undone(s, s', root, base, n, Affordable(s, base, n))
  {
    hide Partly, RolledBack, MapPages, Fit, Cost;
    var n := PageCount(size);
    var pages := PagesFrom(base, n);
    PagesDistinct(base, n);
    BackImageCost(s, root, pages);
    var (s1, out) := MapPages(s, root, pages, [], []);
    match out
    case Failed(mapped) =>
    case Loaded(frames) =>
      var window :| SameMembers(window, pages) && Partly(s, s1, root, pages, frames, window);
      var data := if base == 0 then [] else SafeBytes(src, size);
      FillSection(s, s1, root, base, size, pages, frames, window, data);
      if data == [] {
        assert CopyIn(s1.store.mem, root, base, data) == s1.store.mem;
      }
  }

  lemma FillSection(s: Space, s1: Space, root: nat, base: nat, size: nat, pages: seq<nat>, frames: seq<nat>,
                    window: set<nat>, data: seq<Byte>)
    requires Partly(s, s1, root, pages, frames, window) && Zeroed(s1.store.mem, frames) && SameMembers(window, pages)
    requires pages == PagesFrom(base, PageCount(size)) && base % 4096 + size <= 4096 * PageCount(size) && |data| <= size
    ensures LoadedAs(s, WithMem(s1, CopyIn(s1.store.mem, root, base, data)), root, base, PageCount(size),
                     Padded(data, size))
  {
    hide Partly, Shown, CopyIn, Zeroed, LoadedAs, Copied;
    var y := base % 4096;
    var m' := CopyIn(s1.store.mem, root, base, data);
    PartlyLengths(s, s1, root, pages, frames, window);
    ZeroShown(s1.store.mem, frames, y, size);
    CopyKeeps(s, s1, root, base, pages, frames, window, base, y, data);
    CopiedShown(s1.store.mem, m', frames, y, Zeros(size), 0, data, y);
    assert Overlaid(Zeros(size), 0, data) == Padded(data, size) by { LaidOverZeros(data, size); }
    ImageComplete(s, WithMem(s1, m'), root, base, PageCount(size), pages, frames, window, y, Padded(data, size));
  }

  lemma LaidOverZeros(data: seq<Byte>, size: nat)
    requires |data| <= size
    ensures Overlaid(Zeros(size), 0, data) == Padded(data, size)
  {
  }

  lemma PartlyLengths(s0: Space, s: Space, root: nat, pages: seq<nat>, frames: seq<nat>, window: set<nat>)
    requires Partly(s0, s, root, pages, frames, window)
    ensures |frames| == |pages|
  {
  }

  lemma ImageComplete(s: Space, s': Space, root: nat, base: nat, n: nat, pages: seq<nat>, frames: seq<nat>,
                      window: set<nat>, y: nat, content: seq<Byte>)
    requires Partly(s, s', root, pages, frames, window) && SameMembers(window, pages)
    requires pages == PagesFrom(base, n) && y == base % 4096 && Shown(s'.store.mem, frames, y, content)
    ensures LoadedAs(s, s', root, base, n, content)
  {
    PartlyBacks(s, s', root, pages, frames, window);
    ShownReads(s'.store.mem, root, base, pages, frames, y, content);
  }

  // ---- PE32+ -----------------------------------------------------------------------------

  /// Memory after the copy of one section.
  function CopySection(m: Memory, root: nat, base: nat, sec: Section, imageSize: nat, blob: seq<Byte>): Memory
    requires !Rejects(sec, imageSize, |blob|)
  {
    CopySafe(m, root, SectionAddress(base, sec), RawBytes(sec, blob), imageSize - sec.address)
  }

  /// The section loop of LoadImage.
  function LoadSections(s: Space, root: nat, base: nat, pages: seq<nat>, imageSize: nat, blob: seq<Byte>,
                        secs: seq<Section>)
    : (Space, LoadResult)
    decreases |secs|
  {
    if secs == [] then (s, Image(base))
    else if secs[0].rawSize == 0 then LoadSections(s, root, base, pages, imageSize, blob, secs[1..])
    else if Rejects(secs[0], imageSize, |blob|) then (UnmapPages(s, root, pages), InvalidData)
    else
      LoadSections(WithMem(s, CopySection(s.store.mem, root, base, secs[0], imageSize, blob)), root, base, pages,
                   imageSize, blob, secs[1..])
  }

  /// LoadImage past the header checks.
  function LoadImage(s: Space, root: nat, base: nat, imageSize: nat, blob: seq<Byte>, secs: seq<Section>)
    : (Space, LoadResult)
  {
    var pages := PagesFrom(base, PageCount(imageSize));
    var (s1, out) := MapPages(s, root, pages, [], []);
    if out.Failed? then (s1, OutOfMemory)
    else LoadSections(s1, root, base, pages, imageSize, blob, secs)
  }

  /// The section loop ends with the overlay readable, or with every page unmapped.
  ghost predicate SectionsEnd(s0: Space, s: Space, root: nat, base: nat, n: nat, o: Option<seq<Byte>>, r: LoadResult) {
    match o
    case Some(content) => r == Image(base) && LoadedAs(s0, s, root, base, n, content)
    case None =>
      && r == InvalidData
      && exists window :: SameMembers(window, PagesFrom(base, n)) && RolledBack(s0, s, root, window)
  }

  lemma {:induction false} LoadSectionsOk(s0: Space, s: Space, root: nat, base: nat, n: nat, pages: seq<nat>,
                                          frames: seq<nat>,
                                          window: set<nat>, y: nat, img: seq<Byte>, blob: seq<Byte>, secs: seq<Section>)
    requires Partly(s0, s, root, pages, frames, window) && SameMembers(window, pages)
    requires pages == PagesFrom(base, n) && y == base % 4096 && Shown(s.store.mem, frames, y, img)
    ensures var (s', r) := LoadSections(s, root, base, pages, |img|, blob, secs);
            SectionsEnd(s0, s', root, base, n, Shows(base, img, blob, secs), r)
    decreases |secs|
  {
    hide Shows, Partly, UnmapPages, LoadedAs;
    if secs == [] {
      NothingToShow(base, img, blob);
      ImageComplete(s0, s, root, base, n, pages, frames, window, y, img);
    } else {
      var sec := secs[0];
      ShowsStep(base, img, blob, secs);
      if sec.rawSize == 0 {
        LoadSectionsOk(s0, s, root, base, n, pages, frames, window, y, img, blob, secs[1..]);
      } else if Rejects(sec, |img|, |blob|) {
        UnmapPagesOk(s0, s, root, pages, frames, window);
      } else {
        OneSection(s0, s, root, base, n, pages, frames, window, y, img, blob, sec);
        var img' := if SectionAddress(base, sec) == 0 then img else Overlaid(img, sec.address, RawBytes(sec, blob));
        LoadSectionsOk(s0, WithMem(s, CopySection(s.store.mem, root, base, sec, |img|, blob)), root, base, n, pages,
                       frames, window, y, img', blob, secs[1..]);
      }
    }
  }

  lemma OneSection(s0: Space, s: Space, root: nat, base: nat, n: nat, pages: seq<nat>, frames: seq<nat>,
                   window: set<nat>, y: nat, img: seq<Byte>, blob: seq<Byte>, sec: Section)
    requires Partly(s0, s, root, pages, frames, window)
    requires pages == PagesFrom(base, n) && y == base % 4096 && Shown(s.store.mem, frames, y, img)
    requires !Rejects(sec, |img|, |blob|)
    ensures var s1 := WithMem(s, CopySection(s.store.mem, root, base, sec, |img|, blob));
            && Partly(s0, s1, root, pages, frames, window)
            && Shown(s1.store.mem, frames, y,
                     if SectionAddress(base, sec) == 0 then img
                     else Overlaid(img, sec.address, RawBytes(sec, blob)))
  {
    if SectionAddress(base, sec) == 0 {
      assert WithMem(s, s.store.mem) == s;
      return;
    }
    var data := RawBytes(sec, blob);
    var m' := CopySection(s.store.mem, root, base, sec, |img|, blob);
    var x := y + sec.address;
    CopyKeeps(s0, s, root, base, pages, frames, window, SectionAddress(base, sec), x, data);
    CopiedShown(s.store.mem, m', frames, y, img, sec.address, data, x);
  }

  /// Without the frames it needs an image is not loaded, whatever its base and sections.
  lemma ImageUndone(s: Space, root: nat, base: nat, imageSize: nat, blob: seq<Byte>, secs: seq<Section>)
    requires Sound(s, root) && base / 4096 + PageCount(imageSize) <= PAGES
    requires !FramesSuffice(s, base, PageCount(imageSize))
    ensures var (s', r) := LoadImage(s, root, base, imageSize, blob, secs);
            && r == OutOfMemory
            && Undone(s, s', root, base, PageCount(imageSize), Affordable(s, base, PageCount(imageSize)))
  {
    hide Partly, RolledBack, MapPages, LoadSections, Fit, Cost;
    PagesDistinct(base, PageCount(imageSize));
    BackImageCost(s, root, PagesFrom(base, PageCount(imageSize)));
    var out := MapPages(s, root, PagesFrom(base, PageCount(imageSize)), [], []).1;
    assert out == Failed(out.mapped);
  }

  /// The same for a PE32+ image: mapped exactly when the frames suffice, and then its sections laid
  /// in order over zeros, but for those that go to the null address; it is refused for its sections
  /// exactly when one leaves the image or the file, and then no page of it stays mapped.
  lemma ImageOutcome(s: Space, root: nat, base: nat, imageSize: nat, blob: seq<Byte>, secs: seq<Section>)
    requires Sound(s, root) && base / 4096 + PageCount(imageSize) <= PAGES
    requires base % 4096 + imageSize <= 4096 * PageCount(imageSize)
    ensures var (s', r) := LoadImage(s, root, base, imageSize, blob, secs);
            var n := PageCount(imageSize);
            if FramesSuffice(s, base, n)
              then SectionsEnd(s, s', root, base, n, Shows(base, Zeros(imageSize), blob, secs), r)
            else r == OutOfMemory && Undone(s, s', root, base, n, Affordable(s, base, n))
  {
    hide RolledBack, MapPages, LoadSections, Shows, Fit, Cost;
    var n := PageCount(imageSize);
    var pages := PagesFrom(base, n);
    PagesDistinct(base, n);
    BackImageCost(s, root, pages);
    var (s1, out) := MapPages(s, root, pages, [], []);
    match out
    case Failed(mapped) =>
    case Loaded(frames) =>
      var window :| SameMembers(window, pages) && Partly(s, s1, root, pages, frames, window);
      ZeroShown(s1.store.mem, frames, base % 4096, imageSize);
      LoadSectionsOk(s, s1, root, base, n, pages, frames, window, base % 4096, Zeros(imageSize), blob, secs);
  }

  // ---- when an image is faithful -----------------------------------------------------------

  lemma SameContent(s: Space, s': Space, root: nat, base: nat, n: nat, a: seq<Byte>, b: seq<Byte>)
    requires LoadedAs(s, s', root, base, n, a) && |a| == |b|
    ensures LoadedAs(s, s', root, base, n, b) <==> a == b
  {
    hide Partly, LoadByte;
    var m := s'.store.mem;
    if LoadedAs(s, s', root, base, n, b) {
      assert Reads(m, root, base, a) && Reads(m, root, base, b);
      forall i | 0 <= i < |a|
        ensures a[i] == b[i]
      {
        assert LoadByte(m, root, base + i) == Some(a[base + i - base]);
        assert LoadByte(m, root, base + i) == Some(b[base + i - base]);
      }
    }
  }

  /// An image whose sections fit, with the frames it needs, is always reported as loaded; it reads as
  /// its sections laid in order over zeros exactly when nothing is lost.
  lemma ImageFaithful(s: Space, root: nat, base: nat, imageSize: nat, blob: seq<Byte>, secs: seq<Section>)
    requires Sound(s, root) && base / 4096 + PageCount(imageSize) <= PAGES
    requires base % 4096 + imageSize <= 4096 * PageCount(imageSize)
    requires FramesSuffice(s, base, PageCount(imageSize)) && SectionsFit(secs, imageSize, |blob|)
    ensures var (s', r) := LoadImage(s, root, base, imageSize, blob, secs);
            && r == Image(base) && Overlay(Zeros(imageSize), blob, secs).Some?
            && (LoadedAs(s, s', root, base, PageCount(imageSize), Overlay(Zeros(imageSize), blob, secs).value)
                <==> NothingLost(base, imageSize, blob, secs))
  {
    hide LoadImage, LoadedAs, Overlay, SectionsFit, NothingLost, Shows;
    var s' := LoadImage(s, root, base, imageSize, blob, secs).0;
    ImageOutcome(s, root, base, imageSize, blob, secs);
    ShowsAll(base, imageSize, blob, secs);
    var shown, all := Shows(base, Zeros(imageSize), blob, secs), Overlay(Zeros(imageSize), blob, secs);
    SameContent(s, s', root, base, PageCount(imageSize), shown.value, all.value);
  }

  /// The failing case: a section at address 0 of an image based at 0 holds one byte, 7; the load is
  /// reported as a success and the byte reads 0.
  lemma SectionLost(s: Space, root: nat)
    requires Sound(s, root) && FramesSuffice(s, 0, 1)
    ensures var blob, secs := [7], [Section(0, 1, 0)];
            var (s', r) := LoadImage(s, root, 0, 1, blob, secs);
            && r == Image(0) && Overlay(Zeros(1), blob, secs) == Some([7]) && LoadByte(s'.store.mem, root, 0) == Some(0)
  {
    hide LoadImage, LoadByte, FramesSuffice, Partly;
    var blob: seq<Byte>, secs := [7], [Section(0, 1, 0)];
    assert PageCount(1) == 1;
    assert secs[1..] == [] && RawBytes(secs[0], blob) == [7] && Overlaid(Zeros(1), 0, [7]) == [7];
    assert Stored(0, secs) == [];
    ImageOutcome(s, root, 0, 1, blob, secs);
    assert Shows(0, Zeros(1), blob, secs) == Some([0]) by {
      assert forall sec :: sec in secs ==> sec == secs[0];
      assert Zeros(1) == [0];
    }
    var s' := LoadImage(s, root, 0, 1, blob, secs).0;
    var content: seq<Byte> := [0];
    assert Reads(s'.store.mem, root, 0, content);
    assert LoadByte(s'.store.mem, root, 0) == Some(content[0 - 0]);
  }

  // ---- when a base leaves room -------------------------------------------------------------

  /// Where the page behind the counted ones is unmapped, a section is loaded faithfully exactly when
  /// its base leaves it room on the counted pages.
  lemma SectionNeedsRoom(s: Space, root: nat, base: nat, size: nat, src: seq<Byte>)
    requires Sound(s, root) && base / 4096 + PageCount(size) < PAGES && size > 0
    requires FramesSuffice(s, base, PageCount(size))
    requires Lookup(s.store.mem, root, base / 4096 + PageCount(size)) == None
    ensures var (s', r) := LoadSection(s, root, base, size, src);
            && r == Image(base)
            && (LoadedAs(s, s', root, base, PageCount(size), SectionContent(base, size, src))
                <==> base % 4096 + size <= 4096 * PageCount(size))
  {
    hide MapPages, Fit, Cost, Partly, SectionContent;
    var n := PageCount(size);
    PagesDistinct(base, n);
    BackImageCost(s, root, PagesFrom(base, n));
    if base % 4096 + size <= 4096 * n {
      SectionOutcome(s, root, base, size, src);
    } else {
      BehindUnread(s, LoadSection(s, root, base, size, src).0, root, base, size, SectionContent(base, size, src));
    }
  }

  /// The same for an image whose sections fit: without room it reads as no content at all.
  lemma ImageNeedsRoom(s: Space, root: nat, base: nat, imageSize: nat, blob: seq<Byte>, secs: seq<Section>)
    requires Sound(s, root) && base / 4096 + PageCount(imageSize) < PAGES && imageSize > 0
    requires FramesSuffice(s, base, PageCount(imageSize)) && SectionsFit(secs, imageSize, |blob|)
    requires Lookup(s.store.mem, root, base / 4096 + PageCount(imageSize)) == None
    ensures var s' := LoadImage(s, root, base, imageSize, blob, secs).0;
            (exists content: seq<Byte> ::
               |content| == imageSize && LoadedAs(s, s', root, base, PageCount(imageSize), content))
            <==> base % 4096 + imageSize <= 4096 * PageCount(imageSize)
  {
    hide LoadImage, LoadedAs, SectionsFit, Shows;
    var n, s' := PageCount(imageSize), LoadImage(s, root, base, imageSize, blob, secs).0;
    if base % 4096 + imageSize <= 4096 * n {
      ImageOutcome(s, root, base, imageSize, blob, secs);
      ShowsAll(base, imageSize, blob, secs);
      var content := Shows(base, Zeros(imageSize), blob, secs).value;
      assert LoadedAs(s, s', root, base, n, content);
    } else {
      forall content: seq<Byte> | |content| == imageSize
        ensures !LoadedAs(s, s', root, base, n, content)
      {
        BehindUnread(s, s', root, base, imageSize, content);
      }
    }
  }

  // The last byte of an image without room is not on its pages.
  lemma BehindUnread(s: Space, s': Space, root: nat, base: nat, size: nat, content: seq<Byte>)
    requires size > 0 && base / 4096 + PageCount(size) < PAGES && |content| == size
    requires base % 4096 + size > 4096 * PageCount(size)
    requires Lookup(s.store.mem, root, base / 4096 + PageCount(size)) == None
    ensures !LoadedAs(s, s', root, base, PageCount(size), content)
  {
    hide Partly, Lookup, LoadByte;
    var n := PageCount(size);
    var v, va := base / 4096 + n, base + (size - 1);
    LastByteBehind(base, size, v, va);
    if LoadedAs(s, s', root, base, n, content) {
      var frames, window :| SameMembers(window, PagesFrom(base, n)) && Reads(s'.store.mem, root, base, content)
                            && Partly(s, s', root, PagesFrom(base, n), frames, window);
      assert LoadByte(s'.store.mem, root, va) == Some(content[va - base]);
      OutsideWindow(s, s', root, PagesFrom(base, n), frames, window, v);
      NotMapped(s'.store.mem, root, va, v);
    }
  }

  lemma LastByteBehind(base: nat, size: nat, v: nat, va: nat)
    requires size > 0 && v == base / 4096 + PageCount(size) && va == base + (size - 1)
    requires base % 4096 + size > 4096 * PageCount(size)
    ensures va / 4096 == v && v !in PagesFrom(base, PageCount(size))
  {
  }

  lemma OutsideWindow(s: Space, s': Space, root: nat, pages: seq<nat>, frames: seq<nat>, window: set<nat>, v: nat)
    requires Partly(s, s', root, pages, frames, window) && SameMembers(window, pages) && v !in pages && v < PAGES
    ensures Lookup(s'.store.mem, root, v) == Lookup(s.store.mem, root, v)
  {
  }

  lemma NotMapped(m: Memory, root: nat, va: nat, v: nat)
    requires v == va / 4096 && Lookup(m, root, v) == None
    ensures LoadByte(m, root, va) == None
  {
  }
}
