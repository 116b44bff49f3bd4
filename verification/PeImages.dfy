/// PE32+ files: the header fields the loader reads and the checks it makes on them
/// (PE32CodeMgr.cpp, KernelKit/PE.h, KernelKit/MSDOS.h), and the loader object.

module PeImages {
  import opened Bits
  import opened Words
  import opened Translation
  import opened Paging
  import opened PageMapping
  import opened AddressSpace
  import opened Bytes
  import opened Loading
  import opened Images
  import opened Overlays
  import opened Loaders
  import opened LoadEffects
  import opened ImageLoaders
  import opened Regions

  /// The little-endian number of n bytes at offset `at`.
  function Field(blob: seq<Byte>, at: nat, n: nat): nat
    requires at + n <= |blob|
  {
    FromBytes(blob[at..at + n])
  }

  const EXEC_HEADER: nat := 128      // sizeof(DosHeader)
  const OPTIONAL_HEADER: nat := 152  // and sizeof(LDR_EXEC_HEADER), 24, after that
  const MIN_PE_SIZE: nat := 248      // and sizeof(LDR_OPTIONAL_HEADER), 96

  const MACHINE_AMD64: nat := 0x8664
  const KERNEL_SUBSYSTEM: nat := 0x11
  const MAX_IMAGE_SIZE: nat := 0x400_0000

  function MachineType(blob: seq<Byte>): nat requires |blob| >= MIN_PE_SIZE { Field(blob, EXEC_HEADER + 4, 2) }
  function NumberOfSections(blob: seq<Byte>): nat requires |blob| >= MIN_PE_SIZE { Field(blob, EXEC_HEADER + 6, 2) }
  function SizeOfOptionalHeader(blob: seq<Byte>)
    : nat requires |blob| >= MIN_PE_SIZE { Field(blob, EXEC_HEADER + 20, 2) }
  function ImageBase(blob: seq<Byte>): nat requires |blob| >= MIN_PE_SIZE { Field(blob, OPTIONAL_HEADER + 24, 8) }
  function SizeOfImage(blob: seq<Byte>): nat requires |blob| >= MIN_PE_SIZE { Field(blob, OPTIONAL_HEADER + 56, 4) }
  function Subsystem(blob: seq<Byte>): nat requires |blob| >= MIN_PE_SIZE { Field(blob, OPTIONAL_HEADER + 68, 2) }

  /// ldr_find_exec_header
  predicate HasDosMagic(blob: seq<Byte>) {
    |blob| >= 2 && blob[0] == 'M' as int && blob[1] == 'Z' as int
  }

  /// The file is one this kernel can execute.
  predicate WellFormed(blob: seq<Byte>) {
    && |blob| >= MIN_PE_SIZE && HasDosMagic(blob)
    && MachineType(blob) == MACHINE_AMD64 && Subsystem(blob) == KERNEL_SUBSYSTEM
    && 1 <= SizeOfImage(blob) <= MAX_IMAGE_SIZE
  }

  /// Where the section table starts.
  function SectionTable(blob: seq<Byte>): nat
    requires |blob| >= MIN_PE_SIZE
  {
    OPTIONAL_HEADER + SizeOfOptionalHeader(blob)
  }

  /// The whole section table lies inside the file; sizeof(LDR_40) is 40.
  predicate TableInside(blob: seq<Byte>) {
    |blob| >= MIN_PE_SIZE && SectionTable(blob) + 40 * NumberOfSections(blob) <= |blob|
  }

  function SectionAt(blob: seq<Byte>, i: nat): Section
    requires TableInside(blob) && i < NumberOfSections(blob)
  {
    var at := SectionTable(blob) + 40 * i;
    Section(Field(blob, at + 12, 4), Field(blob, at + 16, 4), Field(blob, at + 20, 4))
  }

  function Sections(blob: seq<Byte>): (secs: seq<Section>)
    requires TableInside(blob)
    ensures |secs| == NumberOfSections(blob)
  {
    seq(NumberOfSections(blob), i requires 0 <= i < NumberOfSections(blob) => SectionAt(blob, i))
  }

  /// The headers pass: LoadImage goes on to map the image.
  predicate Loadable(blob: seq<Byte>) {
    WellFormed(blob) && NumberOfSections(blob) >= 1 && TableInside(blob)
  }

  /// The pages of the image lie below 2^48 at the base it asks for.
  predicate InSpace(blob: seq<Byte>) {
    Loadable(blob) ==> ImageBase(blob) / 4096 + PageCount(SizeOfImage(blob)) <= PAGES
  }

  /// And every byte of it lies on one of them.
  predicate HasRoom(blob: seq<Byte>) {
    && InSpace(blob)
    && (Loadable(blob) ==> ImageBase(blob) % 4096 + SizeOfImage(blob) <= 4096 * PageCount(SizeOfImage(blob)))
  }

  /// PE32Loader::LoadImage on a file that is not loaded yet.
  function LoadFile(s: Space, root: nat, blob: seq<Byte>): (Space, LoadResult) {
    if !Loadable(blob) then (s, InvalidData)
    else Loaders.LoadImage(s, root, ImageBase(blob), SizeOfImage(blob), blob, Sections(blob))
  }

  /// No section leaves the image or the file.
  predicate GoodSections(blob: seq<Byte>)
    requires Loadable(blob)
  {
    SectionsFit(Sections(blob), SizeOfImage(blob), |blob|)
  }

  /// What the file says the image should contain: its sections, in order, over zeros.
  function Content(blob: seq<Byte>): seq<Byte>
    requires Loadable(blob) && GoodSections(blob)
  {
    OverlayLength(Zeros(SizeOfImage(blob)), blob, Sections(blob));
    Overlay(Zeros(SizeOfImage(blob)), blob, Sections(blob)).value
  }

  /// What the loaded image shows: the same without the sections that are copied to the null address.
  function Displayed(blob: seq<Byte>): seq<Byte>
    requires Loadable(blob) && GoodSections(blob)
  {
    ShowsAll(ImageBase(blob), SizeOfImage(blob), blob, Sections(blob));
    Shows(ImageBase(blob), Zeros(SizeOfImage(blob)), blob, Sections(blob)).value
  }

  /// The pages the image is mapped on.
  function ImagePages(blob: seq<Byte>): seq<nat>
    requires Loadable(blob)
  {
    PagesFrom(ImageBase(blob), PageCount(SizeOfImage(blob)))
  }

  /// There are frames for the image and the tables it needs.
  ghost predicate CanAfford(s: Space, blob: seq<Byte>)
    requires Loadable(blob)
  {
    FramesSuffice(s, ImageBase(blob), PageCount(SizeOfImage(blob)))
  }

  /// How many of its pages the free frames suffice for.
  ghost function AffordablePages(s: Space, blob: seq<Byte>): nat
    requires Loadable(blob)
  {
    Affordable(s, ImageBase(blob), PageCount(SizeOfImage(blob)))
  }

  /// The pages a load gets to.
  ghost function PagesReached(s: Space, blob: seq<Byte>): seq<nat>
    requires Loadable(blob)
  {
    ImagePages(blob)[..Reached(s, ImageBase(blob), |ImagePages(blob)|)]
  }

  /// What a load ends in: a file is loaded exactly when its headers pass, its sections fit and the
  /// frames suffice; which of these fails decides the error.
  ghost predicate FileOutcome(s: Space, root: nat, blob: seq<Byte>, s': Space, r: LoadResult) {
    if !Loadable(blob) then r == InvalidData && s' == s
    else
      var base, n := ImageBase(blob), PageCount(SizeOfImage(blob));
      if !CanAfford(s, blob) then r == OutOfMemory && Undone(s, s', root, base, n, AffordablePages(s, blob))
      else if !GoodSections(blob) then r == InvalidData && Undone(s, s', root, base, n, n)
      else r == Image(base) && LoadedAs(s, s', root, base, n, Displayed(blob))
  }

  lemma FileEnds(s: Space, root: nat, blob: seq<Byte>)
    requires Sound(s, root) && HasRoom(blob)
    ensures var (s', r) := LoadFile(s, root, blob); FileOutcome(s, root, blob, s', r)
  {
    hide Loaders.LoadImage, Stored, Overlay;
    if Loadable(blob) {
      var base, size := ImageBase(blob), SizeOfImage(blob);
      ImageOutcome(s, root, base, size, blob, Sections(blob));
      if GoodSections(blob) {
        ShowsAll(base, size, blob, Sections(blob));
      }
      var n := PageCount(size);
      assert PagesFrom(base, n)[..n] == PagesFrom(base, n);
    }
  }

  /// A file whose pages miss the allocator's frames is loaded or not exactly as FileOutcome says, and
  /// the frames stay reachable at their own addresses.
  lemma LoadFileOk(s: Space, root: nat, blob: seq<Byte>)
    requires Sound(s, root) && HasRoom(blob)
    requires Loadable(blob) ==> Misses(s.store.pmm, ImagePages(blob))
    ensures var (s', r) := LoadFile(s, root, blob);
            FileOutcome(s, root, blob, s', r) && (FramesHome(s, root) ==> FramesHome(s', root))
  {
    FileEnds(s, root, blob);
    if Loadable(blob) {
      LoadImageOk(s, root, ImageBase(blob), SizeOfImage(blob), blob, Sections(blob));
    }
  }

  /// A file that is loaded reads as it says exactly when leaving out the sections that go to the null
  /// address makes no difference: always, unless it asks for base 0 and has a section at address 0.
  lemma FileFaithful(s: Space, root: nat, blob: seq<Byte>)
    requires Sound(s, root) && HasRoom(blob) && Loadable(blob) && CanAfford(s, blob) && GoodSections(blob)
    ensures var (s', r) := LoadFile(s, root, blob);
            && r == Image(ImageBase(blob))
            && (LoadedAs(s, s', root, ImageBase(blob), PageCount(SizeOfImage(blob)), Content(blob))
                <==> NothingLost(ImageBase(blob), SizeOfImage(blob), blob, Sections(blob)))
    ensures ImageBase(blob) > 0 ==> Displayed(blob) == Content(blob)
  {
    hide Loaders.LoadImage, LoadedAs, Overlay, Stored;
    ImageFaithful(s, root, ImageBase(blob), SizeOfImage(blob), blob, Sections(blob));
    ShowsAll(ImageBase(blob), SizeOfImage(blob), blob, Sections(blob));
  }

  /// Loading a file keeps every frame of the allocator at its own address exactly when no page it
  /// gets to has the address of such a frame. The code compares the base with nothing.
  lemma FileKeepsFrames(s: Space, root: nat, blob: seq<Byte>)
    requires Sound(s, root) && FramesHome(s, root) && HasRoom(blob) && Loadable(blob)
    ensures FramesHome(LoadFile(s, root, blob).0, root)
            <==> Misses(s.store.pmm, PagesReached(s, blob))
  {
    ImageKeepsFrames(s, root, ImageBase(blob), SizeOfImage(blob), blob, Sections(blob));
  }

  /// A file that passes the header checks and is not loaded leaves no page of its image mapped exactly
  /// when its sections are to blame, or the pages beyond those that were affordable had not been mapped.
  lemma FileResidue(s: Space, root: nat, blob: seq<Byte>)
    requires Sound(s, root) && InSpace(blob) && Loadable(blob)
    requires CanAfford(s, blob) ==> HasRoom(blob) && !GoodSections(blob)
    ensures NoneMapped(LoadFile(s, root, blob).0.store.mem, root, ImagePages(blob))
            <==> CanAfford(s, blob) || NoneMapped(s.store.mem, root, ImagePages(blob)[AffordablePages(s, blob)..])
  {
    ImageResidue(s, root, ImageBase(blob), SizeOfImage(blob), blob, Sections(blob));
  }

  /// Loading a file loses a frame exactly when a page it gets to held it. A file that asks for base 0 is
  /// loaded anew by every call, as the loader takes its address for none.
  lemma FileLoses(s: Space, root: nat, blob: seq<Byte>, f: nat)
    requires Sound(s, root) && InSpace(blob) && Loadable(blob) && (CanAfford(s, blob) ==> HasRoom(blob))
    ensures Loses(s, LoadFile(s, root, blob).0, root, f) <==> Held(s, root, PagesReached(s, blob), f)
  {
    hide Loses, Holds, Loaders.LoadImage;
    ImageLoses(s, root, ImageBase(blob), SizeOfImage(blob), blob, Sections(blob), f);
  }

  // ---- the loader object -----------------------------------------------------------------

  lemma FieldBound(blob: seq<Byte>, at: nat, n: nat)
    requires at + n <= |blob|
    ensures Field(blob, at, n) < Pow2(8 * n)
  {
    FromBytesBound(blob[at..at + n]);
  }

  lemma BaseBound(blob: seq<Byte>)
    requires |blob| >= MIN_PE_SIZE
    ensures ImageBase(blob) < TWO_TO_THE_64
  {
    hide Pow2, Field;
    FieldBound(blob, OPTIONAL_HEADER + 24, 8);
    Powers();
  }

  // One section of the loop, as LoadSections has it.
  lemma SectionStep(s: Space, root: nat, base: nat, pages: seq<nat>, size: nat, blob: seq<Byte>, i: nat)
    requires TableInside(blob) && i < NumberOfSections(blob)
    ensures var sec, secs := SectionAt(blob, i), Sections(blob);
            LoadSections(s, root, base, pages, size, blob, secs[i..])
            == if sec.rawSize == 0 then LoadSections(s, root, base, pages, size, blob, secs[i + 1..])
               else if Rejects(sec, size, |blob|) then (UnmapPages(s, root, pages), InvalidData)
               else LoadSections(WithMem(s, CopySection(s.store.mem, root, base, sec, size, blob)), root, base, pages,
                                 size, blob, secs[i + 1..])
  {
    var secs := Sections(blob);
    assert secs[i..][0] == SectionAt(blob, i) && secs[i..][1..] == secs[i + 1..];
  }

  /// The copy of one section that passed the bounds test.
  method FillSection(mmu: Mmu, base: U64, sec: Section, size: nat, blob: seq<Byte>, ghost root: nat,
                     ghost s0: Space, ghost pages: seq<nat>, ghost frames: seq<nat>, ghost window: set<nat>)
    requires Running(mmu, root) && Partly(s0, mmu.View(), root, pages, frames, window)
             && pages == PagesFrom(base, |frames|)
    requires base % 4096 + size <= 4096 * |frames| && base + size <= TWO_TO_THE_64 && !Rejects(sec, size, |blob|)
    requires sec.rawSize > 0
    modifies mmu.ram
    ensures Running(mmu, root) && Partly(s0, mmu.View(), root, pages, frames, window)
    ensures mmu.View() == WithMem(old(mmu.View()), CopySection(old(mmu.ram.mem), root, base, sec, size, blob))
  {
    var dst := SectionAddress(base, sec);
    FillImage(mmu, RawBytes(sec, blob), dst, size - sec.address, root, s0, base, pages, frames, window,
              base % 4096 + sec.address);
  }

  /// One round of the section loop; false when the section leaves the image or the file.
  method SectionRound(mmu: Mmu, base: U64, i: nat, size: nat, blob: seq<Byte>, ghost root: nat,
                      ghost s0: Space, ghost pages: seq<nat>, ghost frames: seq<nat>, ghost window: set<nat>)
                        returns (ok: bool)
    requires Running(mmu, root) && Partly(s0, mmu.View(), root, pages, frames, window)
             && pages == PagesFrom(base, |frames|)
    requires base % 4096 + size <= 4096 * |frames| && base + size <= TWO_TO_THE_64
    requires TableInside(blob) && i < NumberOfSections(blob)
    modifies mmu.ram
    ensures Running(mmu, root) && Partly(s0, mmu.View(), root, pages, frames, window)
    ensures ok ==> LoadSections(mmu.View(), root, base, pages, size, blob, Sections(blob)[i + 1..])
                   == LoadSections(old(mmu.View()), root, base, pages, size, blob, Sections(blob)[i..])
    ensures !ok ==> LoadSections(old(mmu.View()), root, base, pages, size, blob, Sections(blob)[i..])
                    == (UnmapPages(mmu.View(), root, pages), InvalidData)
  {
    SectionStep(mmu.View(), root, base, pages, size, blob, i);
    var sec := SectionAt(blob, i);
    if sec.rawSize == 0 {
      return true;
    }
    if Rejects(sec, size, |blob|) {
      return false;
    }
    FillSection(mmu, base, sec, size, blob, root, s0, pages, frames, window);
    return true;
  }

  /// The section loop of LoadImage.
  method FillSections(mmu: Mmu, base: U64, count: nat, size: nat, blob: seq<Byte>, ghost root: nat,
                      ghost s0: Space, ghost frames: seq<nat>, ghost window: set<nat>) returns (r: LoadResult)
    requires Running(mmu, root) && Partly(s0, mmu.View(), root, PagesFrom(base, count), frames, window)
    requires base / 4096 + count <= PAGES && base % 4096 + size <= 4096 * count && base + size <= TWO_TO_THE_64
    requires TableInside(blob)
    modifies mmu`pos, mmu`tlb, mmu.pmm, mmu.ram
    ensures Running(mmu, root)
    ensures mmu.View() == LoadSections(old(mmu.View()), root, base, PagesFrom(base, count), size, blob,
                                       Sections(blob)).0
    ensures r == LoadSections(old(mmu.View()), root, base, PagesFrom(base, count), size, blob, Sections(blob)).1
  {
    ghost var s1, pages, secs := mmu.View(), PagesFrom(base, count), Sections(blob);
    assert secs[0..] == secs;
    var i := 0;
    while i < NumberOfSections(blob)
      invariant i <= NumberOfSections(blob) && Running(mmu, root)
      invariant Partly(s0, mmu.View(), root, pages, frames, window)
      invariant LoadSections(mmu.View(), root, base, pages, size, blob, secs[i..])
                == LoadSections(s1, root, base, pages, size, blob, secs)
    {
      var ok := SectionRound(mmu, base, i, size, blob, root, s0, pages, frames, window);
      if !ok {
        UnmapImage(mmu, base, count, root, s0, frames, window);
        return InvalidData;
      }
      i := i + 1;
    }
    return Image(base);
  }

  /// LoadImage past the header checks.
  method MapAndFill(mmu: Mmu, base: U64, count: nat, size: nat, blob: seq<Byte>, ghost root: nat)
    returns (r: LoadResult)
    requires Running(mmu, root) && TableInside(blob) && count == PageCount(size)
    requires base / 4096 + count <= PAGES && base % 4096 + size <= 4096 * count && base + size <= TWO_TO_THE_64
    modifies mmu`pos, mmu`tlb, mmu.pmm, mmu.ram
    ensures Running(mmu, root)
    ensures mmu.View() == Loaders.LoadImage(old(mmu.View()), root, base, size, blob, Sections(blob)).0
    ensures r == Loaders.LoadImage(old(mmu.View()), root, base, size, blob, Sections(blob)).1
  {
    ghost var s0 := mmu.View();
    var ok;
    ghost var frames, window;
    ok, frames, window := MapImage(mmu, base, count, root);
    if !ok {
      return OutOfMemory;
    }
    r := FillSections(mmu, base, count, size, blob, root, s0, frames, window);
  }

  class PE32Loader {
    const fCachedBlob: seq<Byte>
    var fBad: bool
    var fImage: U64

    /// The loader for a file in memory.
    constructor (blob: seq<Byte>)
      ensures fCachedBlob == blob && fBad == !WellFormed(blob) && fImage == 0
    {
      fCachedBlob := blob;
      fImage := 0;
      if |blob| < MIN_PE_SIZE {
        fBad := true;
      } else if !HasDosMagic(blob) {
        fBad := true;
      } else if MachineType(blob) != MACHINE_AMD64 {
        fBad := true;
      } else if Subsystem(blob) != KERNEL_SUBSYSTEM {
        fBad := true;
      } else {
        fBad := SizeOfImage(blob) < 1 || SizeOfImage(blob) > MAX_IMAGE_SIZE;
      }
    }

    /// The checks LoadImage makes before it maps anything.
    method CheckHeaders() returns (ok: bool)
      requires fBad == !WellFormed(fCachedBlob)
      ensures ok == Loadable(fCachedBlob)
    {
      if fBad || NumberOfSections(fCachedBlob) < 1 {
        return false;
      }
      var sectOff := OPTIONAL_HEADER + SizeOfOptionalHeader(fCachedBlob);
      if sectOff > |fCachedBlob| || NumberOfSections(fCachedBlob) > (|fCachedBlob| - sectOff) / 40 {
        return false;
      }
      return true;
    }

    /// What LoadImage does when nothing is loaded yet.
    method LoadFresh(mmu: Mmu, ghost root: nat) returns (r: LoadResult)
      requires fBad == !WellFormed(fCachedBlob) && HasRoom(fCachedBlob) && Running(mmu, root)
      requires Loadable(fCachedBlob) ==> Misses(mmu.View().store.pmm, ImagePages(fCachedBlob))
      modifies mmu`pos, mmu`tlb, mmu.pmm, mmu.ram
      ensures Running(mmu, root)
      ensures mmu.View() == LoadFile(old(mmu.View()), root, fCachedBlob).0
      ensures r == LoadFile(old(mmu.View()), root, fCachedBlob).1
    {
      var ok := CheckHeaders();
      if !ok {
        return InvalidData;
      }
      BaseBound(fCachedBlob);
      var base, size := ImageBase(fCachedBlob), SizeOfImage(fCachedBlob);
      r := MapAndFill(mmu, base, PageCount(size), size, fCachedBlob, root);
    }

    /// The image's address; a second call finds it loaded.
    method LoadImage(mmu: Mmu, ghost root: nat) returns (r: LoadResult)
      requires fBad == !WellFormed(fCachedBlob) && HasRoom(fCachedBlob) && Running(mmu, root)
      requires Loadable(fCachedBlob) ==> Misses(mmu.View().store.pmm, ImagePages(fCachedBlob))
      modifies `fImage, mmu`pos, mmu`tlb, mmu.pmm, mmu.ram
      ensures Running(mmu, root)
      ensures old(fImage) != 0 ==> r == Image(old(fImage)) && fImage == old(fImage) && mmu.View() == old(mmu.View())
      ensures old(fImage) == 0 ==>
                && mmu.View() == LoadFile(old(mmu.View()), root, fCachedBlob).0
                && r == LoadFile(old(mmu.View()), root, fCachedBlob).1
                && fImage == if r.Image? then ImageBase(fCachedBlob) else 0
    {
      r := Image(fImage);
      if fImage == 0 {
        r := LoadFresh(mmu, root);
        if r.Image? {
          BaseBound(fCachedBlob);
          fImage := ImageBase(fCachedBlob);
        }
      }
    }
  }
}
