/// PE32+ files byte by byte: what the loader makes of them, in terms of the bytes at fixed places of the
/// file (KernelKit/PE.h) and of the bytes memory shows afterwards.

module PeFiles {
  import opened Bits
  import opened Words
  import opened Translation
  import opened Paging
  import opened PageMapping
  import opened Bytes
  import opened Images
  import opened Overlays
  import opened Loaders
  import opened PeImages

  /// The number x stands at offset `at`, in n bytes, lowest first.
  predicate Stands(blob: seq<Byte>, at: nat, n: nat, x: nat) {
    at + n <= |blob| && blob[at..at + n] == ToBytes(x, n)
  }

  lemma StandsField(blob: seq<Byte>, at: nat, n: nat, x: nat)
    requires Stands(blob, at, n, x) && x < Pow2(8 * n)
    ensures Field(blob, at, n) == x
  {
    FromToBytes(x, n);
  }

  lemma FieldStands(blob: seq<Byte>, at: nat, n: nat)
    requires at + n <= |blob|
    ensures Stands(blob, at, n, Field(blob, at, n)) && Field(blob, at, n) < Pow2(8 * n)
  {
    ToFromBytes(blob[at..at + n]);
    FieldBound(blob, at, n);
  }

  // ---- the headers -----------------------------------------------------------------------

  /// A file for this machine and this kernel, with so many bytes of optional header, so many sections,
  /// and an image of that size at that base.
  predicate PeFile(blob: seq<Byte>, opt: nat, count: nat, base: nat, size: nat) {
    && |blob| >= 248 && blob[0] == 'M' as int && blob[1] == 'Z' as int
    && Stands(blob, 132, 2, 0x8664)                                            // Machine
    && Stands(blob, 134, 2, count) && 1 <= count < 0x1_0000                    // NumberOfSections
    && Stands(blob, 148, 2, opt) && opt < 0x1_0000                             // SizeOfOptionalHeader
    && Stands(blob, 176, 8, base) && base < TWO_TO_THE_64                      // ImageBase
    && Stands(blob, 208, 4, size) && 1 <= size <= 0x400_0000                   // SizeOfImage
    && Stands(blob, 220, 2, 0x11)                                              // Subsystem
    && 152 + opt + 40 * count <= |blob|
  }

  /// The header of section i, behind the optional header.
  predicate SectionStands(blob: seq<Byte>, opt: nat, i: nat, address: nat, rawSize: nat, rawPointer: nat) {
    var at := 152 + opt + 40 * i;
    && Stands(blob, at + 12, 4, address) && address < 0x1_0000_0000            // VirtualAddress
    && Stands(blob, at + 16, 4, rawSize) && rawSize < 0x1_0000_0000            // SizeOfRawData
    && Stands(blob, at + 20, 4, rawPointer) && rawPointer < 0x1_0000_0000      // PointerToRawData
  }

  lemma SmallPowers()
    ensures Pow2(16) == 0x1_0000 && Pow2(32) == 0x1_0000_0000 && Pow2(64) == TWO_TO_THE_64
  {
    Powers();
    Pow2Byte(8);
    Pow2Byte(16);
    Pow2Byte(24);
  }

  /// The files LoadImage takes are those, and it reads the same numbers off them.
  lemma FileHeaders(blob: seq<Byte>, opt: nat, count: nat, base: nat, size: nat)
    ensures PeFile(blob, opt, count, base, size)
            <==>
            && Loadable(blob) && SizeOfOptionalHeader(blob) == opt && NumberOfSections(blob) == count
            && ImageBase(blob) == base && SizeOfImage(blob) == size
  {
    hide Pow2, Field, Stands;
    SmallPowers();
    if |blob| >= 248 {
      FieldStands(blob, 132, 2);
      FieldStands(blob, 134, 2);
      FieldStands(blob, 148, 2);
      FieldStands(blob, 176, 8);
      FieldStands(blob, 208, 4);
      FieldStands(blob, 220, 2);
      if PeFile(blob, opt, count, base, size) {
        StandsField(blob, 132, 2, 0x8664);
        StandsField(blob, 134, 2, count);
        StandsField(blob, 148, 2, opt);
        StandsField(blob, 176, 8, base);
        StandsField(blob, 208, 4, size);
        StandsField(blob, 220, 2, 0x11);
      }
    }
  }

  /// And the sections it copies are those whose headers stand in the table.
  lemma FileSection(blob: seq<Byte>, opt: nat, count: nat, base: nat, size: nat, i: nat, a: nat, r: nat, p: nat)
    requires PeFile(blob, opt, count, base, size) && i < count
    ensures Loadable(blob) && |Sections(blob)| == count
    ensures SectionStands(blob, opt, i, a, r, p) <==> Sections(blob)[i] == Section(a, r, p)
  {
    FileHeaders(blob, opt, count, base, size);
    hide Pow2, Field, Stands, PeFile;
    SmallPowers();
    var at := 152 + opt + 40 * i;
    FieldStands(blob, at + 12, 4);
    FieldStands(blob, at + 16, 4);
    FieldStands(blob, at + 20, 4);
    if SectionStands(blob, opt, i, a, r, p) {
      StandsField(blob, at + 12, 4, a);
      StandsField(blob, at + 16, 4, r);
      StandsField(blob, at + 20, 4, p);
    }
  }

  // ---- the image -------------------------------------------------------------------------

  /// A file with room below 2^48 for its image, and the frames the image takes.
  ghost predicate Ready(s: Space, root: nat, blob: seq<Byte>, opt: nat, count: nat, base: nat, size: nat) {
    && Sound(s, root) && PeFile(blob, opt, count, base, size)
    && base / 4096 + PageCount(size) <= PAGES && base % 4096 + size <= 4096 * PageCount(size)
    && FramesSuffice(s, base, PageCount(size))
  }

  /// Section i is copied over the byte at offset x of the image.
  ghost predicate CopiedOver(blob: seq<Byte>, opt: nat, i: nat, base: nat, x: nat) {
    exists a: nat, r: nat, p: nat :: SectionStands(blob, opt, i, a, r, p) && base + a > 0 && a <= x < a + r
  }

  lemma CopiedLands(blob: seq<Byte>, opt: nat, count: nat, base: nat, size: nat, i: nat, x: nat)
    requires PeFile(blob, opt, count, base, size) && i < count
    ensures Loadable(blob) && |Sections(blob)| == count
    ensures CopiedOver(blob, opt, i, base, x) <==> Lands(base, Sections(blob)[i], x)
  {
    hide PeFile, SectionStands;
    FileSection(blob, opt, count, base, size, i, 0, 0, 0);
    var sec := Sections(blob)[i];
    FileSection(blob, opt, count, base, size, i, sec.address, sec.rawSize, sec.rawPointer);
    forall a: nat, r: nat, p: nat | SectionStands(blob, opt, i, a, r, p)
      ensures sec == Section(a, r, p)
    {
      FileSection(blob, opt, count, base, size, i, a, r, p);
    }
  }

  lemma AllFit(blob: seq<Byte>, opt: nat, count: nat, base: nat, size: nat)
    requires PeFile(blob, opt, count, base, size)
    ensures Loadable(blob) && |Sections(blob)| == count
    ensures GoodSections(blob)
            <==> forall i: nat, a: nat, r: nat, p: nat | i < count && SectionStands(blob, opt, i, a, r, p) ::
                   r == 0 || (a + r <= size && p + r <= |blob|)
  {
    hide PeFile, SectionStands;
    FileHeaders(blob, opt, count, base, size);
    forall i: nat, a: nat, r: nat, p: nat | i < count
      ensures SectionStands(blob, opt, i, a, r, p) <==> Sections(blob)[i] == Section(a, r, p)
    {
      FileSection(blob, opt, count, base, size, i, a, r, p);
    }
    var secs := Sections(blob);
    if forall i: nat, a: nat, r: nat, p: nat | i < count && SectionStands(blob, opt, i, a, r, p) ::
         r == 0 || (a + r <= size && p + r <= |blob|) {
      forall sec | sec in secs
        ensures sec.rawSize == 0 || !Rejects(sec, size, |blob|)
      {
        var i :| 0 <= i < count && secs[i] == sec;
        assert SectionStands(blob, opt, i, sec.address, sec.rawSize, sec.rawPointer);
      }
    } else {
      var i: nat, a: nat, r: nat, p: nat :|
        i < count && SectionStands(blob, opt, i, a, r, p) && !(r == 0 || (a + r <= size && p + r <= |blob|));
      assert secs[i] in secs && Rejects(secs[i], size, |blob|);
    }
  }

  /// With the frames it takes, a file is loaded exactly when every section that is not empty lies in the
  /// image and in the file; otherwise it is refused as invalid.
  lemma FileLoads(s: Space, root: nat, blob: seq<Byte>, opt: nat, count: nat, base: nat, size: nat)
    requires Ready(s, root, blob, opt, count, base, size)
    ensures var r := LoadFile(s, root, blob).1;
            r == if forall i: nat, a: nat, r: nat, p: nat | i < count && SectionStands(blob, opt, i, a, r, p) ::
                      r == 0 || (a + r <= size && p + r <= |blob|)
                 then Image(base) else InvalidData
  {
    FileHeaders(blob, opt, count, base, size);
    AllFit(blob, opt, count, base, size);
    hide PeFile, SectionStands, LoadFile, LoadedAs;
    FileEnds(s, root, blob);
  }

  /// Then memory shows, at the base, what the file says: where section i is the last one copied over a
  /// byte, byte j of its content in the file.
  lemma FileBytes(s: Space, root: nat, blob: seq<Byte>, opt: nat, count: nat, base: nat, size: nat,
                  i: nat, a: nat, r: nat, p: nat, j: nat, x: nat)
    requires Ready(s, root, blob, opt, count, base, size) && LoadFile(s, root, blob).1 == Image(base)
    requires i < count && SectionStands(blob, opt, i, a, r, p) && x == a + j && j < r && base + a > 0
    requires forall k | i < k < count :: !CopiedOver(blob, opt, k, base, x)
    ensures p + j < |blob| && LoadByte(LoadFile(s, root, blob).0.store.mem, root, base + x) == Some(blob[p + j])
  {
    hide PeFile, SectionStands, LoadFile, CopiedOver, LoadByte, GoodSections, Displayed;
    FileSection(blob, opt, count, base, size, i, a, r, p);
    forall k | i < k < count
      ensures !Lands(base, Sections(blob)[k], x)
    {
      CopiedLands(blob, opt, count, base, size, k, x);
    }
    FileShows(s, root, blob, opt, count, base, size);
    WithinImage(blob, i);
    DisplayedByte(blob, i, x);
    var content := Displayed(blob);
    assert LoadByte(LoadFile(s, root, blob).0.store.mem, root, base + x) == Some(content[x]);
  }

  lemma WithinImage(blob: seq<Byte>, i: nat)
    requires Loadable(blob) && GoodSections(blob) && i < |Sections(blob)| && Sections(blob)[i].rawSize > 0
    ensures Sections(blob)[i].address + Sections(blob)[i].rawSize <= SizeOfImage(blob)
    ensures Sections(blob)[i].rawPointer + Sections(blob)[i].rawSize <= |blob|
  {
    assert Sections(blob)[i] in Sections(blob);
  }

  /// And zeros where no section is copied.
  lemma FileZeros(s: Space, root: nat, blob: seq<Byte>, opt: nat, count: nat, base: nat, size: nat, x: nat)
    requires Ready(s, root, blob, opt, count, base, size) && LoadFile(s, root, blob).1 == Image(base)
    requires x < size && forall k | 0 <= k < count :: !CopiedOver(blob, opt, k, base, x)
    ensures LoadByte(LoadFile(s, root, blob).0.store.mem, root, base + x) == Some(0)
  {
    hide PeFile, SectionStands, LoadFile, CopiedOver, LoadByte;
    FileShows(s, root, blob, opt, count, base, size);
    forall k | 0 <= k < count
      ensures !Lands(base, Sections(blob)[k], x)
    {
      CopiedLands(blob, opt, count, base, size, k, x);
    }
    DisplayedByte(blob, count, x);
    var content := Displayed(blob);
    assert LoadByte(LoadFile(s, root, blob).0.store.mem, root, base + x) == Some(content[x]);
  }

  lemma FileShows(s: Space, root: nat, blob: seq<Byte>, opt: nat, count: nat, base: nat, size: nat)
    requires Ready(s, root, blob, opt, count, base, size) && LoadFile(s, root, blob).1 == Image(base)
    ensures Loadable(blob) && ImageBase(blob) == base && SizeOfImage(blob) == size && |Sections(blob)| == count
    ensures GoodSections(blob) && |Displayed(blob)| == size
    ensures Reads(LoadFile(s, root, blob).0.store.mem, root, base, Displayed(blob))
  {
    FileHeaders(blob, opt, count, base, size);
    hide PeFile, LoadFile, Stored, Overlay;
    FileEnds(s, root, blob);
    ShowsAll(base, size, blob, Sections(blob));
  }

  // The displayed byte, decided by section i, by none when i is their number.
  lemma DisplayedByte(blob: seq<Byte>, i: nat, x: nat)
    requires Loadable(blob) && GoodSections(blob) && x < SizeOfImage(blob) && i <= |Sections(blob)|
    requires forall k | i < k < |Sections(blob)| :: !Lands(ImageBase(blob), Sections(blob)[k], x)
    requires i < |Sections(blob)| ==> Lands(ImageBase(blob), Sections(blob)[i], x)
    requires i == |Sections(blob)| ==> forall k | 0 <= k < i :: !Lands(ImageBase(blob), Sections(blob)[k], x)
    ensures |Displayed(blob)| == SizeOfImage(blob)
    ensures i < |Sections(blob)| ==>
              var sec := Sections(blob)[i];
              0 <= sec.rawPointer + x - sec.address < |blob|
              && Displayed(blob)[x] == blob[sec.rawPointer + x - sec.address]
    ensures i == |Sections(blob)| ==> Displayed(blob)[x] == 0
  {
    hide Overlay, Stored, ByteOf, Lands, SectionsFit;
    var secs, base, size := Sections(blob), ImageBase(blob), SizeOfImage(blob);
    ShowsAll(base, size, blob, secs);
    if i < |secs| {
      assert secs == secs[..i] + [secs[i]] + secs[i + 1..];
      StoredByte(Zeros(size), blob, base, secs[..i], secs[i], secs[i + 1..], x);
    } else {
      UntouchedByte(Zeros(size), blob, base, secs, x);
    }
    OverlayBytes(Zeros(size), blob, Stored(base, secs), x);
  }

  // ---- one file, spelled out -------------------------------------------------------------

  lemma StandsTwo(blob: seq<Byte>, at: nat, x: nat)
    requires at + 2 <= |blob| && blob[at] == x % 256 && blob[at + 1] == x / 0x100 % 256
    ensures Stands(blob, at, 2, x)
  {
    LittleEndian(x);
  }

  lemma StandsFour(blob: seq<Byte>, at: nat, x: nat)
    requires at + 4 <= |blob| && blob[at] == x % 256 && blob[at + 1] == x / 0x100 % 256
    requires blob[at + 2] == x / 0x1_0000 % 256 && blob[at + 3] == x / 0x100_0000 % 256
    ensures Stands(blob, at, 4, x)
  {
    hide ToBytes;
    LittleEndian(x);
    var bs := blob[at..at + 4];
    assert bs[0] == blob[at] && bs[1] == blob[at + 1] && bs[2] == blob[at + 2] && bs[3] == blob[at + 3];
  }

  lemma StandsEight(blob: seq<Byte>, at: nat, x: nat)
    requires at + 8 <= |blob| && Stands(blob, at, 4, x) && Stands(blob, at + 4, 4, x / 0x1_0000_0000)
    ensures Stands(blob, at, 8, x)
  {
    hide ToBytes;
    LittleEndian(x);
    assert blob[at..at + 8] == blob[at..at + 4] + blob[at + 4..at + 8];
  }

  /// Two sections, the second over the end of the first: three bytes at address 0x1204, two at 0x1205.
  function ExampleFile(): (blob: seq<Byte>)
    ensures |blob| == 349
  {
    seq(349, (i: nat) => ExampleByte(i))
  }

  function ExampleByte(i: nat): Byte {
    match i
    case 0 => 77 case 1 => 90                                                               // "MZ"
    case 132 => 0x64 case 133 => 0x86                                                       // Machine
    case 134 => 2                                                                           // NumberOfSections
    case 148 => 112                                                                         // SizeOfOptionalHeader
    case 177 => 0x50 case 178 => 0x44 case 179 => 0x33 case 180 => 0x22 case 181 => 0x11    // ImageBase
    case 208 => 0x10 case 209 => 0x20                                                       // SizeOfImage
    case 220 => 0x11                                                                        // Subsystem
    case 276 => 0x04 case 277 => 0x12 case 280 => 3 case 284 => 0x58 case 285 => 1          // section 0
    case 316 => 0x05 case 317 => 0x12 case 320 => 2 case 324 => 0x5B case 325 => 1          // section 1
    case 344 => 201 case 345 => 202 case 346 => 203 case 347 => 204 case 348 => 205
    case _ => 0
  }

  lemma ExampleHeaders(blob: seq<Byte>)
    requires blob == ExampleFile()
    ensures PeFile(blob, 112, 2, 0x1122_3344_5000, 0x2010)
  {
    hide Stands;
    StandsTwo(blob, 132, 0x8664);
    StandsTwo(blob, 134, 2);
    StandsTwo(blob, 148, 112);
    StandsFour(blob, 176, 0x1122_3344_5000);
    StandsFour(blob, 180, 0x1122);
    StandsEight(blob, 176, 0x1122_3344_5000);
    StandsFour(blob, 208, 0x2010);
    StandsTwo(blob, 220, 0x11);
  }

  lemma ExampleSections(blob: seq<Byte>)
    requires blob == ExampleFile()
    ensures SectionStands(blob, 112, 0, 0x1204, 3, 344) && SectionStands(blob, 112, 1, 0x1205, 2, 347)
    ensures blob[344] == 201 && blob[347] == 204 && blob[348] == 205
  {
    hide Stands;
    StandsFour(blob, 276, 0x1204);
    StandsFour(blob, 280, 3);
    StandsFour(blob, 284, 344);
    StandsFour(blob, 316, 0x1205);
    StandsFour(blob, 320, 2);
    StandsFour(blob, 324, 347);
  }

  /// Loaded at 0x1122_3344_5000 it shows the first byte of its first section, then its second section,
  /// and zeros around them.
  lemma ExampleLoads(s: Space, root: nat)
    requires Sound(s, root) && FramesSuffice(s, 0x1122_3344_5000, 3)
    ensures var (s', r) := LoadFile(s, root, ExampleFile());
            var m := s'.store.mem;
            && r == Image(0x1122_3344_5000)
            && LoadByte(m, root, 0x1122_3344_6203) == Some(0) && LoadByte(m, root, 0x1122_3344_6204) == Some(201)
            && LoadByte(m, root, 0x1122_3344_6205) == Some(204) && LoadByte(m, root, 0x1122_3344_6206) == Some(205)
            && LoadByte(m, root, 0x1122_3344_6207) == Some(0)
  {
    hide ExampleFile, PeFile, SectionStands, LoadFile, LoadByte, FramesSuffice;
    var blob, base := ExampleFile(), 0x1122_3344_5000;
    ExampleHeaders(blob);
    ExampleSections(blob);
    assert PageCount(0x2010) == 3;
    OneHeader(blob, 112, 2, base, 0x2010, 0, 0x1204, 3, 344);
    OneHeader(blob, 112, 2, base, 0x2010, 1, 0x1205, 2, 347);
    FileLoads(s, root, blob, 112, 2, base, 0x2010);
    FileZeros(s, root, blob, 112, 2, base, 0x2010, 0x1203);
    FileBytes(s, root, blob, 112, 2, base, 0x2010, 0, 0x1204, 3, 344, 0, 0x1204);
    FileBytes(s, root, blob, 112, 2, base, 0x2010, 1, 0x1205, 2, 347, 0, 0x1205);
    FileBytes(s, root, blob, 112, 2, base, 0x2010, 1, 0x1205, 2, 347, 1, 0x1206);
    FileZeros(s, root, blob, 112, 2, base, 0x2010, 0x1207);
  }

  // Only one header stands in a place.
  lemma OneHeader(blob: seq<Byte>, opt: nat, count: nat, base: nat, size: nat, i: nat, a: nat, r: nat, p: nat)
    requires PeFile(blob, opt, count, base, size) && i < count && SectionStands(blob, opt, i, a, r, p)
    ensures forall a': nat, r': nat, p': nat | SectionStands(blob, opt, i, a', r', p') :: a' == a && r' == r && p' == p
    ensures forall x: nat :: CopiedOver(blob, opt, i, base, x) <==> base + a > 0 && a <= x < a + r
  {
    hide PeFile, SectionStands;
    FileSection(blob, opt, count, base, size, i, a, r, p);
    forall a': nat, r': nat, p': nat | SectionStands(blob, opt, i, a', r', p')
      ensures a' == a && r' == r && p' == p
    {
      FileSection(blob, opt, count, base, size, i, a', r', p');
    }
  }
}
