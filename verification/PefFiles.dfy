/// PEF containers byte by byte: what a search for a symbol answers and what memory shows afterwards, in
/// terms of the bytes at fixed places of the container (KernelKit/PEF.h).

module PefFiles {
  import opened Bits
  import opened PhysicalMemory
  import opened Translation
  import opened Paging
  import opened PageMapping
  import opened Bytes
  import opened Images
  import opened Overlays
  import opened Loaders
  import opened PeImages
  import opened Pef
  import opened PeFiles

  /// A container with so many headers, all of them inside the blob.
  predicate PefContainer(blob: seq<Byte>, fat: bool, count: nat) {
    && |blob| >= 64 && 1 <= count <= 64 && 64 + 304 * count <= |blob|
    && (if fat then blob[0] == 'n' as int && blob[1] == 'e' as int && blob[2] == 'p' as int && blob[3] == 'O' as int
        else blob[0] == 'O' as int && blob[1] == 'p' as int && blob[2] == 'e' as int && blob[3] == 'n' as int)
    && Stands(blob, 17, 4, 0x5046)                                 // Abi
    && Stands(blob, 45, 8, count)                                  // Count
  }

  /// The numbers in header i.
  predicate HeaderStands(blob: seq<Byte>, i: nat, cpu: nat, kind: nat, offset: nat, offsetSize: nat, vmAddress: nat,
                         vmSize: nat)
  {
    var at := 64 + 304 * i;
    && Stands(blob, at + 256, 4, cpu) && cpu < 0x1_0000_0000       // Cpu
    && Stands(blob, at + 268, 2, kind) && kind < 0x1_0000          // Kind
    && Stands(blob, at + 270, 8, offset) && offset < TWO_TO_THE_64
    && Stands(blob, at + 278, 8, offsetSize) && offsetSize < TWO_TO_THE_64
    && Stands(blob, at + 286, 8, vmAddress) && vmAddress < TWO_TO_THE_64
    && Stands(blob, at + 294, 8, vmSize) && vmSize < TWO_TO_THE_64
  }

  /// The name in header i, terminated inside its field.
  predicate NameStands(blob: seq<Byte>, i: nat, text: seq<Byte>) {
    var at := 64 + 304 * i;
    |text| < 256 && 0 !in text && at + 256 <= |blob| && blob[at..at + |text|] == text && blob[at + |text|] == 0
  }

  /// Header i answers to that name and kind.
  predicate AnswersTo(blob: seq<Byte>, i: nat, text: seq<Byte>, kind: nat) {
    NameStands(blob, i, text) && kind < 0x1_0000 && Stands(blob, 64 + 304 * i + 268, 2, kind)
  }

  /// Such a section is accepted: for this machine, or fat; in the image window; its content in the file,
  /// behind the header table.
  predicate Acceptable(fat: bool, count: nat, len: nat, cpu: nat, offset: nat, offsetSize: nat, vmAddress: nat,
                       vmSize: nat)
  {
    && (cpu == 1 || fat) && vmSize >= 1 && 0x4000_0000 <= vmAddress && vmAddress + vmSize <= 0x4400_0000
    && offsetSize <= vmSize && (offsetSize > 0 ==> 64 + 304 * count <= offset && offset + offsetSize <= len)
  }

  // ---- what the kernel reads -------------------------------------------------------------

  /// The containers the search takes are those.
  lemma ContainerHeaders(blob: seq<Byte>, fat: bool, count: nat)
    ensures PefContainer(blob, fat, count)
            <==>
            && ValidContainer(blob) && ContainerOf(blob).count == count
            && MagicIs(ContainerOf(blob), MAGIC_FAT) == fat
  {
    hide Pow2, Field, Stands;
    SmallPowers();
    if |blob| >= 64 {
      FieldStands(blob, 17, 4);
      FieldStands(blob, 45, 8);
      var magic := blob[..5][..4];
      assert magic[0] == blob[0] && magic[1] == blob[1] && magic[2] == blob[2] && magic[3] == blob[3];
      if PefContainer(blob, fat, count) {
        StandsField(blob, 17, 4, 0x5046);
        StandsField(blob, 45, 8, count);
      }
    }
  }

  /// And the constructor takes those with three headers at least, all five characters of the magic in
  /// place and, unless they are fat, this machine.
  lemma ConstructorTakes(blob: seq<Byte>)
    requires |blob| >= 64
    ensures Usable(blob)
            <==>
            && Stands(blob, 17, 4, 0x5046)
            && (exists count: nat :: 3 <= count < TWO_TO_THE_64 && Stands(blob, 45, 8, count))
            && ((blob[..5] == ['O' as int, 'p' as int, 'e' as int, 'n' as int, 0] && Stands(blob, 21, 4, 1))
                || blob[..5] == ['n' as int, 'e' as int, 'p' as int, 'O' as int, 0])
  {
    hide Pow2, Field, Stands;
    SmallPowers();
    FieldStands(blob, 17, 4);
    FieldStands(blob, 21, 4);
    FieldStands(blob, 45, 8);
    if Stands(blob, 17, 4, 0x5046) {
      StandsField(blob, 17, 4, 0x5046);
    }
    if Stands(blob, 21, 4, 1) {
      StandsField(blob, 21, 4, 1);
    }
    if count: nat :| 3 <= count < TWO_TO_THE_64 && Stands(blob, 45, 8, count) {
      StandsField(blob, 45, 8, count);
    }
    assert MAGIC + [0] == [79, 112, 101, 110, 0] && MAGIC_FAT + [0] == [110, 101, 112, 79, 0];
  }

  /// The search reads the same numbers off header i.
  lemma HeaderNumbers(blob: seq<Byte>, i: nat, cpu: nat, kind: nat, offset: nat, offsetSize: nat, vmAddress: nat,
                      vmSize: nat)
    requires 64 + 304 * (i + 1) <= |blob|
    ensures var h := HeaderAt(blob, i);
            HeaderStands(blob, i, cpu, kind, offset, offsetSize, vmAddress, vmSize)
            <==> h == Header(h.name, cpu, kind, offset, offsetSize, vmAddress, vmSize)
  {
    hide Pow2, Field, Stands;
    SmallPowers();
    var at := 64 + 304 * i;
    FieldStands(blob, at + 256, 4);
    FieldStands(blob, at + 268, 2);
    FieldStands(blob, at + 270, 8);
    FieldStands(blob, at + 278, 8);
    FieldStands(blob, at + 286, 8);
    FieldStands(blob, at + 294, 8);
    if HeaderStands(blob, i, cpu, kind, offset, offsetSize, vmAddress, vmSize) {
      StandsField(blob, at + 256, 4, cpu);
      StandsField(blob, at + 268, 2, kind);
      StandsField(blob, at + 270, 8, offset);
      StandsField(blob, at + 278, 8, offsetSize);
      StandsField(blob, at + 286, 8, vmAddress);
      StandsField(blob, at + 294, 8, vmSize);
    }
  }

  lemma NameIs(blob: seq<Byte>, i: nat, text: seq<Byte>)
    requires 64 + 304 * (i + 1) <= |blob|
    ensures NameStands(blob, i, text) <==> Str(HeaderAt(blob, i).name) == text && |text| < 256
  {
    hide Field;
    var at := 64 + 304 * i;
    var field := blob[at..at + 256];
    assert HeaderAt(blob, i).name == field;
    if |text| < 256 {
      assert field[..|text|] == blob[at..at + |text|] && field[|text|] == blob[at + |text|];
      if NameStands(blob, i, text) {
        StrIs(field, |text|);
      }
    }
  }

  lemma AnswerMatches(blob: seq<Byte>, i: nat, text: seq<Byte>, kind: nat)
    requires 64 + 304 * (i + 1) <= |blob|
    ensures AnswersTo(blob, i, text, kind) <==> Matches(HeaderAt(blob, i), text, kind)
  {
    hide Pow2, Field, Stands, NameStands;
    SmallPowers();
    NameIs(blob, i, text);
    var at := 64 + 304 * i;
    FieldStands(blob, at + 268, 2);
    if AnswersTo(blob, i, text, kind) {
      StandsField(blob, at + 268, 2, kind);
    }
  }

  // ---- the search ------------------------------------------------------------------------

  /// The first header that answers decides, and what is found are the numbers in it.
  lemma FirstAnswers(blob: seq<Byte>, fat: bool, count: nat, text: seq<Byte>, kind: nat, i: nat, cpu: nat, offset: nat,
                     offsetSize: nat, vmAddress: nat, vmSize: nat)
    requires PefContainer(blob, fat, count) && i < count && AnswersTo(blob, i, text, kind)
    requires forall j: nat | j < i :: !AnswersTo(blob, j, text, kind)
    requires HeaderStands(blob, i, cpu, kind, offset, offsetSize, vmAddress, vmSize)
    ensures (exists h :: Finds(blob, text, kind, h))
            <==> Acceptable(fat, count, |blob|, cpu, offset, offsetSize, vmAddress, vmSize)
    ensures forall h | Finds(blob, text, kind, h) ::
              h == Header(h.name, cpu, kind, offset, offsetSize, vmAddress, vmSize)
  {
    ContainerHeaders(blob, fat, count);
    HeaderNumbers(blob, i, cpu, kind, offset, offsetSize, vmAddress, vmSize);
    AcceptsNumbers(blob, fat, count, HeaderAt(blob, i));
    hide PefContainer, HeaderStands, AnswersTo, Matches, HeaderAt, Finds, Accepts, ValidContainer, ContainerOf;
    hide Acceptable;
    forall j: nat | j <= i
      ensures AnswersTo(blob, j, text, kind) <==> Matches(HeaderAt(blob, j), text, kind)
    {
      AnswerMatches(blob, j, text, kind);
    }
    OnlyFirst(blob, text, kind, i);
  }

  lemma AcceptsNumbers(blob: seq<Byte>, fat: bool, count: nat, h: Header)
    requires PefContainer(blob, fat, count)
    ensures ValidContainer(blob) && ContainerOf(blob).count == count
    ensures Accepts(blob, h)
            <==> Acceptable(fat, count, |blob|, h.cpu, h.offset, h.offsetSize, h.vmAddress, h.vmSize)
  {
    ContainerHeaders(blob, fat, count);
    hide ContainerOf, PefContainer;
  }

  /// When no header answers, nothing is found.
  lemma NoneAnswers(blob: seq<Byte>, fat: bool, count: nat, text: seq<Byte>, kind: nat)
    requires PefContainer(blob, fat, count) && forall j: nat | j < count :: !AnswersTo(blob, j, text, kind)
    ensures forall h :: !Finds(blob, text, kind, h)
  {
    ContainerHeaders(blob, fat, count);
    hide PefContainer, AnswersTo, Matches, HeaderAt;
    forall j: nat | j < count
      ensures !Matches(HeaderAt(blob, j), text, kind)
    {
      AnswerMatches(blob, j, text, kind);
    }
  }

  // ---- the symbol ------------------------------------------------------------------------

  /// The name of the section of a symbol: ".code64" for kind 0xC, ".data64" for 0xD, ".zero64" for 0xE,
  /// then the symbol with a dollar sign for every space.
  predicate SectionText(kind: nat, name: seq<Byte>, text: seq<Byte>) {
    && (kind == 0xC || kind == 0xD || kind == 0xE) && |text| == 7 + |name|
    && (forall k | 0 <= k < 7 ::
          text[k] == (if kind == 0xC then ".code64"[k] else if kind == 0xD then ".data64"[k] else ".zero64"[k]) as int)
    && (forall k | 7 <= k < |text| ::
          text[k] == if name[k - 7] == ' ' as int then '$' as int else name[k - 7])
  }

  lemma TextIsName(kind: nat, name: seq<Byte>, text: seq<Byte>)
    ensures SectionText(kind, name, text) <==> KindPrefix(kind).Some? && text == SectionName(kind, name)
  {
    if kind == 0xC || kind == 0xD || kind == 0xE {
      var prefix, n := KindPrefix(kind).value, SectionName(kind, name);
      assert |n| == 7 + |name|;
      assert forall k | 0 <= k < 7 :: n[k] == prefix[k];
      assert forall k | 7 <= k < |n| :: n[k] == Mangle(name[k - 7]);
      PrefixText(kind);
    }
  }

  lemma PrefixText(kind: nat)
    requires kind == 0xC || kind == 0xD || kind == 0xE
    ensures forall k | 0 <= k < 7 ::
              KindPrefix(kind).value[k]
              == (if kind == 0xC then ".code64"[k] else if kind == 0xD then ".data64"[k] else ".zero64"[k]) as int
  {
  }

  /// The section of the symbol is in header i.
  ghost predicate InHeader(blob: seq<Byte>, fat: bool, count: nat, name: seq<Byte>, kind: nat, i: nat) {
    && PefContainer(blob, fat, count) && i < count
    && exists text :: SectionText(kind, name, text) && AnswersTo(blob, i, text, kind)
                      && forall j: nat | j < i :: !AnswersTo(blob, j, text, kind)
  }

  lemma SymbolFound(blob: seq<Byte>, fat: bool, count: nat, name: seq<Byte>, kind: nat, i: nat,
                    cpu: nat, offset: nat, offsetSize: nat, vmAddress: nat, vmSize: nat)
    requires InHeader(blob, fat, count, name, kind, i)
    requires HeaderStands(blob, i, cpu, kind, offset, offsetSize, vmAddress, vmSize)
    ensures (exists h :: Located(blob, name, kind, h))
            <==> Acceptable(fat, count, |blob|, cpu, offset, offsetSize, vmAddress, vmSize)
    ensures forall h | Located(blob, name, kind, h) ::
              h == Header(h.name, cpu, kind, offset, offsetSize, vmAddress, vmSize)
  {
    hide PefContainer, HeaderStands, SectionText, KindPrefix, SectionName, Located, Finds, Acceptable;
    var text :| SectionText(kind, name, text) && AnswersTo(blob, i, text, kind)
                && forall j: nat | j < i :: !AnswersTo(blob, j, text, kind);
    FirstAnswers(blob, fat, count, text, kind, i, cpu, offset, offsetSize, vmAddress, vmSize);
    TextIsName(kind, name, text);
    hide NameStands;
    forall h
      ensures Located(blob, name, kind, h) <==> Finds(blob, text, kind, h)
    {
      LocatedFinds(blob, name, text, kind, i, h);
    }
  }

  /// A section that is not accepted, or has no content, is refused, and nothing changes.
  lemma SymbolRefused(blob: seq<Byte>, fat: bool, count: nat, name: seq<Byte>, kind: nat, i: nat,
                      cpu: nat, offset: nat, offsetSize: nat, vmAddress: nat, vmSize: nat,
                      root: nat, s: Space, s': Space, r: LoadResult)
    requires InHeader(blob, fat, count, name, kind, i)
    requires HeaderStands(blob, i, cpu, kind, offset, offsetSize, vmAddress, vmSize)
    requires Pef.Answers(blob, name, kind, root, s, s', r)
    requires !Acceptable(fat, count, |blob|, cpu, offset, offsetSize, vmAddress, vmSize) || offsetSize == 0
    ensures r == InvalidData && s' == s
  {
    hide InHeader, HeaderStands, Acceptable, Located, LoadSection;
    SymbolFound(blob, fat, count, name, kind, i, cpu, offset, offsetSize, vmAddress, vmSize);
  }

  /// An accepted section with content and room is loaded when the frames suffice, and memory then shows, at
  /// the address in the header, the content at the offset in the header, and zeros behind it.
  lemma SymbolBytes(blob: seq<Byte>, fat: bool, count: nat, name: seq<Byte>, kind: nat, i: nat,
                    cpu: nat, offset: nat, offsetSize: nat, vmAddress: nat, vmSize: nat,
                    root: nat, s: Space, s': Space, r: LoadResult)
    requires InHeader(blob, fat, count, name, kind, i)
    requires HeaderStands(blob, i, cpu, kind, offset, offsetSize, vmAddress, vmSize)
    requires Pef.Answers(blob, name, kind, root, s, s', r) && Sound(s, root)
    requires Acceptable(fat, count, |blob|, cpu, offset, offsetSize, vmAddress, vmSize) && offsetSize > 0
    requires vmAddress % 4096 + vmSize <= 4096 * PageCount(vmSize)
    ensures !FramesSuffice(s, vmAddress, PageCount(vmSize)) ==> r == OutOfMemory
    ensures FramesSuffice(s, vmAddress, PageCount(vmSize)) ==>
              r == Image(vmAddress) && SectionReads(s'.store.mem, root, blob, offset, offsetSize, vmAddress, vmSize)
  {
    hide InHeader, HeaderStands, Located, LoadSection, FramesSuffice, SectionReads, Sound;
    SymbolFound(blob, fat, count, name, kind, i, cpu, offset, offsetSize, vmAddress, vmSize);
    var h :| Located(blob, name, kind, h);
    AnswerIs(blob, name, kind, h, root, s, s', r);
    WindowPages(vmAddress, vmSize, PageCount(vmSize));
    SectionShows(s, root, vmAddress, vmSize, blob, offset, offsetSize);
  }

  /// Memory at address base shows n bytes of the blob from offset on, then zeros up to size.
  ghost predicate SectionReads(m: Memory, root: nat, blob: seq<Byte>, offset: nat, n: nat, base: nat, size: nat) {
    && offset + n <= |blob|
    && (forall va: nat | base <= va < base + n :: LoadByte(m, root, va) == Some(blob[offset + (va - base)]))
    && (forall va: nat | base + n <= va < base + size :: LoadByte(m, root, va) == Some(0))
  }

  /// A symbol no header answers to is refused, and so is one of another kind.
  lemma SymbolMissing(blob: seq<Byte>, fat: bool, count: nat, name: seq<Byte>, kind: nat,
                      root: nat, s: Space, s': Space, r: LoadResult)
    requires PefContainer(blob, fat, count) && Pef.Answers(blob, name, kind, root, s, s', r)
    requires forall text, j: nat | SectionText(kind, name, text) && j < count :: !AnswersTo(blob, j, text, kind)
    ensures r == InvalidData && s' == s
  {
    hide PefContainer, SectionText, AnswersTo, Finds, LoadSection, KindPrefix, SectionName;
    forall h
      ensures !Located(blob, name, kind, h)
    {
      if Located(blob, name, kind, h) {
        var text := SectionName(kind, name);
        TextIsName(kind, name, text);
        NoneAnswers(blob, fat, count, text, kind);
      }
    }
  }

  lemma AnswerIs(blob: seq<Byte>, name: seq<Byte>, kind: nat, h: Header, root: nat, s: Space, s': Space, r: LoadResult)
    requires Pef.Answers(blob, name, kind, root, s, s', r) && Located(blob, name, kind, h) && h.offsetSize > 0
    ensures h.offset + h.offsetSize <= |blob|
    ensures var o := LoadSection(s, root, h.vmAddress, h.vmSize, blob[h.offset..h.offset + h.offsetSize]);
            s' == o.0 && r == o.1
  {
    hide LoadSection, Located;
    forall h' | Located(blob, name, kind, h')
      ensures h' == h
    {
      LocatedOnce(blob, name, kind, h, h');
    }
  }

  lemma LocatedFinds(blob: seq<Byte>, name: seq<Byte>, text: seq<Byte>, kind: nat, i: nat, h: Header)
    requires KindPrefix(kind).Some? && text == SectionName(kind, name) && NameStands(blob, i, text)
    ensures Located(blob, name, kind, h) <==> Finds(blob, text, kind, h)
  {
    NameLength(kind, name);
  }

  // A loaded section, byte by byte.
  lemma SectionShows(s: Space, root: nat, base: nat, size: nat, blob: seq<Byte>, offset: nat, n: nat)
    requires Sound(s, root) && base / 4096 + PageCount(size) <= PAGES && base > 0
    requires base % 4096 + size <= 4096 * PageCount(size) && offset + n <= |blob| && 0 < n <= size
    ensures var (s', r) := LoadSection(s, root, base, size, blob[offset..offset + n]);
            if !FramesSuffice(s, base, PageCount(size)) then r == OutOfMemory
            else r == Image(base) && SectionReads(s'.store.mem, root, blob, offset, n, base, size)
  {
    hide LoadSection, LoadByte, FramesSuffice, PageCount, Sound, SectionContent;
    var src := blob[offset..offset + n];
    SectionOutcome(s, root, base, size, src);
    var content, s' := SectionContent(base, size, src), LoadSection(s, root, base, size, src).0;
    if FramesSuffice(s, base, PageCount(size)) {
      forall va: nat | base <= va < base + size
        ensures LoadByte(s'.store.mem, root, va)
                == Some(if va < base + n then blob[offset + (va - base)] else 0)
      {
        ContentByte(base, size, blob, offset, n, va - base);
        assert LoadByte(s'.store.mem, root, va) == Some(content[va - base]);
      }
    }
  }

  lemma ContentByte(base: nat, size: nat, blob: seq<Byte>, offset: nat, n: nat, k: nat)
    requires base > 0 && offset + n <= |blob| && n <= size && k < size
    ensures SectionContent(base, size, blob[offset..offset + n])[k] == if k < n then blob[offset + k] else 0
  {
  }

  // ---- one container, spelled out --------------------------------------------------------

  const CODE: seq<Byte> := [46, 99, 111, 100, 101, 54, 52]    // ".code64"
  const DATA: seq<Byte> := [46, 100, 97, 116, 97, 54, 52]     // ".data64"
  const ZERO: seq<Byte> := [46, 122, 101, 114, 111, 54, 52]   // ".zero64"

  /// A header for the symbol "ma n".
  function HeaderBytes(prefix: seq<Byte>, kind: Byte, low: Byte, size: Byte, page: Byte, vmSize: Byte): (h: seq<Byte>)
    requires |prefix| == 7
    ensures |h| == 304
  {
    seq(304, j requires 0 <= j < 304 => HeaderByte(prefix, kind, low, size, page, vmSize, j))
  }

  function HeaderByte(prefix: seq<Byte>, kind: Byte, low: Byte, size: Byte, page: Byte, vmSize: Byte, j: nat): Byte
    requires |prefix| == 7
  {
    if j < 7 then prefix[j]
    else
      match j
      case 7 => 'm' as int case 8 => 'a' as int case 9 => '$' as int case 10 => 'n' as int
      case 256 => 1                          // Cpu
      case 268 => kind
      case 270 => low case 271 => 3          // Offset
      case 278 => size                       // OffsetSize
      case 287 => page case 289 => 0x40      // VMAddress
      case 294 => vmSize
      case _ => 0
  }

  lemma HeaderBytesStand(h: seq<Byte>, prefix: seq<Byte>, kind: Byte, low: Byte, size: Byte, page: Byte, vmSize: Byte)
    requires |prefix| == 7
    requires h == HeaderBytes(prefix, kind, low, size, page, vmSize)
    ensures Stands(h, 256, 4, 1) && Stands(h, 268, 2, kind) && Stands(h, 270, 8, 0x300 + low)
    ensures Stands(h, 278, 8, size) && Stands(h, 286, 8, 0x4000_0000 + 0x100 * page) && Stands(h, 294, 8, vmSize)
  {
    hide Stands;
    StandsFour(h, 256, 1);
    StandsTwo(h, 268, kind);
    StandsSmall(h, 270, 0x300 + low);
    StandsSmall(h, 278, size);
    StandsSmall(h, 286, 0x4000_0000 + 0x100 * page);
    StandsSmall(h, 294, vmSize);
  }

  lemma StandsSmall(blob: seq<Byte>, at: nat, x: nat)
    requires at + 8 <= |blob| && x < 0x1_0000_0000 && blob[at] == x % 256 && blob[at + 1] == x / 0x100 % 256
    requires blob[at + 2] == x / 0x1_0000 % 256 && blob[at + 3] == x / 0x100_0000 % 256
    requires blob[at + 4] == blob[at + 5] == blob[at + 6] == blob[at + 7] == 0
    ensures Stands(blob, at, 8, x)
  {
    hide Stands;
    StandsFour(blob, at, x);
    StandsFour(blob, at + 4, 0);
    StandsEight(blob, at, x);
  }

  function ContainerBytes(): (c: seq<Byte>)
    ensures |c| == 64
  {
    seq(64, (i: nat) => ContainerByte(i))
  }

  function ContainerByte(i: nat): Byte {
    match i
    case 0 => 'O' as int case 1 => 'p' as int case 2 => 'e' as int case 3 => 'n' as int
    case 17 => 0x46 case 18 => 0x50          // Abi
    case 21 => 1                             // Cpu
    case 45 => 3                             // Count
    case _ => 0
  }

  lemma ContainerBytesStand(c: seq<Byte>)
    requires c == ContainerBytes()
    ensures Stands(c, 17, 4, 0x5046) && Stands(c, 21, 4, 1) && Stands(c, 45, 8, 3)
    ensures c[0] == 'O' as int && c[1] == 'p' as int && c[2] == 'e' as int && c[3] == 'n' as int && c[4] == 0
  {
    hide Stands;
    StandsFour(c, 17, 0x5046);
    StandsFour(c, 21, 1);
    StandsSmall(c, 45, 3);
  }

  /// Two bytes of code at 0x4000_0000, three of data at 0x4000_1000, one at 0x4000_3000.
  function ExampleContainer(): (blob: seq<Byte>)
    ensures |blob| == 982
  {
    ContainerBytes() + HeaderBytes(CODE, 0xC, 0xD0, 2, 0, 3) + HeaderBytes(DATA, 0xD, 0xD2, 3, 0x10, 5)
    + HeaderBytes(ZERO, 0xE, 0xD5, 1, 0x30, 4) + [11, 12, 21, 22, 23, 31]
  }

  lemma StandsInside(blob: seq<Byte>, at: nat, part: seq<Byte>, k: nat, n: nat, x: nat)
    requires at + |part| <= |blob| && blob[at..at + |part|] == part && Stands(part, k, n, x)
    ensures Stands(blob, at + k, n, x)
  {
    var inner, outer := part[k..k + n], blob[at + k..at + k + n];
    forall j | 0 <= j < n
      ensures outer[j] == inner[j]
    {
      assert blob[at + (k + j)] == blob[at..at + |part|][k + j];
    }
  }

  lemma ExampleParts(blob: seq<Byte>)
    requires blob == ExampleContainer()
    ensures blob[0..64] == ContainerBytes() && blob[64..368] == HeaderBytes(CODE, 0xC, 0xD0, 2, 0, 3)
    ensures blob[368..672] == HeaderBytes(DATA, 0xD, 0xD2, 3, 0x10, 5)
    ensures blob[672..976] == HeaderBytes(ZERO, 0xE, 0xD5, 1, 0x30, 4)
    ensures blob[976..982] == [11, 12, 21, 22, 23, 31]
  {
    hide ContainerBytes, HeaderBytes;
  }

  lemma ExampleHeader(blob: seq<Byte>)
    requires blob == ExampleContainer()
    ensures PefContainer(blob, false, 3) && Usable(blob)
  {
    ExampleParts(blob);
    hide ExampleContainer;
    var c := ContainerBytes();
    ContainerBytesStand(c);
    hide ContainerBytes;
    assert blob[0] == c[0] && blob[1] == c[1] && blob[2] == c[2] && blob[3] == c[3] && blob[4] == c[4];
    assert blob[..5] == MAGIC + [0];
    hide Stands;
    StandsInside(blob, 0, c, 17, 4, 0x5046);
    StandsInside(blob, 0, c, 21, 4, 1);
    StandsInside(blob, 0, c, 45, 8, 3);
    SmallPowers();
    hide Pow2, Field;
    StandsField(blob, 17, 4, 0x5046);
    StandsField(blob, 21, 4, 1);
    StandsField(blob, 45, 8, 3);
  }

  lemma HeaderInside(blob: seq<Byte>, i: nat, prefix: seq<Byte>, kind: Byte, low: Byte, size: Byte, page: Byte,
                     vm: Byte)
    requires |prefix| == 7 && 64 + 304 * (i + 1) <= |blob|
    requires var at := 64 + 304 * i; blob[at..at + 304] == HeaderBytes(prefix, kind, low, size, page, vm)
    ensures HeaderStands(blob, i, 1, kind, 0x300 + low, size, 0x4000_0000 + 0x100 * page, vm)
  {
    var at, h := 64 + 304 * i, HeaderBytes(prefix, kind, low, size, page, vm);
    HeaderBytesStand(h, prefix, kind, low, size, page, vm);
    hide Stands, HeaderBytes;
    StandsInside(blob, at, h, 256, 4, 1);
    StandsInside(blob, at, h, 268, 2, kind);
    StandsInside(blob, at, h, 270, 8, 0x300 + low);
    StandsInside(blob, at, h, 278, 8, size);
    StandsInside(blob, at, h, 286, 8, 0x4000_0000 + 0x100 * page);
    StandsInside(blob, at, h, 294, 8, vm);
  }

  lemma NameInside(blob: seq<Byte>, i: nat, prefix: seq<Byte>, kind: Byte, low: Byte, size: Byte, page: Byte, vm: Byte)
    requires |prefix| == 7 && 0 !in prefix && 64 + 304 * (i + 1) <= |blob|
    requires var at := 64 + 304 * i; blob[at..at + 304] == HeaderBytes(prefix, kind, low, size, page, vm)
    ensures NameStands(blob, i, prefix + [109, 97, 36, 110])
  {
    var at, h, text := 64 + 304 * i, HeaderBytes(prefix, kind, low, size, page, vm), prefix + [109, 97, 36, 110];
    assert h[7] == 109 && h[8] == 97 && h[9] == 36 && h[10] == 110 && h[11] == 0;
    assert forall j | 0 <= j < 7 :: h[j] == prefix[j];
    assert h[..11] == text;
    hide HeaderBytes;
    assert blob[at..at + 11] == blob[at..at + 304][..11] && blob[at + 11] == blob[at..at + 304][11];
  }

  // Header i answers to one kind only.
  lemma OneKind(blob: seq<Byte>, i: nat, text: seq<Byte>, kind: nat, kind': nat)
    requires AnswersTo(blob, i, text, kind') && kind < 0x1_0000 && Stands(blob, 64 + 304 * i + 268, 2, kind)
    ensures kind' == kind
  {
    hide Pow2, Stands, Field;
    SmallPowers();
    StandsField(blob, 64 + 304 * i + 268, 2, kind);
    StandsField(blob, 64 + 304 * i + 268, 2, kind');
  }

  const MA_N: seq<Byte> := [109, 97, 32, 110]   // "ma n"

  /// The loader takes it, and each kind of the symbol is answered from its own header.
  lemma ExampleAnswers(s: Space, root: nat, s': Space, r: LoadResult)
    requires Sound(s, root)
    ensures var blob := ExampleContainer();
            && Usable(blob)
            && (Pef.Answers(blob, MA_N, 0xC, root, s, s', r) && FramesSuffice(s, 0x4000_0000, 1) ==>
                  r == Image(0x4000_0000) && SectionReads(s'.store.mem, root, [11, 12], 0, 2, 0x4000_0000, 3))
            && (Pef.Answers(blob, MA_N, 0xD, root, s, s', r) && FramesSuffice(s, 0x4000_1000, 1) ==>
                  r == Image(0x4000_1000) && SectionReads(s'.store.mem, root, [21, 22, 23], 0, 3, 0x4000_1000, 5))
            && (Pef.Answers(blob, MA_N, 0xE, root, s, s', r) && FramesSuffice(s, 0x4000_3000, 1) ==>
                  r == Image(0x4000_3000) && SectionReads(s'.store.mem, root, [31], 0, 1, 0x4000_3000, 4))
  {
    hide Usable, Pef.Answers, FramesSuffice, SectionReads, Sound;
    var blob := ExampleContainer();
    ExampleHeader(blob);
    if Pef.Answers(blob, MA_N, 0xC, root, s, s', r) && FramesSuffice(s, 0x4000_0000, 1) {
      ExampleAnswer(blob, 0, CODE, 0xC, 0xD0, 2, 0, 3, [11, 12], root, s, s', r);
    }
    if Pef.Answers(blob, MA_N, 0xD, root, s, s', r) && FramesSuffice(s, 0x4000_1000, 1) {
      ExampleAnswer(blob, 1, DATA, 0xD, 0xD2, 3, 0x10, 5, [21, 22, 23], root, s, s', r);
    }
    if Pef.Answers(blob, MA_N, 0xE, root, s, s', r) && FramesSuffice(s, 0x4000_3000, 1) {
      ExampleAnswer(blob, 2, ZERO, 0xE, 0xD5, 1, 0x30, 4, [31], root, s, s', r);
    }
  }

  lemma ExampleAnswer(blob: seq<Byte>, i: nat, prefix: seq<Byte>, kind: Byte, low: Byte, size: Byte, page: Byte,
                      vm: Byte, part: seq<Byte>, root: nat, s: Space, s': Space, r: LoadResult)
    requires blob == ExampleContainer() && Sound(s, root)
    requires || (i == 0 && prefix == CODE && kind == 0xC && low == 0xD0 && size == 2 && page == 0 && vm == 3
                 && part == [11, 12])
             || (i == 1 && prefix == DATA && kind == 0xD && low == 0xD2 && size == 3 && page == 0x10 && vm == 5
                 && part == [21, 22, 23])
             || (i == 2 && prefix == ZERO && kind == 0xE && low == 0xD5 && size == 1 && page == 0x30 && vm == 4
                 && part == [31])
    requires Pef.Answers(blob, MA_N, kind, root, s, s', r) && FramesSuffice(s, 0x4000_0000 + 0x100 * page, 1)
    ensures r == Image(0x4000_0000 + 0x100 * page)
    ensures SectionReads(s'.store.mem, root, part, 0, size, 0x4000_0000 + 0x100 * page, vm)
  {
    hide Pef.Answers, FramesSuffice, SectionReads, Sound, HeaderStands, InHeader, PefContainer;
    var base := 0x4000_0000 + 0x100 * page;
    ExampleHeader(blob);
    ExamplePart(blob, i, prefix, kind, low, size, page, vm, part);
    assert PageCount(vm) == 1;
    SymbolBytes(blob, false, 3, MA_N, kind, i, 1, 0x300 + low, size, base, vm, root, s, s', r);
    SameReads(s'.store.mem, root, blob, 0x300 + low, part, base, vm);
  }

  lemma ExamplePart(blob: seq<Byte>, i: nat, prefix: seq<Byte>, kind: Byte, low: Byte, size: Byte, page: Byte,
                    vm: Byte, part: seq<Byte>)
    requires blob == ExampleContainer()
    requires || (i == 0 && prefix == CODE && kind == 0xC && low == 0xD0 && size == 2 && page == 0 && vm == 3
                 && part == [11, 12])
             || (i == 1 && prefix == DATA && kind == 0xD && low == 0xD2 && size == 3 && page == 0x10 && vm == 5
                 && part == [21, 22, 23])
             || (i == 2 && prefix == ZERO && kind == 0xE && low == 0xD5 && size == 1 && page == 0x30 && vm == 4
                 && part == [31])
    ensures HeaderStands(blob, i, 1, kind, 0x300 + low, size, 0x4000_0000 + 0x100 * page, vm)
    ensures InHeader(blob, false, 3, MA_N, kind, i) && |part| == size
    ensures 0x300 + low + size <= |blob| && blob[0x300 + low..0x300 + low + size] == part
  {
    ExampleHeader(blob);
    ExampleParts(blob);
    ExampleContent(blob);
    ExampleKinds(blob);
    hide ExampleContainer, HeaderBytes, PefContainer, Stands, InHeader;
    assert blob[64 + 304 * i..64 + 304 * i + 304] == HeaderBytes(prefix, kind, low, size, page, vm);
    HeaderInside(blob, i, prefix, kind, low, size, page, vm);
    ExamplePlace(blob, i, prefix, kind, low, size, page, vm);
  }

  lemma ExampleKinds(blob: seq<Byte>)
    requires blob == ExampleContainer()
    ensures forall j: nat | j < 3 :: Stands(blob, 64 + 304 * j + 268, 2, 0xC + j)
  {
    ExampleParts(blob);
    hide ExampleContainer, HeaderBytes, Stands;
    forall j: nat | j < 3
      ensures Stands(blob, 64 + 304 * j + 268, 2, 0xC + j)
    {
      if j == 0 {
        HeaderInside(blob, j, CODE, 0xC, 0xD0, 2, 0, 3);
      } else if j == 1 {
        HeaderInside(blob, j, DATA, 0xD, 0xD2, 3, 0x10, 5);
      } else {
        HeaderInside(blob, j, ZERO, 0xE, 0xD5, 1, 0x30, 4);
      }
    }
  }

  lemma ExampleContent(blob: seq<Byte>)
    requires blob == ExampleContainer()
    ensures blob[976..978] == [11, 12] && blob[978..981] == [21, 22, 23] && blob[981..982] == [31]
  {
    ExampleParts(blob);
    hide ExampleContainer;
    var data := blob[976..982];
    assert blob[976..978] == data[..2] && blob[978..981] == data[2..5] && blob[981..982] == data[5..];
  }

  lemma SameReads(m: Memory, root: nat, blob: seq<Byte>, offset: nat, part: seq<Byte>, base: nat, size: nat)
    requires SectionReads(m, root, blob, offset, |part|, base, size) && blob[offset..offset + |part|] == part
    ensures SectionReads(m, root, part, 0, |part|, base, size)
  {
    hide LoadByte;
    forall va: nat | base <= va < base + |part|
      ensures LoadByte(m, root, va) == Some(part[0 + (va - base)])
    {
      assert part[va - base] == blob[offset..offset + |part|][va - base];
    }
  }

  // The header of that kind is the first to answer: those before it are of other kinds.
  lemma ExamplePlace(blob: seq<Byte>, i: nat, prefix: seq<Byte>, kind: Byte, low: Byte, size: Byte, page: Byte,
                     vm: Byte)
    requires PefContainer(blob, false, 3) && i < 3 && |prefix| == 7
    requires var at := 64 + 304 * i; blob[at..at + 304] == HeaderBytes(prefix, kind, low, size, page, vm)
    requires kind == 0xC + i && prefix == if i == 0 then CODE else if i == 1 then DATA else ZERO
    requires HeaderStands(blob, i, 1, kind, 0x300 + low, size, 0x4000_0000 + 0x100 * page, vm)
    requires forall j: nat | j < i :: Stands(blob, 64 + 304 * j + 268, 2, 0xC + j)
    ensures InHeader(blob, false, 3, MA_N, kind, i)
  {
    var text := prefix + [109, 97, 36, 110];
    NameInside(blob, i, prefix, kind, low, size, page, vm);
    hide HeaderBytes, PefContainer, Stands, NameStands;
    forall j: nat | j < i
      ensures !AnswersTo(blob, j, text, kind)
    {
      if AnswersTo(blob, j, text, kind) {
        OneKind(blob, j, text, 0xC + j, kind);
      }
    }
    assert SectionText(kind, MA_N, text);
    assert AnswersTo(blob, i, text, kind);
  }
}
