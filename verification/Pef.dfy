/// PEF containers: finding a section by name and kind, and loading it (PEFCodeMgr.cpp,
/// KernelKit/PEF.h).

module Pef {
  import opened Bits
  import opened Words
  import opened Translation
  import opened Paging
  import opened PageMapping
  import opened AddressSpace
  import opened Bytes
  import opened Images
  import opened Overlays
  import opened Loaders
  import opened LoadEffects
  import opened ImageLoaders
  import opened PeImages
  import opened Regions

  const PEF_ABI: nat := 0x5046
  const ARCH_AMD64: nat := 1
  const MAX_SECTIONS: nat := 64

  const KIND_CODE: int := 0xC
  const KIND_DATA: int := 0xD
  const KIND_ZERO: int := 0xE

  // ---- C strings -------------------------------------------------------------------------

  /// The characters before the first NUL, all of them when there is none.
  function Str(s: seq<Byte>): (r: seq<Byte>)
    ensures |r| <= |s| && r == s[..|r|] && 0 !in r
    ensures |r| < |s| ==> s[|r|] == 0
  {
    if s == [] || s[0] == 0 then [] else [s[0]] + Str(s[1..])
  }

  lemma {:induction false} StrIs(s: seq<Byte>, n: nat)
    requires n <= |s| && 0 !in s[..n] && (n < |s| ==> s[n] == 0)
    ensures Str(s) == s[..n]
  {
    if n == 0 {
    } else {
      assert s[0] in s[..n];
      assert s[1..][..n - 1] == s[..n][1..];
      StrIs(s[1..], n - 1);
    }
  }

  /// rt_string_len, which stops at maxLen; the string must end before the buffer does.
  method StringLen(s: seq<Byte>, maxLen: nat) returns (len: nat)
    requires 0 in s || maxLen <= |s|
    ensures len == if |Str(s)| < maxLen then |Str(s)| else maxLen
  {
    len := 0;
    while len < maxLen && s[len] != 0
      invariant len <= maxLen && len <= |s|
      invariant forall j | 0 <= j < len :: s[j] != 0
    {
      len := len + 1;
    }
    if len < maxLen {
      StrIs(s, len);
    }
  }

  /// pef_name_eq: the field holds the name, terminated inside the field.
  method NameEq(field: seq<Byte>, want: seq<Byte>) returns (r: bool)
    requires |field| == 256 && 0 in want
    ensures r <==> Str(field) == Str(want) && |Str(field)| < 256
  {
    var fieldLen := StringLen(field, 256);
    if fieldLen >= 256 {
      return false;
    }
    var wantLen := StringLen(want, 256);
    if wantLen != fieldLen {
      return false;
    }
    for i := 0 to fieldLen
      invariant Str(field)[..i] == Str(want)[..i]
    {
      if field[i] != want[i] {
        assert Str(field)[i] != Str(want)[i];
        return false;
      }
    }
    assert Str(field)[..fieldLen] == Str(field) && Str(want)[..fieldLen] == Str(want);
    return true;
  }

  // ---- section names ---------------------------------------------------------------------

  /// ".code64", ".data64" or ".zero64"; None for the other kinds.
  function KindPrefix(kind: int): (r: Option<seq<Byte>>)
    ensures r.Some? ==> |r.value| == 7 && 0 !in r.value && 32 !in r.value
  {
    if kind == KIND_CODE then Some([46, 99, 111, 100, 101, 54, 52])
    else if kind == KIND_DATA then Some([46, 100, 97, 116, 97, 54, 52])
    else if kind == KIND_ZERO then Some([46, 122, 101, 114, 111, 54, 52])
    else None
  }

  function Mangle(c: Byte): Byte { if c == 32 then 36 else c }

  /// Every space becomes a dollar sign.
  function Mangled(s: seq<Byte>): (r: seq<Byte>)
    ensures |r| == |s|
  {
    seq(|s|, i requires 0 <= i < |s| => Mangle(s[i]))
  }

  /// The name of the section for a symbol.
  function SectionName(kind: int, name: seq<Byte>): seq<Byte>
    requires KindPrefix(kind).Some?
  {
    KindPrefix(kind).value + Mangled(name)
  }

  predicate SpaceOrDollar(c: Byte) { c == 32 || c == 36 }

  /// Two symbols share a section name exactly when they have the same kind and the same length, and in
  /// every place the same character, or one a space and the other a dollar sign.
  lemma SectionNamesCollide(k1: int, n1: seq<Byte>, k2: int, n2: seq<Byte>)
    requires KindPrefix(k1).Some? && KindPrefix(k2).Some?
    ensures SectionName(k1, n1) == SectionName(k2, n2)
            <==>
            && k1 == k2 && |n1| == |n2|
            && forall i | 0 <= i < |n1| :: n1[i] == n2[i] || (SpaceOrDollar(n1[i]) && SpaceOrDollar(n2[i]))
  {
    var a, b := SectionName(k1, n1), SectionName(k2, n2);
    if a == b {
      assert a[1] == KindPrefix(k1).value[1] && b[1] == KindPrefix(k2).value[1];
      assert Mangled(n1) == a[7..] && Mangled(n2) == b[7..];
      assert forall i | 0 <= i < |n1| :: Mangled(n1)[i] == Mangle(n1[i]) && Mangled(n2)[i] == Mangle(n2[i]);
    } else if k1 == k2 && |n1| == |n2| {
      assert Mangled(n1) != Mangled(n2);
      var i :| 0 <= i < |n1| && Mangled(n1)[i] != Mangled(n2)[i];
      assert Mangle(n1[i]) != Mangle(n2[i]);
    }
  }

  /// pef_make_name into a buffer; the name is a terminated string.
  method MakeName(dst: array<Byte>, kind: int, name: seq<Byte>) returns (ok: bool)
    requires 0 in name
    modifies dst
    ensures ok <==> KindPrefix(kind).Some? && 7 + |Str(name)| < dst.Length
    ensures ok ==> Str(dst[..]) == SectionName(kind, Str(name)) && 0 in dst[..]
    ensures !ok ==> dst[..] == old(dst[..])
  {
    if dst.Length == 0 {
      return false;
    }
    var prefix := KindPrefix(kind);
    if prefix.None? {
      return false;
    }
    var prefixLen := if 7 < dst.Length then 7 else dst.Length;
    var nameLen := StringLen(name, dst.Length);
    if nameLen >= dst.Length - prefixLen {
      return false;
    }
    for i := 0 to 7
      invariant dst[..i] == prefix.value[..i]
    {
      dst[i] := prefix.value[i];
    }
    assert dst[..7] == prefix.value;
    for i := 0 to nameLen
      invariant dst[..7] == prefix.value
      invariant forall j | 7 <= j < 7 + i :: dst[j] == name[j - 7]
    {
      dst[7 + i] := name[i];
    }
    for i := 7 to 7 + nameLen
      invariant dst[..7] == prefix.value
      invariant forall j | 7 <= j < 7 + nameLen :: dst[j] == if j < i then Mangle(name[j - 7]) else name[j - 7]
    {
      if dst[i] == 32 {
        dst[i] := 36;
      }
    }
    dst[7 + nameLen] := 0;
    NameWritten(dst[..], kind, name, nameLen);
    return true;
  }

  lemma NameWritten(d: seq<Byte>, kind: int, name: seq<Byte>, nameLen: nat)
    requires KindPrefix(kind).Some? && nameLen == |Str(name)| && 7 + nameLen < |d|
    requires d[..7] == KindPrefix(kind).value && d[7 + nameLen] == 0
    requires forall j | 7 <= j < 7 + nameLen :: d[j] == Mangle(name[j - 7])
    ensures Str(d) == SectionName(kind, Str(name)) && 0 in d
  {
    var n := SectionName(kind, Str(name));
    forall j | 0 <= j < 7 + nameLen
      ensures d[j] == n[j] && d[j] != 0
    {
      if j < 7 {
        assert d[j] == d[..7][j] && d[j] in KindPrefix(kind).value;
      } else {
        assert name[j - 7] == Str(name)[j - 7] && Str(name)[j - 7] in Str(name);
      }
    }
    assert d[..7 + nameLen] == n;
    StrIs(d, 7 + nameLen);
  }

  // ---- headers ---------------------------------------------------------------------------

  /// The fields of PEFContainer and PEFCommandHeader the kernel reads.
  datatype Container = Container(magic: seq<Byte>, abi: nat, cpu: nat, count: nat)
  datatype Header = Header(name: seq<Byte>, cpu: nat, kind: nat, offset: nat, offsetSize: nat, vmAddress: nat,
                           vmSize: nat)

  /// sizeof(PEFContainer) is 64.
  function ContainerOf(blob: seq<Byte>): (c: Container)
    requires |blob| >= 64
    ensures |c.magic| == 5
  {
    Container(blob[..5], Field(blob, 17, 4), Field(blob, 21, 4), Field(blob, 45, 8))
  }

  /// sizeof(PEFCommandHeader) is 304.
  function HeaderAt(blob: seq<Byte>, i: nat): (h: Header)
    requires 64 + 304 * (i + 1) <= |blob|
    ensures |h.name| == 256
  {
    var at := 64 + 304 * i;
    Header(blob[at..at + 256], Field(blob, at + 256, 4), Field(blob, at + 268, 2),
           Field(blob, at + 270, 8), Field(blob, at + 278, 8), Field(blob, at + 286, 8), Field(blob, at + 294, 8))
  }

  lemma FieldsFit(blob: seq<Byte>, i: nat)
    requires 64 + 304 * (i + 1) <= |blob|
    ensures var h := HeaderAt(blob, i);
            h.offset < TWO_TO_THE_64 && h.offsetSize < TWO_TO_THE_64 && h.vmAddress < TWO_TO_THE_64
              && h.vmSize < TWO_TO_THE_64
  {
    hide Pow2, Field;
    var at := 64 + 304 * i;
    Powers();
    FieldBound(blob, at + 270, 8);
    FieldBound(blob, at + 278, 8);
    FieldBound(blob, at + 286, 8);
    FieldBound(blob, at + 294, 8);
  }

  const MAGIC: seq<Byte> := [79, 112, 101, 110]      // "Open"
  const MAGIC_FAT: seq<Byte> := [110, 101, 112, 79]  // "nepO"

  /// pef_magic_eq looks at four of the five characters.
  predicate MagicIs(c: Container, want: seq<Byte>) {
    |c.magic| == 5 && c.magic[..4] == want
  }

  /// The test of the PEFLoader constructor: three headers at least, all five characters of the magic
  /// and, unless the container is fat, this machine.
  predicate Usable(blob: seq<Byte>)
    requires |blob| >= 64
  {
    var c := ContainerOf(blob);
    c.abi == PEF_ABI && c.count >= 3 && ((c.cpu == ARCH_AMD64 && c.magic == MAGIC + [0]) || c.magic == MAGIC_FAT + [0])
  }

  /// The blob starts with a container header, and the whole header table lies inside the blob.
  predicate ValidContainer(blob: seq<Byte>) {
    && |blob| >= 64
    && var c := ContainerOf(blob);
       && (MagicIs(c, MAGIC) || MagicIs(c, MAGIC_FAT))
       && c.abi == PEF_ABI && 1 <= c.count <= MAX_SECTIONS && 64 + 304 * c.count <= |blob|
  }

  /// pef_magic_eq
  method MagicEq(magic: seq<Byte>, want: seq<Byte>) returns (r: bool)
    requires |magic| == 5 && |want| == 4
    ensures r <==> magic[..4] == want
  {
    for i := 0 to 4
      invariant magic[..i] == want[..i]
    {
      if magic[i] != want[i] {
        assert magic[..4][i] != want[i];
        return false;
      }
    }
    assert want[..4] == want;
    return true;
  }

  /// pef_read_container: the header count never enters a product before it is known to be small.
  method ReadContainer(blob: seq<Byte>) returns (r: Option<Container>)
    requires |blob| < TWO_TO_THE_64
    ensures r == if ValidContainer(blob) then Some(ContainerOf(blob)) else None
  {
    var len: U64 := |blob|;
    if len < 64 {
      return None;
    }
    var out := ContainerOf(blob);
    var thin := MagicEq(out.magic, MAGIC);
    var fat := MagicEq(out.magic, MAGIC_FAT);
    if !thin && !fat {
      return None;
    }
    if out.abi != PEF_ABI {
      return None;
    }
    if out.count < 1 || out.count > MAX_SECTIONS {
      return None;
    }
    if out.count > (len - 64) / 304 {
      return None;
    }
    return Some(out);
  }

  // ---- finding a section -----------------------------------------------------------------

  predicate Matches(h: Header, name: seq<Byte>, kind: int) {
    h.kind == kind && Str(h.name) == name && |name| < 256
  }

  /// The section can be placed: its content lies in the blob after the header table, and its
  /// virtual range in the image window. The sums are those of the unbounded integers.
  predicate Fits(h: Header, count: nat, len: nat) {
    && 1 <= h.vmSize
    && WINDOW_START <= h.vmAddress && h.vmAddress + h.vmSize <= WINDOW_END
    && h.offsetSize <= h.vmSize
    && (h.offsetSize > 0 ==> 64 + 304 * count <= h.offset && h.offset + h.offsetSize <= len)
  }

  predicate Accepts(blob: seq<Byte>, h: Header)
    requires ValidContainer(blob)
  {
    var c := ContainerOf(blob);
    (h.cpu == ARCH_AMD64 || MagicIs(c, MAGIC_FAT)) && Fits(h, c.count, |blob|)
  }

  /// Header i is the first one of that kind and name.
  ghost predicate FirstMatch(blob: seq<Byte>, name: seq<Byte>, kind: int, i: nat)
    requires ValidContainer(blob)
  {
    && i < ContainerOf(blob).count && Matches(HeaderAt(blob, i), name, kind)
    && forall j: nat | j < i :: !Matches(HeaderAt(blob, j), name, kind)
  }

  /// The answer of pef_find_section: the first header of that kind and name, if it is acceptable.
  /// A later header of the same name is never looked at.
  ghost predicate Finds(blob: seq<Byte>, name: seq<Byte>, kind: int, h: Header) {
    ValidContainer(blob) && exists i :: FirstMatch(blob, name, kind, i) && h == HeaderAt(blob, i) && Accepts(blob, h)
  }

  /// The bounds tests of pef_find_section. Every difference is taken after the comparison that
  /// keeps it from wrapping.
  method CheckBounds(h: Header, count: nat, len: U64) returns (ok: bool)
    requires h.offset < TWO_TO_THE_64 && h.offsetSize < TWO_TO_THE_64 && h.vmAddress < TWO_TO_THE_64
             && h.vmSize < TWO_TO_THE_64
    requires count <= MAX_SECTIONS
    ensures ok <==> Fits(h, count, len)
  {
    var tableSize: U64 := count * 304;
    if h.vmSize < 1 || h.vmSize > WINDOW_SIZE {
      return false;
    }
    if h.vmAddress < WINDOW_START {
      return false;
    }
    var into: U64, room: U64 := h.vmAddress - WINDOW_START, WINDOW_SIZE - h.vmSize;
    if into > room {
      return false;
    }
    if h.offsetSize > h.vmSize {
      return false;
    }
    if h.offsetSize > 0 {
      if h.offset > len {
        return false;
      }
      var left: U64 := len - h.offset;
      if h.offsetSize > left {
        return false;
      }
      var tableEnd: U64 := 64 + tableSize;
      if h.offset < tableEnd {
        return false;
      }
    }
    return true;
  }

  // The first match decides.
  lemma OnlyFirst(blob: seq<Byte>, name: seq<Byte>, kind: int, i: nat)
    requires ValidContainer(blob) && FirstMatch(blob, name, kind, i)
    ensures forall h :: Finds(blob, name, kind, h) <==> h == HeaderAt(blob, i) && Accepts(blob, h)
  {
    forall k: nat | FirstMatch(blob, name, kind, k)
      ensures k == i
    {
      assert !(k < i) && !(i < k);
    }
  }

  /// The two tests that skip a header.
  method IsMatch(h: Header, name: seq<Byte>, kind: int) returns (r: bool)
    requires |h.name| == 256 && 0 in name
    ensures r == Matches(h, Str(name), kind)
  {
    if h.kind != kind {
      return false;
    }
    r := NameEq(h.name, name);
  }

  /// The tests made on the header that matches.
  method CheckMatch(blob: seq<Byte>, i: nat, fat: bool) returns (ok: bool)
    requires |blob| < TWO_TO_THE_64 && ValidContainer(blob) && i < ContainerOf(blob).count
    requires fat == MagicIs(ContainerOf(blob), MAGIC_FAT)
    ensures ok == Accepts(blob, HeaderAt(blob, i))
  {
    var h := HeaderAt(blob, i);
    if h.cpu != ARCH_AMD64 && !fat {
      return false;
    }
    FieldsFit(blob, i);
    ok := CheckBounds(h, ContainerOf(blob).count, |blob|);
  }

  /// pef_find_section
  method FindSection(blob: seq<Byte>, name: seq<Byte>, kind: int) returns (r: Option<Header>)
    requires |blob| < TWO_TO_THE_64 && 0 in name
    ensures r.Some? ==> Finds(blob, Str(name), kind, r.value)
    ensures r.None? ==> forall h :: !Finds(blob, Str(name), kind, h)
  {
    hide HeaderAt, Matches, Accepts, Str;
    var c := ReadContainer(blob);
    if c.None? {
      return None;
    }
    var fat := MagicEq(c.value.magic, MAGIC_FAT);
    for i := 0 to c.value.count
      invariant forall j: nat | j < i :: !Matches(HeaderAt(blob, j), Str(name), kind)
    {
      var out := HeaderAt(blob, i);
      var same := IsMatch(out, name, kind);
      if same {
        OnlyFirst(blob, Str(name), kind, i);
        var ok := CheckMatch(blob, i, fat);
        return if ok then Some(out) else None;
      }
    }
    return None;
  }

  // ---- loading what was found ------------------------------------------------------------

  /// The bytes of the section in the file.
  function ContentOf(blob: seq<Byte>, h: Header): (bs: seq<Byte>)
    requires h.offset + h.offsetSize <= |blob|
    ensures |bs| == h.offsetSize
  {
    blob[h.offset..h.offset + h.offsetSize]
  }

  /// Every byte of the section lies on the pages that are counted for it, as it always does when the
  /// section is page aligned.
  predicate Roomy(h: Header) { h.vmAddress % 4096 + h.vmSize <= 4096 * PageCount(h.vmSize) }

  /// An accepted section with room stays inside the image window, so when no frame lies there it is
  /// loaded faithfully exactly when the frames suffice, and the frames stay at home either way.
  lemma AcceptedLoads(blob: seq<Byte>, h: Header, count: nat, s: Space, root: nat)
    requires Fits(h, count, |blob|) && h.offsetSize > 0 && Roomy(h) && Sound(s, root)
    requires ClearFrames(s.store.pmm)
    ensures var (s', r) := LoadSection(s, root, h.vmAddress, h.vmSize, ContentOf(blob, h));
            var n := PageCount(h.vmSize);
            && (forall v | v in PagesFrom(h.vmAddress, n) :: WindowPage(v))
            && (if FramesSuffice(s, h.vmAddress, n) then
                  r == Image(h.vmAddress) && LoadedAs(s, s', root, h.vmAddress, n, Padded(ContentOf(blob, h), h.vmSize))
                else r == OutOfMemory && Undone(s, s', root, h.vmAddress, n, Affordable(s, h.vmAddress, n)))
            && (FramesHome(s, root) ==> FramesHome(s', root))
  {
    var n := PageCount(h.vmSize);
    WindowPages(h.vmAddress, h.vmSize, n);
    WindowMisses(s.store.pmm, PagesFrom(h.vmAddress, n));
    LoadSectionOk(s, root, h.vmAddress, h.vmSize, ContentOf(blob, h));
  }

  lemma WindowPages(address: nat, size: nat, n: nat)
    requires WINDOW_START <= address && address + size <= WINDOW_END && n == PageCount(size) && size > 0
    requires address % 4096 + size <= 4096 * n
    ensures address / 4096 + n <= 0x4_4000 && address / 4096 >= 0x4_0000
  {
    var last := address + size - 1;
    assert last / 4096 < 0x4_4000;
  }

  /// The section of a symbol: its name is built from the kind and the symbol's own name.
  ghost predicate Located(blob: seq<Byte>, name: seq<Byte>, kind: int, h: Header) {
    KindPrefix(kind).Some? && 7 + |name| < 256 && Finds(blob, SectionName(kind, name), kind, h)
  }

  lemma LocatedOnce(blob: seq<Byte>, name: seq<Byte>, kind: int, h: Header, h': Header)
    requires Located(blob, name, kind, h) && Located(blob, name, kind, h')
    ensures h == h'
  {
    var n := SectionName(kind, name);
    var i :| FirstMatch(blob, n, kind, i) && h == HeaderAt(blob, i);
    OnlyFirst(blob, n, kind, i);
  }

  /// The name and the search of FindSymbol.
  method Locate(blob: seq<Byte>, name: seq<Byte>, kind: int) returns (r: Option<Header>)
    requires |blob| < TWO_TO_THE_64 && 0 in name
    ensures r.Some? ==> Located(blob, Str(name), kind, r.value)
    ensures r.None? ==> forall h :: !Located(blob, Str(name), kind, h)
  {
    var sectName := new Byte[256](_ => 0);
    var ok := MakeName(sectName, kind, name);
    if !ok {
      return None;
    }
    r := FindSection(blob, sectName[..], kind);
  }

  /// What FindSymbol does with a usable container: the section of the symbol is loaded; one without
  /// content is found but never loaded, as it is passed on as a null source.
  ghost predicate Answers(blob: seq<Byte>, name: seq<Byte>, kind: int, root: nat, s: Space, s': Space, r: LoadResult) {
    || (r == InvalidData && s' == s && forall h :: Located(blob, name, kind, h) ==> h.offsetSize == 0)
    || exists h :: Located(blob, name, kind, h) && h.offsetSize > 0 && h.offset + h.offsetSize <= |blob|
                   && s' == LoadSection(s, root, h.vmAddress, h.vmSize, ContentOf(blob, h)).0
                   && r == LoadSection(s, root, h.vmAddress, h.vmSize, ContentOf(blob, h)).1
  }

  class PEFLoader {
    var fCachedBlob: Option<seq<Byte>>
    var fFatBinary: bool
    var fBad: bool

    /// The loader for a container in memory; None is a null pointer.
    constructor (blob: Option<seq<Byte>>)
      requires blob.Some? ==> |blob.value| >= 64
      ensures fBad <==> blob.None? || !Usable(blob.value)
      ensures fCachedBlob == if fBad then None else blob
      ensures fFatBinary <==> !fBad && MagicIs(ContainerOf(blob.value), MAGIC_FAT)
    {
      fCachedBlob, fFatBinary, fBad := blob, false, false;
      new;
      if blob.None? {
        fBad := true;
        return;
      }
      var container := ContainerOf(blob.value);
      if container.abi == PEF_ABI && container.count >= 3 {
        if container.cpu == ARCH_AMD64 && container.magic == MAGIC + [0] {
          return;
        } else if container.magic == MAGIC_FAT + [0] {
          fFatBinary := true;
          return;
        }
      }
      fBad, fCachedBlob := true, None;
    }

    /// PEFLoader::FindSymbol, when the section it finds has room at its address.
    method FindSymbol(mmu: Mmu, name: seq<Byte>, kind: int, ghost root: nat) returns (r: LoadResult)
      requires 0 in name && Running(mmu, root) && ClearFrames(mmu.View().store.pmm)
      requires fBad <==> fCachedBlob.None?
      requires !fBad ==> |fCachedBlob.value| < TWO_TO_THE_64
      requires !fBad ==> forall h :: Located(fCachedBlob.value, Str(name), kind, h) ==> Roomy(h)
      modifies mmu`pos, mmu`tlb, mmu.pmm, mmu.ram
      ensures Running(mmu, root)
      ensures fBad ==> r == InvalidData && mmu.View() == old(mmu.View())
      ensures !fBad ==> Answers(fCachedBlob.value, Str(name), kind, root, old(mmu.View()), mmu.View(), r)
    {
      if fBad {
        return InvalidData;
      }
      var blob := fCachedBlob.value;
      var hdr := Locate(blob, name, kind);
      if hdr.None? {
        return InvalidData;
      }
      r := LoadLocated(mmu, blob, Str(name), kind, hdr.value, root);
    }
  }

  /// The last lines of FindSymbol.
  method LoadLocated(mmu: Mmu, blob: seq<Byte>, ghost name: seq<Byte>, ghost kind: int, h: Header, ghost root: nat)
    returns (r: LoadResult)
    requires Running(mmu, root) && ClearFrames(mmu.View().store.pmm)
    requires Located(blob, name, kind, h) && Roomy(h)
    modifies mmu`pos, mmu`tlb, mmu.pmm, mmu.ram
    ensures Running(mmu, root)
    ensures Answers(blob, name, kind, root, old(mmu.View()), mmu.View(), r)
  {
    hide Located;
    LocatedFits(blob, name, kind, h);
    WindowMisses(mmu.View().store.pmm, PagesFrom(h.vmAddress, PageCount(h.vmSize)));
    var src := if h.offsetSize > 0 then Some(ContentOf(blob, h)) else None;
    r := LoadPefSection(mmu, h.vmAddress, h.vmSize, src, root);
    forall h' | Located(blob, name, kind, h')
      ensures h' == h
    {
      LocatedOnce(blob, name, kind, h, h');
    }
  }

  lemma LocatedFits(blob: seq<Byte>, name: seq<Byte>, kind: int, h: Header)
    requires Located(blob, name, kind, h) && Roomy(h)
    ensures h.vmAddress < TWO_TO_THE_64 && (h.offsetSize > 0 ==> h.offset + h.offsetSize <= |blob|)
    ensures forall j | 0 <= j < PageCount(h.vmSize) :: WindowPage(PagesFrom(h.vmAddress, PageCount(h.vmSize))[j])
    ensures h.vmAddress / 0x1000 + PageCount(h.vmSize) <= PAGES
            && h.vmAddress % 0x1000 + h.vmSize <= 0x1000 * PageCount(h.vmSize)
  {
    WindowPages(h.vmAddress, h.vmSize, PageCount(h.vmSize));
  }

  // ---- a section that is accepted and never loaded ---------------------------------------

  /// A container with three headers, the first of them a code section named ".code64", one byte long
  /// and without content.
  function EmptySectionBlob(): (blob: seq<Byte>)
    ensures |blob| == 976
  {
    seq(976, (i: nat) => EmptySectionByte(i))
  }

  function EmptySectionByte(i: nat): Byte {
    match i
    case 0 => 79 case 1 => 112 case 2 => 101 case 3 => 110   // "Open"
    case 17 => 0x46 case 18 => 0x50                          // Abi
    case 21 => 1                                             // Cpu
    case 45 => 3                                             // Count
    case 64 => 46 case 65 => 99 case 66 => 111 case 67 => 100 case 68 => 101 case 69 => 54 case 70 => 52
    case 320 => 1                                            // Cpu
    case 332 => 0xC                                          // Kind
    case 353 => 0x40                                         // VMAddress
    case 358 => 1                                            // VMSize
    case _ => 0
  }

  lemma {:induction false} FromLow(bs: seq<Byte>, k: nat)
    requires k <= |bs| && forall i | k <= i < |bs| :: bs[i] == 0
    ensures FromBytes(bs) == FromBytes(bs[..k])
    decreases |bs|
  {
    if bs != [] {
      if k > 0 {
        assert bs[1..][..k - 1] == bs[..k][1..];
        FromLow(bs[1..], k - 1);
      } else {
        FromLow(bs[1..], 0);
        assert bs[..0] == [] && bs[1..][..0] == [];
      }
    }
  }

  // Eight bytes of the blob as a number below 2^32.
  lemma EightBytes(blob: seq<Byte>, at: nat, a: Byte, d: Byte)
    requires blob == EmptySectionBlob() && at + 8 <= |blob|
    requires EmptySectionByte(at) == a && EmptySectionByte(at + 1) == EmptySectionByte(at + 2) == 0
    requires EmptySectionByte(at + 3) == d && EmptySectionByte(at + 4) == EmptySectionByte(at + 5) == 0
    requires EmptySectionByte(at + 6) == EmptySectionByte(at + 7) == 0
    ensures Field(blob, at, 8) == a + 0x100_0000 * d
  {
    hide EmptySectionByte, FromBytes;
    var bs := blob[at..at + 8];
    assert bs[0] == blob[at] && bs[1] == blob[at + 1] && bs[2] == blob[at + 2] && bs[3] == blob[at + 3];
    assert bs[4] == blob[at + 4] && bs[5] == blob[at + 5] && bs[6] == blob[at + 6] && bs[7] == blob[at + 7];
    assert bs[..4] == [a, 0, 0, d];
    FromLow(bs, 4);
    FourBytes(a, 0, 0, d);
  }

  lemma FourBytes(a: Byte, b: Byte, c: Byte, d: Byte)
    ensures FromBytes([a, b, c, d]) == a + 0x100 * b + 0x1_0000 * c + 0x100_0000 * d
  {
    var b3: seq<Byte> := [d];
    var b2: seq<Byte> := [c, d];
    var b1: seq<Byte> := [b, c, d];
    var b0: seq<Byte> := [a, b, c, d];
    assert b0[1..] == b1 && b1[1..] == b2 && b2[1..] == b3 && b3[1..] == [];
    assert FromBytes(b3) == d && FromBytes(b2) == c + 256 * FromBytes(b3) && FromBytes(b1) == b + 256 * FromBytes(b2);
  }

  lemma EmptyContainer(blob: seq<Byte>)
    requires blob == EmptySectionBlob()
    ensures ContainerOf(blob) == Container([79, 112, 101, 110, 0], PEF_ABI, ARCH_AMD64, 3)
  {
    assert blob[..5] == [79, 112, 101, 110, 0];
    assert blob[17..21] == [0x46, 0x50, 0, 0] && blob[21..25] == [1, 0, 0, 0];
    hide FromBytes;
    FourBytes(0x46, 0x50, 0, 0);
    FourBytes(1, 0, 0, 0);
    EightBytes(blob, 45, 3, 0);
  }

  lemma EmptyHeaderSmall(blob: seq<Byte>)
    requires blob == EmptySectionBlob()
    ensures Field(blob, 320, 4) == ARCH_AMD64 && Field(blob, 332, 2) == KIND_CODE
  {
    assert blob[320..324] == [1, 0, 0, 0] && blob[332..334] == [0xC, 0];
    FourBytes(1, 0, 0, 0);
    assert [0xC, 0][1..] == [0] && [0][1..] == [];
    assert FromBytes([0xC, 0]) == 0xC + 256 * FromBytes([0]);
  }

  // The fields of the first header.
  lemma EmptyHeader(blob: seq<Byte>)
    requires blob == EmptySectionBlob()
    ensures HeaderAt(blob, 0) == Header(blob[64..320], ARCH_AMD64, KIND_CODE, 0, 0, WINDOW_START, 1)
  {
    EmptyHeaderSmall(blob);
    EightBytes(blob, 334, 0, 0);
    EightBytes(blob, 342, 0, 0);
    EightBytes(blob, 350, 0, 0x40);
    EightBytes(blob, 358, 1, 0);
  }

  lemma EmptyName(blob: seq<Byte>)
    requires blob == EmptySectionBlob()
    ensures Str(blob[64..320]) == SectionName(KIND_CODE, [])
  {
    var field, name := blob[64..320], SectionName(KIND_CODE, []);
    assert name == [46, 99, 111, 100, 101, 54, 52];
    assert blob[64] == 46 && blob[65] == 99 && blob[66] == 111 && blob[67] == 100;
    assert blob[68] == 101 && blob[69] == 54 && blob[70] == 52 && blob[71] == 0;
    hide EmptySectionByte, EmptySectionBlob;
    assert field[..7] == name && field[7] == 0;
    StrIs(field, 7);
  }

  // A container whose first header matches and fits.
  lemma FirstHeaderFound(blob: seq<Byte>, name: seq<Byte>, kind: int, c: Container, h: Header)
    requires |blob| >= 976 && c == ContainerOf(blob) && c.count == 3 && c.abi == PEF_ABI && MagicIs(c, MAGIC)
    requires h == HeaderAt(blob, 0) && Matches(h, name, kind) && h.cpu == ARCH_AMD64 && Fits(h, 3, |blob|)
    ensures Finds(blob, name, kind, h)
  {
    hide ContainerOf, HeaderAt, Matches, Fits;
    assert ValidContainer(blob);
    assert FirstMatch(blob, name, kind, 0);
  }

  /// The loader takes it, and finds the section of the empty symbol in it, which it never loads.
  lemma EmptySectionAccepted()
    ensures var blob := EmptySectionBlob();
            && Usable(blob)
            && exists h :: Located(blob, [], KIND_CODE, h) && h.offsetSize == 0 && h.vmAddress % 4096 == 0
  {
    hide EmptySectionBlob, EmptySectionByte, Str, ContainerOf, HeaderAt, Mangled, SectionName, Finds;
    var blob := EmptySectionBlob();
    EmptyContainer(blob);
    EmptyLocated(blob, [], KIND_CODE);
  }

  lemma EmptyLocated(blob: seq<Byte>, name: seq<Byte>, kind: int)
    requires blob == EmptySectionBlob() && name == [] && kind == KIND_CODE
    ensures exists h :: Located(blob, name, kind, h) && h.offsetSize == 0 && h.vmAddress % 4096 == 0
  {
    hide EmptySectionBlob, EmptySectionByte, Str, ContainerOf, HeaderAt, Mangled, SectionName, Finds;
    EmptyContainer(blob);
    EmptyHeader(blob);
    EmptyName(blob);
    NameLength(kind, name);
    var c, h := ContainerOf(blob), HeaderAt(blob, 0);
    assert c.magic[..4] == MAGIC;
    FirstHeaderFound(blob, SectionName(kind, name), kind, c, h);
    assert Located(blob, name, kind, h);
  }

  lemma NameLength(kind: int, name: seq<Byte>)
    requires KindPrefix(kind).Some?
    ensures |SectionName(kind, name)| == 7 + |name|
  {
  }
}
