/// Filling a backed image with bytes through its virtual addresses.

module Images {
  import opened PhysicalMemory
  import opened Frames
  import opened Translation
  import opened Paging
  import opened PageMapping
  import opened Runs
  import opened Bytes
  import opened Loading

  // ---- the pages of an image -------------------------------------------------------------

  /// `size / kPageSize + ((size % kPageSize) ? 1 : 0)`
  function PageCount(size: nat): nat {
    size / 4096 + (if size % 4096 != 0 then 1 else 0)
  }

  /// The pages the loaders map for an image of `n` pages at address base.
  function PagesFrom(base: nat, n: nat): (pages: seq<nat>)
    ensures |pages| == n
    ensures forall j | 0 <= j < n :: pages[j] == base / 4096 + j
  {
    seq(n, j => base / 4096 + j)
  }

  /// The least number of pages that hold so many bytes.
  lemma PagesLeast(size: nat, n: nat)
    ensures size <= 4096 * n <==> PageCount(size) <= n
  {
    assert size == 4096 * (size / 4096) + size % 4096;
  }

  lemma PagesDistinct(base: nat, n: nat)
    requires base / 4096 + n <= PAGES
    ensures Distinct(PagesFrom(base, n)) && forall u | u in PagesFrom(base, n) :: u < PAGES
  {
  }

  lemma StartMapping(s: Space, root: nat, base: nat, count: nat)
    requires Sound(s, root) && base / 4096 + count <= PAGES
    ensures Midway(s, s, root, PagesFrom(base, count), PagesFrom(base, 0), [], {}, PagesFrom(base, count))
  {
    var all := PagesFrom(base, count);
    PagesDistinct(base, count);
    StartEmpty(s, root);
    assert PagesFrom(base, 0) == [] && [] + all == all;
  }

  /// The byte at offset x of an image at address base lies on one of its mapped pages.
  predicate OnPage(base: nat, n: nat, x: nat) {
    (base + x) / 4096 in PagesFrom(base, n)
  }

  /// Every byte of the image lies on a mapped page exactly when the base leaves it enough room on
  /// its first page; a page-aligned base always does.
  lemma PagesCover(base: nat, size: nat)
    requires size > 0
    ensures (forall x: nat | x < size :: OnPage(base, PageCount(size), x))
            <==> base % 4096 + size <= 4096 * PageCount(size)
    ensures base % 4096 == 0 ==> base % 4096 + size <= 4096 * PageCount(size)
  {
    var pages := PagesFrom(base, PageCount(size));
    if base % 4096 + size <= 4096 * PageCount(size) {
      forall x: nat | x < size
        ensures OnPage(base, PageCount(size), x)
      {
        assert pages[(base + x) / 4096 - base / 4096] == (base + x) / 4096;
      }
    } else {
      assert (base + (size - 1)) / 4096 >= base / 4096 + PageCount(size);
      assert !OnPage(base, PageCount(size), size - 1);
    }
  }

  // ---- bytes of the backing frames -------------------------------------------------------

  /// Byte x counted from the start of the first page.
  function ViewByte(m: Memory, frames: seq<nat>, x: nat): Byte
    requires x < 4096 * |frames|
  {
    ByteAt(m, frames[x / 4096], x % 4096)
  }

  lemma ZeroView(m: Memory, frames: seq<nat>, x: nat)
    requires Zeroed(m, frames) && x < 4096 * |frames|
    ensures ViewByte(m, frames, x) == 0
  {
    var f := frames[x / 4096];
    assert f in frames;
    ZeroWordBytes(m, f, x % 4096);
  }

  lemma WriteView(m: Memory, frames: seq<nat>, x: nat, b: Byte, y: nat)
    requires Distinct(frames) && x < 4096 * |frames| && y < 4096 * |frames|
    ensures ViewByte(WriteByte(m, frames[x / 4096], x % 4096, b), frames, y)
            == if y == x then b else ViewByte(m, frames, y)
  {
    WriteByteReads(m, frames[x / 4096], x % 4096, b, frames[y / 4096], y % 4096);
    assert x == 4096 * (x / 4096) + x % 4096 && y == 4096 * (y / 4096) + y % 4096;
  }

  // ---- one store -------------------------------------------------------------------------

  // Changing words of the data frames keeps everything Partly says.
  lemma DataWriteKeeps(s0: Space, s: Space, m: Memory, root: nat, pages: seq<nat>, frames: seq<nat>, window: set<nat>)
    requires Partly(s0, s, root, pages, frames, window)
    requires forall g, i: nat :: g !in frames ==> Rd(m, g, i) == Rd(s.store.mem, g, i)
    ensures Partly(s0, s.(store := s.store.(mem := m)), root, pages, frames, window)
  {
    var s' := s.(store := s.store.(mem := m));
    assert SameTables(s.store.mem, m, s.pos);
    OutsideTables(s.store.mem, m, root, s.pos);
    DataWritePmm(s0, s, m, frames);
    OutsideKeepsSmall(s.store.mem, m, root, s.pos);
    WindowSame(s0.store.mem, s.store.mem, m, root, pages, frames, window, PAGES);
    DataWriteGrows(s0, s, s', frames);
  }

  lemma DataWritePmm(s0: Space, s: Space, m: Memory, frames: seq<nat>)
    requires PmmOk(s.store) && GrowsWith(s0, s, frames)
    requires forall g, i: nat :: g !in frames ==> Rd(m, g, i) == Rd(s.store.mem, g, i)
    ensures PmmOk(s.store.(mem := m)) && forall f :: Live(s.store.(mem := m), f) <==> Live(s.store, f)
  {
    forall f | f in s.store.list
      ensures Rd(m, f, 0) == Rd(s.store.mem, f, 0)
    {
      assert !Live(s.store, f);
    }
    MemoryKeepsPmm(s.store, m);
  }

  lemma DataWriteGrows(s0: Space, s: Space, s': Space, frames: seq<nat>)
    requires GrowsWith(s0, s, frames) && s'.pos == s.pos && s'.store == s.store.(mem := s'.store.mem)
    requires forall g, i: nat :: g !in frames ==> Rd(s'.store.mem, g, i) == Rd(s.store.mem, g, i)
    ensures GrowsWith(s0, s', frames)
  {
    assert forall f :: Live(s'.store, f) <==> Live(s.store, f);
  }

  /// Virtual address va is byte x counted from the start of the image's first page.
  predicate IsByte(base: nat, va: nat, x: nat) {
    va == base - base % 4096 + x
  }

  ghost predicate Backs(m: Memory, root: nat, pages: seq<nat>, frames: seq<nat>) {
    |pages| == |frames| && forall j | 0 <= j < |pages| :: Lookup(m, root, pages[j]) == Some(ImageMapping(frames[j]))
  }

  /// A load or store in the image goes to the frame that backs it.
  lemma AccessInImage(m: Memory, root: nat, base: nat, pages: seq<nat>, frames: seq<nat>, va: nat, x: nat, b: Byte)
    requires pages == PagesFrom(base, |frames|) && Backs(m, root, pages, frames)
    requires IsByte(base, va, x) && x < 4096 * |frames|
    ensures StoreByte(m, root, va, b) == WriteByte(m, frames[x / 4096], x % 4096, b)
    ensures LoadByte(m, root, va) == Some(ViewByte(m, frames, x))
  {
    assert va / 4096 == base / 4096 + x / 4096 && va % 4096 == x % 4096;
    assert pages[x / 4096] == va / 4096;
  }

  // ---- copying ---------------------------------------------------------------------------

  /// The address after p, or the index after it.
  function Next(p: nat): nat { p + 1 }

  /// rt_copy_memory_safe's loop, storing the bytes at virtual addresses va, va + 1, ...
  function CopyIn(m: Memory, root: nat, va: nat, data: seq<Byte>): Memory
    decreases |data|
  {
    if data == [] then m else CopyIn(StoreByte(m, root, va, data[0]), root, Next(va), data[1..])
  }

  /// What the image shows after data has been copied to offset y.
  ghost predicate Copied(m: Memory, m': Memory, frames: seq<nat>, y: nat, data: seq<Byte>)
    requires y + |data| <= 4096 * |frames|
  {
    && (forall x: nat | x < 4096 * |frames| ::
          ViewByte(m', frames, x) == if y <= x < y + |data| then data[x - y] else ViewByte(m, frames, x))
    && (forall g, i: nat :: g !in frames ==> Rd(m', g, i) == Rd(m, g, i))
  }

  lemma StoreStep(m: Memory, m': Memory, root: nat, pos: Shape, base: nat, pages: seq<nat>, frames: seq<nat>, va: nat,
                  x: nat, b: Byte)
    requires Tree(m, root, pos) && (forall f :: f in frames ==> f !in pos) && Distinct(frames)
    requires pages == PagesFrom(base, |frames|) && Backs(m, root, pages, frames)
    requires IsByte(base, va, x) && x < 4096 * |frames|
    requires m' == StoreByte(m, root, va, b)
    ensures Tree(m', root, pos) && Backs(m', root, pages, frames)
    ensures forall y: nat | y < 4096 * |frames| ::
              ViewByte(m', frames, y) == if y == x then b else ViewByte(m, frames, y)
    ensures forall g, i: nat :: g !in frames ==> Rd(m', g, i) == Rd(m, g, i)
  {
    AccessInImage(m, root, base, pages, frames, va, x, b);
    assert frames[x / 4096] in frames;
    OutsideTables(m, m', root, pos);
    forall y: nat | y < 4096 * |frames|
      ensures ViewByte(m', frames, y) == if y == x then b else ViewByte(m, frames, y)
    {
      WriteView(m, frames, x, b, y);
    }
  }

  /// Copying into a backed image puts the bytes where they belong and changes no other byte of
  /// the image and no other frame.
  lemma {:induction false} CopyInOk(m: Memory, root: nat, pos: Shape, base: nat, pages: seq<nat>, frames: seq<nat>,
                                    va: nat, x: nat, data: seq<Byte>)
    requires Tree(m, root, pos) && (forall f :: f in frames ==> f !in pos) && Distinct(frames)
    requires pages == PagesFrom(base, |frames|) && Backs(m, root, pages, frames)
    requires IsByte(base, va, x) && x + |data| <= 4096 * |frames|
    ensures Copied(m, CopyIn(m, root, va, data), frames, x, data)
    decreases |data|
  {
    if data == [] {
    } else {
      var m1 := StoreByte(m, root, va, data[0]);
      StoreStep(m, m1, root, pos, base, pages, frames, va, x, data[0]);
      CopyInOk(m1, root, pos, base, pages, frames, Next(va), Next(x), data[1..]);
      CopiedCons(m, m1, CopyIn(m1, root, Next(va), data[1..]), frames, x, data);
    }
  }

  lemma CopiedCons(m: Memory, m1: Memory, m': Memory, frames: seq<nat>, x: nat, data: seq<Byte>)
    requires data != [] && x + |data| <= 4096 * |frames|
    requires forall y: nat | y < 4096 * |frames| ::
               ViewByte(m1, frames, y) == if y == x then data[0] else ViewByte(m, frames, y)
    requires forall g, i: nat :: g !in frames ==> Rd(m1, g, i) == Rd(m, g, i)
    requires Copied(m1, m', frames, Next(x), data[1..])
    ensures Copied(m, m', frames, x, data)
  {
    forall y: nat | y < 4096 * |frames|
      ensures ViewByte(m', frames, y) == if x <= y < x + |data| then data[y - x] else ViewByte(m, frames, y)
    {
      ViewCons(m, m1, m', frames, x, data, y);
    }
  }

  lemma ViewCons(m: Memory, m1: Memory, m': Memory, frames: seq<nat>, x: nat, data: seq<Byte>, y: nat)
    requires data != [] && x + |data| <= 4096 * |frames| && y < 4096 * |frames|
    requires ViewByte(m1, frames, y) == if y == x then data[0] else ViewByte(m, frames, y)
    requires Copied(m1, m', frames, Next(x), data[1..])
    ensures ViewByte(m', frames, y) == if x <= y < x + |data| then data[y - x] else ViewByte(m, frames, y)
  {
    var rest := data[1..];
    var z := ViewByte(m', frames, y);
    assert z == if x + 1 <= y < x + 1 + |rest| then rest[y - (x + 1)] else ViewByte(m1, frames, y);
    if x < y < x + |data| {
      assert rest[y - (x + 1)] == data[y - x];
    }
  }

  function WithMem(s: Space, m: Memory): Space { s.(store := s.store.(mem := m)) }

  /// A copy into a partly loaded image keeps the whole space as it was, translations and tables
  /// included, apart from the image's own bytes.
  lemma CopyKeeps(s0: Space, s: Space, root: nat, base: nat, pages: seq<nat>, frames: seq<nat>, window: set<nat>,
                  va: nat, x: nat, data: seq<Byte>)
    requires Partly(s0, s, root, pages, frames, window) && pages == PagesFrom(base, |frames|)
    requires IsByte(base, va, x) && x + |data| <= 4096 * |frames|
    ensures var m' := CopyIn(s.store.mem, root, va, data);
            Partly(s0, WithMem(s, m'), root, pages, frames, window) && Copied(s.store.mem, m', frames, x, data)
  {
    PartlyBacks(s0, s, root, pages, frames, window);
    CopyInOk(s.store.mem, root, s.pos, base, pages, frames, va, x, data);
    DataWriteKeeps(s0, s, CopyIn(s.store.mem, root, va, data), root, pages, frames, window);
  }

  lemma PartlyBacks(s0: Space, s: Space, root: nat, pages: seq<nat>, frames: seq<nat>, window: set<nat>)
    requires Partly(s0, s, root, pages, frames, window)
    ensures Backs(s.store.mem, root, pages, frames)
  {
    forall j | 0 <= j < |pages|
      ensures Lookup(s.store.mem, root, pages[j]) == Some(ImageMapping(frames[j]))
    {
      assert PageIs(s.store.mem, root, pages[j], frames[j]);
    }
  }
}
