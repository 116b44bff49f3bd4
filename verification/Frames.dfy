/// The physical frame allocator (HALKit/Generic/HalPhysicalMemory.cpp).

module Frames {
  import opened Bits
  import opened Words
  import opened PhysicalMemory

  /// The allocator's static variables, addresses counted in frames.
  datatype Pmm = Pmm(base: nat, cursor: nat, end: nat, head: nat, free: nat, used: nat)

  /// Memory, allocator state and the frames on the free list, head first.
  datatype Store = Store(mem: Memory, pmm: Pmm, list: seq<nat>)

  const PRISTINE: Pmm := Pmm(0, 0, 0, 0, 0, 0)

  /// The word that links a freed frame to the next one.
  function LinkWord(next: nat): Word { ZERO_WORD.(frame := next % 0x100_0000_0000) }

  function NextFree(list: seq<nat>, k: nat): nat
  {
    if k < |list| then list[k] else 0
  }

  /// Element k of the list holds the address of element k + 1.
  predicate Link(m: Memory, list: seq<nat>, k: nat)
    requires k < |list|
  {
    Rd(m, list[k], 0) == LinkWord(NextFree(list, k + 1))
  }

  ghost predicate Linked(m: Memory, list: seq<nat>) {
    forall k: nat | k < |list| :: Link(m, list, k)
  }

  lemma LinkTail(m: Memory, x: nat, rest: seq<nat>, k: nat)
    requires k < |rest|
    ensures Link(m, [x] + rest, k + 1) <==> Link(m, rest, k)
  {
    var list := [x] + rest;
    assert list[k + 1] == rest[k];
    assert NextFree(list, k + 2) == NextFree(rest, k + 1);
  }

  predicate Distinct(s: seq<nat>) {
    forall j, k | 0 <= j < k < |s| :: s[j] != s[k]
  }

  predicate InRegion(p: Pmm, f: nat) { p.base <= f < p.cursor }

  /// Frame f is handed out.
  predicate Live(s: Store, f: nat) {
    InRegion(s.pmm, f) && f !in s.list
  }

  /// The allocator's invariant. Live and listed frames partition [base, cursor), the list is the
  /// chain threaded through the freed frames, and the counters agree with both.
  ghost predicate PmmOk(s: Store) {
    && s.pmm.base <= s.pmm.cursor <= s.pmm.end <= FRAMES
    && (s.pmm.base == 0 ==> s.pmm.cursor == 0)
    && Distinct(s.list)
    && (forall f | f in s.list :: InRegion(s.pmm, f))
    && s.pmm.head == NextFree(s.list, 0)
    && Linked(s.mem, s.list)
    && s.pmm.free == s.pmm.end - s.pmm.cursor + |s.list|
    && s.pmm.used == s.pmm.cursor - s.pmm.base - |s.list|
  }

  // ---- pmmi_init -------------------------------------------------------------------------

  /// The whole frames inside [base, base + sz): the first one and the one past the last.
  function RegionStart(base: nat): nat { (base + 4095) / 4096 }
  function RegionEnd(base: nat, sz: nat): nat { (base + sz) / 4096 }

  function Init(p: Pmm, base: nat, sz: nat): Pmm {
    var start, end := RegionStart(base), RegionEnd(base, sz);
    if end <= start then p.(cursor := 0, end := 0)
    else Pmm(start, start, end, 0, end - start, 0)
  }

  lemma InitOk(m: Memory, base: nat, sz: nat)
    requires base + sz <= 4096 * FRAMES
    ensures PmmOk(Store(m, Init(PRISTINE, base, sz), []))
    ensures var p := Init(PRISTINE, base, sz);
            && (forall f: nat :: p.base <= f < p.end <==> base <= 4096 * f && 4096 * f + 4096 <= base + sz)
            && p.free == p.end - p.base && p.used == 0 && p.cursor == p.base
  {
    var p, start, end := Init(PRISTINE, base, sz), RegionStart(base), RegionEnd(base, sz);
    forall f: nat
      ensures p.base <= f < p.end <==> base <= 4096 * f && 4096 * f + 4096 <= base + sz
    {
      WholeFrame(base, sz, f);
    }
  }

  // A frame lies inside the region.
  lemma WholeFrame(base: nat, sz: nat, f: nat)
    ensures RegionStart(base) <= f < RegionEnd(base, sz) <==> base <= 4096 * f && 4096 * f + 4096 <= base + sz
  {
    assert f < (base + sz) / 4096 <==> 4096 * (f + 1) <= base + sz;
  }

  // ---- pmmi_alloc_frame ------------------------------------------------------------------

  /// The new state and the frame, 0 when out of memory.
  function Alloc(s: Store): (Store, nat) {
    if s.pmm.head != 0 then
      var f := s.pmm.head;
      var p := s.pmm.(head := Rd(s.mem, f, 0).frame);
      (Store(ZeroFrame(s.mem, f), Taken(p), if s.list == [] then [] else s.list[1..]), f)
    else if 0 < s.pmm.cursor < s.pmm.end then
      var f := s.pmm.cursor;
      (Store(ZeroFrame(s.mem, f), Taken(s.pmm.(cursor := f + 1)), s.list), f)
    else
      (s, 0)
  }

  function Taken(p: Pmm): Pmm {
    p.(free := if p.free == 0 then TWO_TO_THE_64 - 1 else p.free - 1, used := p.used + 1)
  }

  /// Frame f, free before, is handed out zeroed; no other frame changes hands or content.
  ghost predicate HandsOut(s: Store, s': Store, f: nat) {
    && !Live(s, f) && Live(s', f)
    && (forall g :: g != f ==> (Live(s', g) <==> Live(s, g)))
    && (forall i: nat | i < 512 :: Rd(s'.mem, f, i) == ZERO_WORD)
    && SameExcept(s.mem, s'.mem, f)
    && s'.pmm.used == s.pmm.used + 1 && s'.pmm.free == s.pmm.free - 1
    && s'.pmm.base == s.pmm.base && s'.pmm.end == s.pmm.end
    && s.pmm.base <= f < s.pmm.end
  }

  /// Allocation keeps the invariant and hands out a zeroed frame that nobody held.
  lemma AllocOk(s: Store)
    requires PmmOk(s)
    ensures var (s', f) := Alloc(s);
            && PmmOk(s')
            && (if f == 0 then s' == s else HandsOut(s, s', f))
  {
    var (s', f) := Alloc(s);
    if f != 0 {
      ZeroedReads(s.mem, f);
      if s.pmm.head != 0 {
        AllocFromList(s);
      } else {
        LinkedSame(s.mem, s'.mem, s.list);
      }
    }
  }

  // The chain only depends on the first words of the frames in it.
  lemma LinkedSame(m: Memory, m': Memory, list: seq<nat>)
    requires Linked(m, list) && forall f | f in list :: Rd(m', f, 0) == Rd(m, f, 0)
    ensures Linked(m', list)
  {
    forall k: nat | k < |list|
      ensures Link(m', list, k)
    {
      assert Link(m, list, k);
    }
  }

  lemma LinkedTail(m: Memory, x: nat, rest: seq<nat>)
    requires Linked(m, [x] + rest)
    ensures Linked(m, rest) && Rd(m, x, 0) == LinkWord(NextFree(rest, 0))
  {
    assert Link(m, [x] + rest, 0);
    forall k: nat | k < |rest|
      ensures Link(m, rest, k)
    {
      assert Link(m, [x] + rest, k + 1);
      LinkTail(m, x, rest, k);
    }
  }

  lemma ZeroedReads(m: Memory, f: nat)
    ensures forall g: nat, i: nat :: Rd(ZeroFrame(m, f), g, i) == if g == f && i < 512 then ZERO_WORD else Rd(m, g, i)
  {
    forall g: nat, i: nat
      ensures Rd(ZeroFrame(m, f), g, i) == if g == f && i < 512 then ZERO_WORD else Rd(m, g, i)
    {
      ZeroFrameReads(m, f, g, i);
    }
  }

  lemma AllocFromList(s: Store)
    requires PmmOk(s) && s.pmm.head != 0
    ensures var (s', f) := Alloc(s); PmmOk(s') && HandsOut(s, s', f)
  {
    hide Rd, Linked;
    var (s', f) := Alloc(s);
    HeadLinked(s);
    ZeroedReads(s.mem, f);
    assert s.list == [f] + s'.list;
    FirstApart(s.list);
    hide Distinct;
    LinkedTail(s.mem, f, s'.list);
    LinkedSame(s.mem, s'.mem, s'.list);
    if s'.list != [] {
      assert s'.list[0] in s'.list;
    }
  }

  lemma HeadLinked(s: Store)
    requires PmmOk(s) && s.pmm.head != 0
    ensures s.list != [] && s.list[0] == s.pmm.head && s.list[0] in s.list
  {
  }

  /// A frame comes back exactly when the counter says one is left, unless the region starts at
  /// address 0: then nothing is ever handed out, whatever the counter says.
  lemma AllocSucceeds(s: Store)
    requires PmmOk(s)
    ensures Alloc(s).1 != 0 <==> s.pmm.free > 0 && s.pmm.cursor > 0
  {
    if |s.list| > 0 {
      assert s.list[0] in s.list;
    }
  }

  /// Two free frames that are never handed out. At boot this cannot happen: the frames start above the
  /// heap, which takes the lower half of the region.
  lemma NothingFromZero(m: Memory)
    ensures var s := Store(m, Init(PRISTINE, 0, 8192), []);
            PmmOk(s) && s.pmm.free == 2 && Alloc(s) == (s, 0)
  {
    var s := Store(m, Init(PRISTINE, 0, 8192), []);
    assert RegionStart(0) == 0 && RegionEnd(0, 8192) == 2;
    assert s.pmm == Pmm(0, 0, 2, 0, 2, 0);
  }

  // ---- pmmi_free_frame -------------------------------------------------------------------

  function Free(s: Store, f: nat): Store {
    if f == 0 || !InRegion(s.pmm, f) then s
    else
      Store(Wr(s.mem, f, 0, LinkWord(s.pmm.head)), Returned(s.pmm, f), [f] + s.list)
  }

  function Returned(p: Pmm, f: nat): Pmm {
    p.(head := f, free := p.free + 1, used := if p.used == 0 then TWO_TO_THE_64 - 1 else p.used - 1)
  }

  /// Frame f is taken back; no other frame changes hands or content.
  ghost predicate TakesBack(s: Store, s': Store, f: nat) {
    && !Live(s', f)
    && (forall g :: g != f ==> (Live(s', g) <==> Live(s, g)))
    && SameExcept(s.mem, s'.mem, f)
    && s'.pmm.used == s.pmm.used - 1 && s'.pmm.free == s.pmm.free + 1
    && s'.pmm.base == s.pmm.base && s'.pmm.end == s.pmm.end && s'.pmm.cursor == s.pmm.cursor
  }

  lemma HeadInRegion(s: Store)
    requires PmmOk(s)
    ensures s.pmm.head < FRAMES
  {
    if s.list != [] {
      assert s.list[0] in s.list;
    }
  }

  /// Freeing a live frame keeps the invariant and takes back exactly that frame.
  lemma FreeOk(s: Store, f: nat)
    requires PmmOk(s) && Live(s, f)
    ensures PmmOk(Free(s, f)) && TakesBack(s, Free(s, f), f)
  {
    HeadInRegion(s);
    var s' := Free(s, f);
    FewerThanRange(s.list, s.pmm.base, s.pmm.cursor, f);
    forall k: nat | k < |s'.list|
      ensures Link(s'.mem, s'.list, k)
    {
      if k > 0 {
        assert s.list[k - 1] in s.list;
        assert Link(s.mem, s.list, k - 1);
        LinkTail(s'.mem, f, s.list, k - 1);
      }
    }
  }

  /// A frame given back is the next one handed out.
  lemma FreeThenAlloc(s: Store, f: nat)
    requires PmmOk(s) && Live(s, f)
    ensures Alloc(Free(s, f)).1 == f
    ensures Alloc(Free(s, f)).0.pmm == s.pmm && Alloc(Free(s, f)).0.list == s.list
  {
    HeadInRegion(s);
    FewerThanRange(s.list, s.pmm.base, s.pmm.cursor, f);
  }

  // Distinct frames of a range that miss one of its members are fewer than its length.
  lemma FewerThanRange(list: seq<nat>, lo: nat, hi: nat, f: nat)
    requires Distinct(list) && lo <= f < hi && f !in list
    requires forall g | g in list :: lo <= g < hi
    ensures |list| < hi - lo
  {
    SubsetSize(Elements(list) + {f}, Range(lo, hi));
  }

  ghost function Range(lo: nat, hi: nat): (r: set<nat>)
    requires lo <= hi
    ensures forall g :: g in r <==> lo <= g < hi
    ensures |r| == hi - lo
    decreases hi - lo
  {
    if lo == hi then {} else {lo} + Range(lo + 1, hi)
  }

  ghost function Elements(list: seq<nat>): (r: set<nat>)
    ensures forall g :: g in r <==> g in list
    ensures Distinct(list) ==> |r| == |list|
  {
    if list == [] then {}
    else
      FirstApart(list);
      {list[0]} + Elements(list[1..])
  }

  lemma FirstApart(list: seq<nat>)
    requires list != []
    ensures forall g :: g in list <==> g == list[0] || g in list[1..]
    ensures Distinct(list) ==> list[0] !in list[1..] && Distinct(list[1..])
  {
    assert list == [list[0]] + list[1..];
  }

  lemma {:induction false} SubsetSize(a: set<nat>, b: set<nat>)
    requires a <= b
    ensures |a| <= |b|
  {
    if a != {} {
      var x :| x in a;
      SubsetSize(a - {x}, b - {x});
    }
  }
}
