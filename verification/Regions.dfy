/// Where things lie in the address space: the image window, the allocator's frames, and the pages
/// through which the kernel reaches those frames.

module Regions {
  import opened Frames
  import opened PhysicalMemory
  import opened Translation
  import opened Paging
  import opened PageMapping
  import opened BootTables
  import opened Runs

  const WINDOW_START: nat := 0x4000_0000  // kPefBaseOrigin
  const WINDOW_SIZE: nat := 0x400_0000    // kPefMaxImageSz
  const WINDOW_END: nat := 0x4400_0000

  /// The pages of the image window.
  predicate WindowPage(v: nat) { 0x4_0000 <= v < 0x4_4000 }

  /// A frame the allocator has, or may yet, hand out.
  predicate InFrames(p: Pmm, f: nat) { p.base <= f < p.end }

  /// None of the pages has the address of one of the allocator's frames.
  predicate Misses(p: Pmm, pages: seq<nat>) {
    forall j | 0 <= j < |pages| :: !InFrames(p, pages[j])
  }

  /// No frame of the allocator lies in the image window.
  ghost predicate ClearFrames(p: Pmm) {
    forall f: nat :: InFrames(p, f) ==> !WindowPage(f)
  }

  /// Every page below the limit outside the image window is mapped to itself.
  ghost predicate Home(m: Memory, root: nat, limit: nat) {
    forall v: nat :: v < limit && v < PAGES && !WindowPage(v) ==> Lookup(m, root, v) == Some(IdentityMapping(v))
  }

  /// Every frame of the allocator, handed out already or not, is mapped to itself, writable: the
  /// kernel reads and writes tables, links and fresh frames at their physical addresses.
  ghost predicate FramesHome(s: Space, root: nat) {
    s.store.pmm.end <= PAGES
    && forall f: nat :: InFrames(s.store.pmm, f) ==> Lookup(s.store.mem, root, f) == Some(IdentityMapping(f))
  }

  /// The allocator's region lies below the limit, outside the image window.
  predicate RegionHome(p: Pmm, limit: nat) {
    p.end <= limit && (p.end <= 0x4_0000 || 0x4_4000 <= p.base || p.end <= p.base)
  }

  lemma HomeCoversFrames(s: Space, root: nat, limit: nat)
    requires Home(s.store.mem, root, limit) && RegionHome(s.store.pmm, limit) && limit <= PAGES
    ensures FramesHome(s, root) && ClearFrames(s.store.pmm)
  {
  }

  /// Pages in the window miss the frames when no frame lies there.
  lemma WindowMisses(p: Pmm, pages: seq<nat>)
    requires ClearFrames(p) && forall j | 0 <= j < |pages| :: WindowPage(pages[j])
    ensures Misses(p, pages)
  {
  }

  /// Changing the translation of other pages leaves the frames at home.
  lemma ElsewhereKeepsFrames(s: Space, s': Space, root: nat, touched: set<nat>)
    requires FramesHome(s, root)
    requires s'.store.pmm.base == s.store.pmm.base && s'.store.pmm.end == s.store.pmm.end
    requires forall u: nat ::
               u < PAGES && u !in touched ==> Lookup(s'.store.mem, root, u) == Lookup(s.store.mem, root, u)
    requires forall u :: u in touched ==> !InFrames(s.store.pmm, u)
    ensures FramesHome(s', root)
  {
  }

  // ---- runs ------------------------------------------------------------------------------

  /// The pages whose mapping an operation may change.
  function Touched(op: Op): set<nat> {
    match op
    case MapPage(v, _, _) => {v}
    case UnmapPage(v) => {v}
    case _ => {}
  }

  /// The operations leave the mapping of the allocator's frames alone.
  ghost predicate Spares(p: Pmm, ops: seq<Op>) {
    forall op, v :: op in ops && v in Touched(op) ==> !InFrames(p, v)
  }

  lemma StepTouches(c: Machine, root: nat, op: Op)
    requires Good(c, root) && Allowed(c, root, op)
    ensures forall u: nat :: u < PAGES && u !in Touched(op) ==>
              Lookup(Step(c, root, op).space.store.mem, root, u) == Lookup(c.space.store.mem, root, u)
  {
    match op
    case MapPage(v, phys, flags) =>
      if phys != 0 {
        MapOk(c.space, root, v, phys, flags);
      }
    case UnmapPage(v) => UnmapOk(c.space, root, v);
    case TakeFrame => TakeOk(c.space, root);
    case GiveFrame(f) => GiveOk(c.space, root, f);
    case StoreWord(f, i, w) => PutOk(c.space, root, f, i, w);
    case CacheFill(e) =>
    case CacheDrop(e) =>
  }

  /// A run changes no translation but those of the pages its operations name.
  lemma {:induction false} RunTouches(c: Machine, root: nat, ops: seq<Op>, c': Machine, u: nat)
    requires Good(c, root) && Reaches(c, root, ops, c') && u < PAGES && forall op :: op in ops ==> u !in Touched(op)
    ensures Lookup(c'.space.store.mem, root, u) == Lookup(c.space.store.mem, root, u)
    decreases |ops|
  {
    if ops != [] {
      var c1 := Step(c, root, ops[0]);
      StepKeepsGood(c, root, ops[0]);
      StepTouches(c, root, ops[0]);
      assert ops[0] in ops && forall op :: op in ops[1..] ==> op in ops;
      RunTouches(c1, root, ops[1..], c', u);
    }
  }

  /// However frames come and go and whatever is mapped elsewhere, every frame of the allocator, from
  /// the first to the last of its region, stays mapped to itself.
  lemma FramesStayHome(c: Machine, root: nat, ops: seq<Op>, c': Machine)
    requires Good(c, root) && Reaches(c, root, ops, c') && Spares(c.space.store.pmm, ops)
    requires FramesHome(c.space, root)
    ensures FramesHome(c'.space, root)
  {
    RunsStayGood(c, root, ops, c');
    forall f: nat | InFrames(c.space.store.pmm, f)
      ensures Lookup(c'.space.store.mem, root, f) == Some(IdentityMapping(f))
    {
      RunTouches(c, root, ops, c', f);
    }
  }

  /// Runs that name pages of the image window only keep the whole identity map outside of it.
  lemma WindowRunsKeepHome(c: Machine, root: nat, ops: seq<Op>, c': Machine, limit: nat)
    requires Good(c, root) && Reaches(c, root, ops, c') && Home(c.space.store.mem, root, limit)
    requires forall op, v :: op in ops && v in Touched(op) ==> WindowPage(v)
    ensures Home(c'.space.store.mem, root, limit)
  {
    forall v: nat | v < limit && v < PAGES && !WindowPage(v)
      ensures Lookup(c'.space.store.mem, root, v) == Some(IdentityMapping(v))
    {
      RunTouches(c, root, ops, c', v);
    }
  }
}
