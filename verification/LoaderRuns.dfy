/// The loaders as runs of the memory manager: each load is a sequence of its operations, and names no
/// page outside its image.

module LoaderRuns {
  import opened Words
  import opened PhysicalMemory
  import opened Frames
  import opened Translation
  import opened Paging
  import opened PageMapping
  import opened Runs
  import opened Bytes
  import opened Loading
  import opened Images
  import opened Overlays
  import opened Loaders
  import opened PeImages
  import opened Regions

  /// The operations change the mapping of these pages only.
  ghost predicate OnlyPages(ops: seq<Op>, pages: seq<nat>) {
    forall op, v :: op in ops && v in Touched(op) ==> v in pages
  }

  /// A run of operations that stay on the pages leads from c to c'.
  ghost predicate Leads(c: Machine, root: nat, ops: seq<Op>, c': Machine, pages: seq<nat>) {
    Reaches(c, root, ops, c') && Good(c', root) && OnlyPages(ops, pages)
  }

  lemma NoOps(c: Machine, root: nat, pages: seq<nat>)
    requires Good(c, root)
    ensures Leads(c, root, [], c, pages)
  {
  }

  lemma OneOp(c: Machine, root: nat, op: Op, pages: seq<nat>)
    requires Good(c, root) && Allowed(c, root, op) && forall v :: v in Touched(op) ==> v in pages
    ensures Leads(c, root, [op], Step(c, root, op), pages)
  {
    StepKeepsGood(c, root, op);
    assert [op][1..] == [];
  }

  lemma Joined(c: Machine, root: nat, ops: seq<Op>, c1: Machine, more: seq<Op>, c': Machine, pages: seq<nat>)
    requires Leads(c, root, ops, c1, pages) && Leads(c1, root, more, c', pages)
    ensures Leads(c, root, ops + more, c', pages)
  {
    ReachesJoined(c, root, ops, c1, more, c');
  }

  /// When its pages miss the allocator's frames, a load spares them.
  lemma MissesSpares(p: Pmm, ops: seq<Op>, pages: seq<nat>)
    requires OnlyPages(ops, pages) && Misses(p, pages)
    ensures Spares(p, ops)
  {
    forall op, v | op in ops && v in Touched(op)
      ensures !InFrames(p, v)
    {
      assert v in pages;
    }
  }

  // ---- one page --------------------------------------------------------------------------

  lemma BackRun(c: Machine, root: nat, v: nat, pages: seq<nat>) returns (ops: seq<Op>, c': Machine)
    requires Good(c, root) && v < PAGES && v in pages
    ensures Leads(c, root, ops, c', pages) && c'.space == BackPage(c.space, root, v).0
  {
    hide Good, Sound, Agrees, Reaches;
    GoodIsSound(c, root);
    TakeFacts(c.space, root, c.tlb);
    ops, c' := [TakeFrame], Step(c, root, TakeFrame);
    OneOp(c, root, TakeFrame, pages);
    var f := Take(c.space).1;
    if f != 0 {
      var map' := MapPage(v, f, IMAGE_FLAGS);
      var c1, c2 := c', Step(c', root, map');
      OneOp(c1, root, map', pages);
      Joined(c, root, ops, c1, [map'], c2, pages);
      ops, c' := ops + [map'], c2;
      if !MapIn(c1.space, root, v, f, IMAGE_FLAGS).1 {
        GoodIsSound(c1, root);
        GiveFacts(c1.space, root, v, f);
        NotATable(c1.space, root, v, f);
        OneOp(c2, root, GiveFrame(f), pages);
        Joined(c, root, ops, c2, [GiveFrame(f)], Step(c2, root, GiveFrame(f)), pages);
        ops, c' := ops + [GiveFrame(f)], Step(c2, root, GiveFrame(f));
      }
    }
  }

  lemma GoodIsSound(c: Machine, root: nat)
    requires Good(c, root)
    ensures Sound(c.space, root) && Coherent(c.tlb, c.space.store.mem, root)
  {
  }

  // Mapping a page makes no table of a frame that was handed out before.
  lemma NotATable(s: Space, root: nat, v: nat, f: FrameNo)
    requires Sound(s, root) && v < PAGES && f != 0 && Live(s.store, f) && f !in s.pos
    ensures f !in MapIn(s, root, v, f, IMAGE_FLAGS).0.pos
  {
    MapOk(s, root, v, f, IMAGE_FLAGS);
  }

  lemma UnmapRun(s0: Space, c: Machine, root: nat, pages: seq<nat>, frames: seq<nat>, window: set<nat>, all: seq<nat>)
    returns (ops: seq<Op>, c': Machine)
    requires Good(c, root) && Partly(s0, c.space, root, pages, frames, window) && pages != [] && Last(pages) in all
    ensures Leads(c, root, ops, c', all) && c'.space == UnmapFree(c.space, root, Last(pages))
    ensures Partly(s0, c'.space, root, Front(pages), Front(frames), window)
  {
    var v := Last(pages);
    UnmapRound(s0, c.space, root, pages, frames, window, v);
    LastPageMapped(s0, c.space, root, pages, frames, window);
    hide Good, Partly, Sound, Reaches;
    var f := Unmap(c.space, root, v).1.value;
    var c1 := Step(c, root, UnmapPage(v));
    OneOp(c, root, UnmapPage(v), all);
    OneOp(c1, root, GiveFrame(f), all);
    ops, c' := [UnmapPage(v)] + [GiveFrame(f)], Step(c1, root, GiveFrame(f));
    Joined(c, root, [UnmapPage(v)], c1, [GiveFrame(f)], c', all);
  }

  // The page lies in the address space, and its frame is no table.
  lemma LastPageMapped(s0: Space, s: Space, root: nat, pages: seq<nat>, frames: seq<nat>, window: set<nat>)
    requires Partly(s0, s, root, pages, frames, window) && pages != []
    ensures Last(pages) < PAGES
    ensures Unmap(s, root, Last(pages)).1.Some? ==> Unmap(s, root, Last(pages)).1.value !in s.pos
  {
    var v := Last(pages);
    assert PageIs(s.store.mem, root, pages[|pages| - 1], frames[|pages| - 1]);
    assert PageIs(s.store.mem, root, v, Last(frames)) && Last(frames) in frames;
    UnmapOk(s, root, v);
  }

  lemma {:induction false} UnmapPagesRun(s0: Space, c: Machine, root: nat, pages: seq<nat>, frames: seq<nat>,
                                         window: set<nat>, all: seq<nat>)
    returns (ops: seq<Op>, c': Machine)
    requires Good(c, root) && Partly(s0, c.space, root, pages, frames, window) && forall v | v in pages :: v in all
    ensures Leads(c, root, ops, c', all) && c'.space == UnmapPages(c.space, root, pages)
    decreases |pages|
  {
    if pages == [] {
      NoOps(c, root, all);
      ops, c' := [], c;
    } else {
      hide Good, Reaches, Sound;
      var one, c1 := UnmapRun(s0, c, root, pages, frames, window, all);
      FrontLast(pages);
      hide Partly;
      var rest;
      rest, c' := UnmapPagesRun(s0, c1, root, Front(pages), Front(frames), window, all);
      Joined(c, root, one, c1, rest, c', all);
      ops := one + rest;
    }
  }

  // ---- the mapping loop ------------------------------------------------------------------

  lemma {:induction false} MapPagesRun(s0: Space, c: Machine, root: nat, todo: seq<nat>, pages: seq<nat>,
                                       frames: seq<nat>, window: set<nat>, all: seq<nat>)
    returns (ops: seq<Op>, c': Machine, frames': seq<nat>, window': set<nat>)
    requires Good(c, root) && Midway(s0, c.space, root, todo, pages, frames, window, all)
    ensures Leads(c, root, ops, c', all) && c'.space == MapPages(s0, root, all, [], []).0
    ensures MapPages(s0, root, all, [], []).1.Loaded? ==>
              Partly(s0, c'.space, root, all, frames', window') && Zeroed(c'.space.store.mem, frames')
                && SameMembers(window', all)
    decreases |todo|
  {
    if todo == [] {
      NoOps(c, root, all);
      ops, c', frames', window' := [], c, frames, window;
      assert pages == all;
    } else {
      var v := todo[0];
      MapRound(s0, c.space, root, todo, pages, frames, window, all, v);
      InAll(pages, todo, all);
      hide Good, Reaches, Sound, Partly, Midway, BackPage;
      var one, c1 := BackRun(c, root, v, all);
      var f := BackPage(c.space, root, v).1;
      var rest;
      if f == 0 {
        rest, c' := UnmapPagesRun(s0, c1, root, pages, frames, window, all);
        frames', window' := [], {};
      } else {
        rest, c', frames', window' := MapPagesRun(s0, c1, root, todo[1..], pages + [v], frames + [f], window + {v},
                                                  all);
      }
      Joined(c, root, one, c1, rest, c', all);
      ops := one + rest;
    }
  }

  lemma InAll(pages: seq<nat>, todo: seq<nat>, all: seq<nat>)
    requires all == pages + todo && todo != []
    ensures todo[0] in all && forall v | v in pages :: v in all
  {
    assert all[|pages|] == todo[0];
    assert forall j | 0 <= j < |pages| :: all[j] == pages[j];
  }

  // ---- filling ---------------------------------------------------------------------------

  // One byte stored through the address space, as a store to the frame behind it.
  lemma StoreRun(s0: Space, c: Machine, root: nat, base: nat, pages: seq<nat>, frames: seq<nat>, window: set<nat>,
                 va: nat, x: nat, b: Byte)
    returns (ops: seq<Op>, c': Machine)
    requires Good(c, root) && Partly(s0, c.space, root, pages, frames, window) && pages == PagesFrom(base, |frames|)
    requires IsByte(base, va, x) && x < 4096 * |frames|
    ensures Leads(c, root, ops, c', pages) && c'.space == WithMem(c.space, StoreByte(c.space.store.mem, root, va, b))
    ensures Partly(s0, c'.space, root, pages, frames, window)
  {
    var m, f, k := c.space.store.mem, frames[x / 4096], x % 4096;
    PartlyBacks(s0, c.space, root, pages, frames, window);
    AccessInImage(m, root, base, pages, frames, va, x, b);
    assert f in frames && f !in c.space.pos && Live(c.space.store, f);
    CopyKeeps(s0, c.space, root, base, pages, frames, window, va, x, [b]);
    assert CopyIn(m, root, va, [b]) == StoreByte(m, root, va, b) by { CopyOne(m, root, va, b); }
    hide Partly, Good, Reaches, StoreByte;
    var op := StoreWord(f, k / 8, WordOf(WordBytes(Rd(m, f, k / 8))[k % 8 := b]));
    OneOp(c, root, op, pages);
    ops, c' := [op], Step(c, root, op);
  }

  lemma CopyOne(m: Memory, root: nat, va: nat, b: Byte)
    ensures CopyIn(m, root, va, [b]) == StoreByte(m, root, va, b)
  {
    assert [b][1..] == [];
  }

  lemma {:induction false} CopyRun(s0: Space, c: Machine, root: nat, base: nat, pages: seq<nat>, frames: seq<nat>,
                                   window: set<nat>, va: nat, x: nat, data: seq<Byte>)
    returns (ops: seq<Op>, c': Machine)
    requires Good(c, root) && Partly(s0, c.space, root, pages, frames, window) && pages == PagesFrom(base, |frames|)
    requires IsByte(base, va, x) && x + |data| <= 4096 * |frames|
    ensures Leads(c, root, ops, c', pages) && c'.space == WithMem(c.space, CopyIn(c.space.store.mem, root, va, data))
    ensures Partly(s0, c'.space, root, pages, frames, window)
    decreases |data|
  {
    hide Good, Reaches, Partly, StoreByte;
    if data == [] {
      NoOps(c, root, pages);
      ops, c' := [], c;
    } else {
      var one, c1 := StoreRun(s0, c, root, base, pages, frames, window, va, x, data[0]);
      var rest;
      rest, c' := CopyRun(s0, c1, root, base, pages, frames, window, Next(va), Next(x), data[1..]);
      Joined(c, root, one, c1, rest, c', pages);
      ops := one + rest;
    }
  }

  // ---- whole loads -----------------------------------------------------------------------

  /// pef_load_section is a run of the memory manager that stays on the pages of the section.
  lemma LoadSectionRun(c: Machine, root: nat, base: nat, size: nat, src: seq<Byte>)
    returns (ops: seq<Op>, c': Machine)
    requires Good(c, root) && base / 4096 + PageCount(size) <= PAGES && base % 4096 + size <= 4096 * PageCount(size)
    ensures Leads(c, root, ops, c', PagesFrom(base, PageCount(size)))
    ensures c'.space == LoadSection(c.space, root, base, size, src).0
  {
    GoodIsSound(c, root);
    hide Good, Reaches, Partly, Midway, MapPages;
    var n := PageCount(size);
    var pages := PagesFrom(base, n);
    StartMapping(c.space, root, base, n);
    var frames, window;
    ops, c', frames, window := MapPagesRun(c.space, c, root, pages, PagesFrom(base, 0), [], {}, pages);
    if MapPages(c.space, root, pages, [], []).1.Loaded? && src != [] {
      PartlyLengths(c.space, c'.space, root, pages, frames, window);
      var data := if base == 0 then [] else SafeBytes(src, size);
      var fill, c2 := CopyRun(c.space, c', root, base, pages, frames, window, base, base % 4096, data);
      Joined(c, root, ops, c', fill, c2, pages);
      ops, c' := ops + fill, c2;
    }
  }

  lemma {:induction false} LoadSectionsRun(s0: Space, c: Machine, root: nat, base: nat, pages: seq<nat>,
                                           frames: seq<nat>,
                                           window: set<nat>, imageSize: nat, blob: seq<Byte>, secs: seq<Section>)
    returns (ops: seq<Op>, c': Machine)
    requires Good(c, root) && Partly(s0, c.space, root, pages, frames, window) && pages == PagesFrom(base, |frames|)
    requires base % 4096 + imageSize <= 4096 * |frames|
    ensures Leads(c, root, ops, c', pages)
    ensures c'.space == LoadSections(c.space, root, base, pages, imageSize, blob, secs).0
    decreases |secs|
  {
    hide Good, Reaches, Partly, UnmapPages;
    if secs == [] {
      NoOps(c, root, pages);
      ops, c' := [], c;
    } else if secs[0].rawSize == 0 {
      ops, c' := LoadSectionsRun(s0, c, root, base, pages, frames, window, imageSize, blob, secs[1..]);
    } else if Rejects(secs[0], imageSize, |blob|) {
      ops, c' := UnmapPagesRun(s0, c, root, pages, frames, window, pages);
    } else {
      var sec := secs[0];
      var dst := SectionAddress(base, sec);
      var data := if dst == 0 then [] else SafeBytes(RawBytes(sec, blob), imageSize - sec.address);
      var one, c1 := CopyRun(s0, c, root, base, pages, frames, window, dst, base % 4096 + sec.address, data);
      var rest;
      rest, c' := LoadSectionsRun(s0, c1, root, base, pages, frames, window, imageSize, blob, secs[1..]);
      Joined(c, root, one, c1, rest, c', pages);
      ops := one + rest;
    }
  }

  /// LoadImage past its header checks is a run that stays on the pages of the image.
  lemma LoadImageRun(c: Machine, root: nat, base: nat, imageSize: nat, blob: seq<Byte>, secs: seq<Section>)
    returns (ops: seq<Op>, c': Machine)
    requires Good(c, root) && base / 4096 + PageCount(imageSize) <= PAGES
    requires base % 4096 + imageSize <= 4096 * PageCount(imageSize)
    ensures Leads(c, root, ops, c', PagesFrom(base, PageCount(imageSize)))
    ensures c'.space == LoadImage(c.space, root, base, imageSize, blob, secs).0
  {
    GoodIsSound(c, root);
    hide Good, Reaches, Partly, Midway, MapPages, LoadSections;
    var n := PageCount(imageSize);
    var pages := PagesFrom(base, n);
    StartMapping(c.space, root, base, n);
    var frames, window;
    ops, c', frames, window := MapPagesRun(c.space, c, root, pages, PagesFrom(base, 0), [], {}, pages);
    if MapPages(c.space, root, pages, [], []).1.Loaded? {
      PartlyLengths(c.space, c'.space, root, pages, frames, window);
      var fill, c2 := LoadSectionsRun(c.space, c', root, base, pages, frames, window, imageSize, blob, secs);
      Joined(c, root, ops, c', fill, c2, pages);
      ops, c' := ops + fill, c2;
    }
  }

  /// And so is the load of a whole file.
  lemma LoadFileRun(c: Machine, root: nat, blob: seq<Byte>) returns (ops: seq<Op>, c': Machine)
    requires Good(c, root) && HasRoom(blob)
    ensures Leads(c, root, ops, c', if Loadable(blob) then ImagePages(blob) else [])
    ensures c'.space == LoadFile(c.space, root, blob).0
  {
    hide Good, Reaches, Loaders.LoadImage;
    if Loadable(blob) {
      ops, c' := LoadImageRun(c, root, ImageBase(blob), SizeOfImage(blob), blob, Sections(blob));
    } else {
      NoOps(c, root, []);
      ops, c' := [], c;
    }
  }

  // ---- what the kernel does over time ----------------------------------------------------

  /// Single operations and whole loads.
  datatype Action =
    | Basic(op: Op)
    | LoadPef(base: nat, size: nat, src: seq<Byte>)
    | LoadPe(blob: seq<Byte>)

  /// The pages an action may map or unmap.
  ghost function PagesOf(a: Action): seq<nat> {
    match a
    case Basic(MapPage(v, _, _)) => [v]
    case Basic(UnmapPage(v)) => [v]
    case Basic(_) => []
    case LoadPef(base, size, _) => PagesFrom(base, PageCount(size))
    case LoadPe(blob) => if Loadable(blob) then ImagePages(blob) else []
  }

  /// An action takes c to c': an operation by its step, a load by a run on its own pages that ends as
  /// its specification says.
  ghost predicate Acts(c: Machine, root: nat, a: Action, c': Machine) {
    exists ops :: Leads(c, root, ops, c', PagesOf(a)) && Fulfils(c, root, a, ops, c')
  }

  ghost predicate Fulfils(c: Machine, root: nat, a: Action, ops: seq<Op>, c': Machine) {
    match a
    case Basic(op) => ops == [op]
    case LoadPef(base, size, src) => c'.space == LoadSection(c.space, root, base, size, src).0
    case LoadPe(blob) => c'.space == LoadFile(c.space, root, blob).0
  }

  /// Loads can always be carried out.
  lemma LoadsAct(c: Machine, root: nat, base: nat, size: nat, src: seq<Byte>, blob: seq<Byte>)
    requires Good(c, root)
    ensures base / 4096 + PageCount(size) <= PAGES && base % 4096 + size <= 4096 * PageCount(size) ==>
              exists c' :: Acts(c, root, LoadPef(base, size, src), c')
    ensures HasRoom(blob) ==> exists c' :: Acts(c, root, LoadPe(blob), c')
  {
    hide Good, Leads, LoadSection, LoadFile;
    if base / 4096 + PageCount(size) <= PAGES && base % 4096 + size <= 4096 * PageCount(size) {
      var ops, c' := LoadSectionRun(c, root, base, size, src);
      assert Fulfils(c, root, LoadPef(base, size, src), ops, c');
      assert Acts(c, root, LoadPef(base, size, src), c');
    }
    if HasRoom(blob) {
      var ops, c' := LoadFileRun(c, root, blob);
      assert Fulfils(c, root, LoadPe(blob), ops, c');
      assert Acts(c, root, LoadPe(blob), c');
    }
  }

  /// c' is reached by the actions one after the other.
  ghost predicate Performs(c: Machine, root: nat, actions: seq<Action>, c': Machine)
    decreases |actions|
  {
    if actions == [] then c' == c
    else exists c1 :: Acts(c, root, actions[0], c1) && Performs(c1, root, actions[1..], c')
  }

  lemma ActStaysHome(c: Machine, root: nat, a: Action, c': Machine)
    requires Good(c, root) && FramesHome(c.space, root) && Acts(c, root, a, c')
    requires Misses(c.space.store.pmm, PagesOf(a))
    ensures Good(c', root) && FramesHome(c'.space, root) && SameRegion(c, c')
  {
    hide Good, FramesHome, Fulfils, PagesOf;
    var ops :| Leads(c, root, ops, c', PagesOf(a)) && Fulfils(c, root, a, ops, c');
    MissesSpares(c.space.store.pmm, ops, PagesOf(a));
    FramesStayHome(c, root, ops, c');
    RunsStayGood(c, root, ops, c');
  }

  lemma SameMisses(p: Pmm, p': Pmm, actions: seq<Action>)
    requires p'.base == p.base && p'.end == p.end && actions != []
    requires forall a :: a in actions ==> Misses(p, PagesOf(a))
    ensures Misses(p, PagesOf(actions[0])) && forall a :: a in actions[1..] ==> Misses(p', PagesOf(a))
  {
    assert actions[0] in actions && forall a :: a in actions[1..] ==> a in actions;
  }

  /// Whatever is mapped, unmapped and loaded, as long as no page of it has the address of one of the
  /// allocator's frames: tables, policy, TLB and allocator stay sound, and every frame the allocator
  /// has or may hand out stays mapped to itself.
  lemma {:induction false} ActionsStayHome(c: Machine, root: nat, actions: seq<Action>, c': Machine)
    requires Good(c, root) && FramesHome(c.space, root) && Performs(c, root, actions, c')
    requires forall a :: a in actions ==> Misses(c.space.store.pmm, PagesOf(a))
    ensures Good(c', root) && FramesHome(c'.space, root) && SameRegion(c, c')
    decreases |actions|
  {
    if actions != [] {
      hide Good, FramesHome, Acts, Misses;
      var c1 :| Acts(c, root, actions[0], c1) && Performs(c1, root, actions[1..], c');
      SameMisses(c.space.store.pmm, c.space.store.pmm, actions);
      ActStaysHome(c, root, actions[0], c1);
      SameMisses(c.space.store.pmm, c1.space.store.pmm, actions);
      ActionsStayHome(c1, root, actions[1..], c');
    }
  }

  /// Actions inside the image window keep the identity map everywhere else, too.
  lemma {:induction false} WindowActionsKeepHome(c: Machine, root: nat, actions: seq<Action>, c': Machine, limit: nat)
    requires Good(c, root) && Home(c.space.store.mem, root, limit) && Performs(c, root, actions, c')
    requires forall a, v :: a in actions && v in PagesOf(a) ==> WindowPage(v)
    ensures Home(c'.space.store.mem, root, limit)
    decreases |actions|
  {
    if actions != [] {
      hide Good, Home, Fulfils, Reaches, PagesOf;
      var c1 :| Acts(c, root, actions[0], c1) && Performs(c1, root, actions[1..], c');
      var ops :| Leads(c, root, ops, c1, PagesOf(actions[0])) && Fulfils(c, root, actions[0], ops, c1);
      assert actions[0] in actions && forall a :: a in actions[1..] ==> a in actions;
      WindowRunsKeepHome(c, root, ops, c1, limit);
      WindowActionsKeepHome(c1, root, actions[1..], c', limit);
    }
  }
}
