/// The fork chain of a NeFS catalog (minkernel/src/FS/NeFS+FileSystemParser.cpp): headers on disk,
/// one sector each, every one followed by its data.

module Forks {
  import opened Bits
  import opened Translation

  const START_ADDRESS: nat := 1536  // kNeFSCatalogStartAddress
  const FLAG_CREATED: nat := 71

  /// NEFS_FORK_STRUCT; `rest` stands for the fields the chain does not look at.
  datatype Fork = Fork(
    forkName: string, catalogName: string, flags: nat, rest: nat,
    dataOffset: U64, dataSize: U64, next: U64, prev: U64)

  const ZERO_FORK: Fork := Fork("", "", 0, 0, 0, 0, 0, 0)

  datatype Catalog = Catalog(name: string, dataFork: U64, resourceFork: U64)

  type Sectors = map<nat, Fork>

  /// The header in a sector; a sector never written holds zeros.
  function ReadSector(disk: Sectors, lba: nat): Fork {
    if lba in disk then disk[lba] else ZERO_FORK
  }

  predicate Created(f: Fork) { And(f.flags, FLAG_CREATED) != 0 }

  /// The sectors a fork's data takes.
  function DataSectors(size: nat): nat { (size + 511) / 512 }

  /// The least number of sectors of 512 bytes that hold so many.
  lemma DataSectorsLeast(size: nat, n: nat)
    ensures size <= 512 * n <==> DataSectors(size) <= n
  {
  }

  /// `(DataSize + kNeFSSectorSz - 1) / kNeFSSectorSz`, whose sum wraps.
  function SectorCount(size: U64): nat { (size + 511) % TWO_TO_THE_64 / 512 }

  // ---- the chain -------------------------------------------------------------------------

  function NextLba(chain: seq<U64>, end: nat, k: nat): nat { if k + 1 < |chain| then chain[k + 1] else end }
  function PrevLba(chain: seq<U64>, k: nat): U64
    requires k < |chain|
  {
    if k == 0 then chain[0] else chain[k - 1]
  }

  /// The k-th header: it belongs to the catalog, its data comes right behind it, the next header
  /// right behind the data, and it points back to the one before.
  predicate HeaderOk(disk: Sectors, cat: string, chain: seq<U64>, end: nat, k: nat)
    requires k < |chain|
  {
    var f, lba := ReadSector(disk, chain[k]), chain[k];
    && Created(f) && f.catalogName == cat && f.forkName != "" && f.dataSize > 0
    && f.dataOffset == lba + 1 && f.next == lba + 1 + DataSectors(f.dataSize)
    && f.next == NextLba(chain, end, k) && f.prev == PrevLba(chain, k)
  }

  /// The chain from sector start: its headers in order, zeros from `end` on, no name twice.
  ghost predicate ChainOk(disk: Sectors, cat: string, start: nat, chain: seq<U64>, end: nat) {
    && start >= START_ADDRESS && start == (if chain == [] then end else chain[0])
    && (forall k: nat | k < |chain| :: HeaderOk(disk, cat, chain, end, k))
    && (forall l: nat | l >= end :: ReadSector(disk, l) == ZERO_FORK)
    && (forall j: nat, k: nat | j < k < |chain| ::
          ReadSector(disk, chain[j]).forkName != ReadSector(disk, chain[k]).forkName)
  }

  /// The walk moves up: header and data extents are in order and do not overlap.
  lemma {:induction false} ExtentsDisjoint(disk: Sectors, cat: string, start: nat, chain: seq<U64>, end: nat, j: nat,
                                           k: nat)
    requires ChainOk(disk, cat, start, chain, end) && j < k <= |chain|
    ensures start <= chain[j]
    ensures var f := ReadSector(disk, chain[j]);
            chain[j] < f.dataOffset < f.dataOffset + DataSectors(f.dataSize) <= if k < |chain| then chain[k] else end
    decreases k + j
  {
    assert HeaderOk(disk, cat, chain, end, j);
    if j > 0 {
      assert HeaderOk(disk, cat, chain, end, j - 1);
      ExtentsDisjoint(disk, cat, start, chain, end, j - 1, j);
    }
    if j + 1 < k {
      assert HeaderOk(disk, cat, chain, end, k - 1);
      ExtentsDisjoint(disk, cat, start, chain, end, j, k - 1);
    }
  }

  // ---- writing headers -------------------------------------------------------------------

  /// The header CreateFork writes at lba.
  function Linked(f: Fork, lba: U64, prev: U64): Fork {
    f.(dataOffset := (lba + 1) % TWO_TO_THE_64, prev := prev,
       next := (lba + 1 + SectorCount(f.dataSize)) % TWO_TO_THE_64, flags := Or(f.flags, FLAG_CREATED))
  }

  /// The sector behind the data of a fork at lba.
  function EndOf(f: Fork, lba: nat): nat { lba + 1 + DataSectors(f.dataSize) }

  /// The sums of CreateFork do not wrap.
  predicate FitsDisk(f: Fork, lba: nat) {
    f.dataSize + 511 < TWO_TO_THE_64 && EndOf(f, lba) < TWO_TO_THE_64
  }

  /// Only then does the header point behind its data.
  lemma LinkedNext(f: Fork, lba: U64, prev: U64)
    requires f.dataSize > 0
    ensures Linked(f, lba, prev).next == EndOf(f, lba) <==> FitsDisk(f, lba)
    ensures FitsDisk(f, lba) ==> Linked(f, lba, prev).dataOffset == lba + 1
  {
  }

  lemma {:induction false} OrThenAnd(x: nat, m: nat)
    ensures And(Or(x, m), m) == m
    decreases m
  {
    if m != 0 {
      OrThenAnd(x / 2, m / 2);
    }
  }

  /// The header keeps every flag the caller set, and has those of kNeFSFlagCreated besides: bits 0, 1, 2
  /// and 6. Name, catalog, size and the other fields are the caller's.
  lemma LinkedKeeps(f: Fork, lba: U64, prev: U64, k: nat)
    ensures var g := Linked(f, lba, prev);
            && (g.flags / Pow2(k) % 2 == 1 <==> f.flags / Pow2(k) % 2 == 1 || k == 0 || k == 1 || k == 2 || k == 6)
            && g.forkName == f.forkName && g.catalogName == f.catalogName && g.dataSize == f.dataSize
            && g.rest == f.rest && g.prev == prev
  {
    OrBitwise(f.flags, 71, k);
    BitsOf71(k);
  }

  lemma BitsOf71(k: nat)
    ensures 71 / Pow2(k) % 2 == 1 <==> k == 0 || k == 1 || k == 2 || k == 6
  {
    assert Pow2(7) == 128;
    if k >= 7 {
      Pow2Monotonic(7, k);
    }
  }

  /// A header behind the end makes the chain one longer, exactly when the sums do not wrap.
  lemma Appended(disk: Sectors, cat: string, start: nat, chain: seq<U64>, end: U64, f: Fork, prev: U64, disk': Sectors)
    requires ChainOk(disk, cat, start, chain, end) && f.catalogName == cat && f.forkName != "" && f.dataSize > 0
    requires forall k: nat | k < |chain| :: ReadSector(disk, chain[k]).forkName != f.forkName
    requires prev == if chain == [] then end else chain[|chain| - 1]
    requires forall l: nat :: ReadSector(disk', l) == if l == end then Linked(f, end, prev) else ReadSector(disk, l)
    ensures FitsDisk(f, end) ==> ChainOk(disk', cat, start, chain + [end], EndOf(f, end))
    ensures (exists end': nat :: ChainOk(disk', cat, start, chain + [end], end')) <==> FitsDisk(f, end)
  {
    LinkedNext(f, end, prev);
    if FitsDisk(f, end) {
      AppendedFits(disk, cat, start, chain, end, f, prev, disk');
    } else {
      forall end': nat
        ensures !ChainOk(disk', cat, start, chain + [end], end')
      {
        assert (chain + [end])[|chain|] == end;
        assert !HeaderOk(disk', cat, chain + [end], end', |chain|);
      }
    }
  }

  lemma AppendedFits(disk: Sectors, cat: string, start: nat, chain: seq<U64>, end: U64, f: Fork, prev: U64,
                     disk': Sectors)
    requires ChainOk(disk, cat, start, chain, end) && f.catalogName == cat && f.forkName != "" && f.dataSize > 0
    requires forall k: nat | k < |chain| :: ReadSector(disk, chain[k]).forkName != f.forkName
    requires prev == (if chain == [] then end else chain[|chain| - 1]) && FitsDisk(f, end)
    requires forall l: nat :: ReadSector(disk', l) == if l == end then Linked(f, end, prev) else ReadSector(disk, l)
    ensures ChainOk(disk', cat, start, chain + [end], EndOf(f, end))
  {
    var chain', end' := chain + [end], EndOf(f, end);
    LinkedNext(f, end, prev);
    OrThenAnd(f.flags, FLAG_CREATED);
    hide SectorCount;
    forall k: nat | k < |chain'|
      ensures HeaderOk(disk', cat, chain', end', k)
    {
      if k < |chain| {
        assert HeaderOk(disk, cat, chain, end, k);
        ExtentsDisjoint(disk, cat, start, chain, end, k, |chain|);
      }
    }
    forall j: nat, k: nat | j < k < |chain'|
      ensures ReadSector(disk', chain'[j]).forkName != ReadSector(disk', chain'[k]).forkName
    {
      ExtentsDisjoint(disk, cat, start, chain, end, j, |chain|);
      if k < |chain| {
        ExtentsDisjoint(disk, cat, start, chain, end, k, |chain|);
      }
    }
  }

  lemma DistinctSectors(disk: Sectors, cat: string, start: nat, chain: seq<U64>, end: nat, j: nat, k: nat)
    requires ChainOk(disk, cat, start, chain, end) && j < |chain| && k < |chain| && j != k
    ensures chain[j] != chain[k] && chain[k] < end
  {
    ExtentsDisjoint(disk, cat, start, chain, end, k, |chain|);
    if j < k {
      ExtentsDisjoint(disk, cat, start, chain, end, j, k);
    } else {
      ExtentsDisjoint(disk, cat, start, chain, end, k, j);
    }
  }

  /// disk' is disk with the k-th header replaced by f.
  ghost predicate Rewrites(disk: Sectors, disk': Sectors, chain: seq<U64>, k: nat, f: Fork)
    requires k < |chain|
  {
    forall l: nat ::
      ReadSector(disk', l) == if l == chain[k] then Linked(f, chain[k], PrevLba(chain, k)) else ReadSector(disk, l)
  }

  lemma ReplacedHeaders(disk: Sectors, cat: string, start: nat, chain: seq<U64>, end: nat, end': nat, k: nat, f: Fork,
                        disk': Sectors, j: nat)
    requires ChainOk(disk, cat, start, chain, end) && k < |chain| && j < |chain|
    requires Rewrites(disk, disk', chain, k, f) && FitsDisk(f, chain[k])
    requires f.catalogName == cat && f.forkName == ReadSector(disk, chain[k]).forkName && f.dataSize > 0
    requires EndOf(f, chain[k]) == NextLba(chain, end', k) && (end' == end || k == |chain| - 1)
    ensures HeaderOk(disk', cat, chain, end', j)
    ensures ReadSector(disk', chain[j]).forkName == ReadSector(disk, chain[j]).forkName
  {
    OrThenAnd(f.flags, FLAG_CREATED);
    LinkedNext(f, chain[k], PrevLba(chain, k));
    hide SectorCount;
    assert HeaderOk(disk, cat, chain, end, j) && HeaderOk(disk, cat, chain, end, k);
    if j != k {
      DistinctSectors(disk, cat, start, chain, end, j, k);
    }
  }

  /// The sectors from a new, earlier end up to the old one hold nothing.
  ghost predicate EmptyBetween(disk: Sectors, end': nat, end: nat) {
    forall l: nat | end' <= l < end :: ReadSector(disk, l) == ZERO_FORK
  }

  /// Writing a fork over the one of the same name leaves the same chain of headers, with whatever end,
  /// exactly when nothing wraps and it takes as many data sectors as before, or it is the last one and
  /// nothing is left behind it.
  lemma Replaced(disk: Sectors, cat: string, start: nat, chain: seq<U64>, end: nat, k: nat, f: Fork, disk': Sectors)
    requires ChainOk(disk, cat, start, chain, end) && k < |chain|
    requires Rewrites(disk, disk', chain, k, f)
    requires f.catalogName == cat && f.forkName == ReadSector(disk, chain[k]).forkName && f.dataSize > 0
    ensures (exists end': nat :: ChainOk(disk', cat, start, chain, end'))
            <==>
            && FitsDisk(f, chain[k])
            && (DataSectors(f.dataSize) == DataSectors(ReadSector(disk, chain[k]).dataSize)
                || (k == |chain| - 1 && EmptyBetween(disk, EndOf(f, chain[k]), end)))
  {
    hide Created;
    LinkedNext(f, chain[k], PrevLba(chain, k));
    assert HeaderOk(disk, cat, chain, end, k);
    var same := DataSectors(f.dataSize) == DataSectors(ReadSector(disk, chain[k]).dataSize);
    if FitsDisk(f, chain[k]) && (same || (k == |chain| - 1 && EmptyBetween(disk, EndOf(f, chain[k]), end))) {
      ReplacedKeeps(disk, cat, start, chain, end, k, f, disk', if k == |chain| - 1 then EndOf(f, chain[k]) else end);
    } else {
      forall end': nat
        ensures !ChainOk(disk', cat, start, chain, end')
      {
        if ChainOk(disk', cat, start, chain, end') {
          assert HeaderOk(disk', cat, chain, end', k);
          ReplacedBreaks(disk, cat, start, chain, end, k, f, disk', end');
        }
      }
    }
  }

  lemma ReplacedKeeps(disk: Sectors, cat: string, start: nat, chain: seq<U64>, end: nat, k: nat, f: Fork,
                      disk': Sectors, end': nat)
    requires ChainOk(disk, cat, start, chain, end) && k < |chain|
    requires Rewrites(disk, disk', chain, k, f) && FitsDisk(f, chain[k])
    requires f.catalogName == cat && f.forkName == ReadSector(disk, chain[k]).forkName && f.dataSize > 0
    requires EndOf(f, chain[k]) == NextLba(chain, end', k) && (end' == end || k == |chain| - 1)
    requires EmptyBetween(disk, end', end)
    ensures ChainOk(disk', cat, start, chain, end')
  {
    hide Created, Linked, HeaderOk;
    DistinctOrOne(disk, cat, start, chain, end, k);
    forall j: nat | j < |chain|
      ensures HeaderOk(disk', cat, chain, end', j)
      ensures ReadSector(disk', chain[j]).forkName == ReadSector(disk, chain[j]).forkName
    {
      ReplacedHeaders(disk, cat, start, chain, end, end', k, f, disk', j);
    }
    ExtentsBefore(disk, cat, start, chain, end, k, f, end');
  }

  lemma DistinctOrOne(disk: Sectors, cat: string, start: nat, chain: seq<U64>, end: nat, k: nat)
    requires ChainOk(disk, cat, start, chain, end) && k < |chain|
    ensures chain[k] < end
  {
    ExtentsDisjoint(disk, cat, start, chain, end, k, |chain|);
  }

  // The new end lies behind the header, so that sector is not among those that must be empty.
  lemma ExtentsBefore(disk: Sectors, cat: string, start: nat, chain: seq<U64>, end: nat, k: nat, f: Fork, end': nat)
    requires ChainOk(disk, cat, start, chain, end) && k < |chain|
    requires EndOf(f, chain[k]) == NextLba(chain, end', k) && (end' == end || k == |chain| - 1)
    ensures chain[k] < end'
  {
    ExtentsDisjoint(disk, cat, start, chain, end, k, |chain|);
  }

  lemma ReplacedBreaks(disk: Sectors, cat: string, start: nat, chain: seq<U64>, end: nat, k: nat, f: Fork,
                       disk': Sectors, end': nat)
    requires ChainOk(disk, cat, start, chain, end) && k < |chain|
    requires Rewrites(disk, disk', chain, k, f) && ChainOk(disk', cat, start, chain, end') && f.dataSize > 0
    ensures FitsDisk(f, chain[k])
    ensures DataSectors(f.dataSize) == DataSectors(ReadSector(disk, chain[k]).dataSize)
            || (k == |chain| - 1 && EmptyBetween(disk, EndOf(f, chain[k]), end))
  {
    hide Created;
    LinkedNext(f, chain[k], PrevLba(chain, k));
    assert HeaderOk(disk, cat, chain, end, k) && HeaderOk(disk', cat, chain, end', k);
    hide Linked;
    if k == |chain| - 1 {
      forall l: nat | EndOf(f, chain[k]) <= l < end
        ensures ReadSector(disk, l) == ZERO_FORK
      {
        assert l >= end' && l != chain[k];
        assert ReadSector(disk', l) == ZERO_FORK;
      }
    }
  }

  /// A header as CreateFork writes it.
  function Sample(name: string, lba: U64, size: U64, prev: U64): Fork {
    Linked(Fork(name, "c", 0, 0, 0, size, 0, 0), lba, prev)
  }

  lemma SampleFields(name: string, lba: U64, size: U64, prev: U64)
    requires 0 < size <= 1000 && lba <= 2000
    ensures var f := Sample(name, lba, size, prev);
            && Created(f) && f.forkName == name && f.catalogName == "c" && f.dataSize == size && f.prev == prev
            && f.dataOffset == lba + 1 && f.next == lba + 1 + DataSectors(size)
  {
    OrThenAnd(0, FLAG_CREATED);
    LinkedNext(Fork(name, "c", 0, 0, 0, size, 0, 0), lba, prev);
  }

  /// A fork in the middle that grows by one sector: the fork behind it is lost.
  lemma MiddleForkLost()
    ensures var disk: Sectors := map[1536 := Sample("a", 1536, 1, 1536), 1538 := Sample("b", 1538, 1, 1536)];
            var disk' := disk[1536 := Sample("a", 1536, 1000, 1536)];
            && ChainOk(disk, "c", 1536, [1536, 1538], 1540)
            && (forall end': nat :: !ChainOk(disk', "c", 1536, [1536, 1538], end'))
            && ChainOk(disk', "c", 1536, [1536], 1539) && NamedAt(disk', [1536], "b", 1)
  {
    var a, b, a' := Sample("a", 1536, 1, 1536), Sample("b", 1538, 1, 1536), Sample("a", 1536, 1000, 1536);
    SampleFields("a", 1536, 1, 1536);
    SampleFields("b", 1538, 1, 1536);
    SampleFields("a", 1536, 1000, 1536);
    hide Sample, Created;
    TwoForks(map[1536 := a, 1538 := b], [1536, 1538]);
    GrownFork(map[1536 := a, 1538 := b][1536 := a'], [1536], [1536, 1538]);
  }

  lemma TwoForks(disk: Sectors, chain: seq<U64>)
    requires chain == [1536, 1538]
    requires forall l :: l in disk <==> l == 1536 || l == 1538
    requires var f := ReadSector(disk, 1536);
             Created(f) && f.forkName == "a" && f.catalogName == "c" && f.dataSize == 1
             && f.prev == 1536 && f.dataOffset == 1537 && f.next == 1538
    requires var f := ReadSector(disk, 1538);
             Created(f) && f.forkName == "b" && f.catalogName == "c" && f.dataSize == 1
             && f.prev == 1536 && f.dataOffset == 1539 && f.next == 1540
    ensures ChainOk(disk, "c", 1536, chain, 1540)
  {
    hide Created;
    assert HeaderOk(disk, "c", chain, 1540, 0) && HeaderOk(disk, "c", chain, 1540, 1);
  }

  lemma GrownFork(disk: Sectors, one: seq<U64>, two: seq<U64>)
    requires one == [1536] && two == [1536, 1538]
    requires forall l :: l in disk <==> l == 1536 || l == 1538
    requires var f := ReadSector(disk, 1536);
             Created(f) && f.forkName == "a" && f.catalogName == "c" && f.dataSize == 1000
             && f.prev == 1536 && f.dataOffset == 1537 && f.next == 1539
    ensures ChainOk(disk, "c", 1536, one, 1539) && NamedAt(disk, one, "b", 1)
    ensures forall end': nat :: !ChainOk(disk, "c", 1536, two, end')
  {
    hide Created;
    assert HeaderOk(disk, "c", one, 1539, 0);
    forall end': nat
      ensures !ChainOk(disk, "c", 1536, two, end')
    {
      assert !HeaderOk(disk, "c", two, end', 0);
    }
  }

  // ---- the parser ------------------------------------------------------------------------

  /// Header k is the one called name; k == |chain| when there is none.
  ghost predicate NamedAt(disk: Sectors, chain: seq<U64>, name: string, k: nat) {
    && k <= |chain|
    && (forall j: nat | j < k :: ReadSector(disk, chain[j]).forkName != name)
    && (k < |chain| ==> ReadSector(disk, chain[k]).forkName == name)
  }

  /// What FindFork returns, given the place of the name. Behind the chain it still looks at the first
  /// empty sector, which only the empty name in the empty catalog would match.
  ghost function Found(disk: Sectors, catalog: Catalog, chain: seq<U64>, name: string, at: nat): Option<Fork> {
    if at < |chain| then Some(ReadSector(disk, chain[at]))
    else if name == "" && catalog.name == "" then Some(ZERO_FORK)
    else None
  }

  /// What CreateFork does to the disk: the fork of that name, or the first free sector behind the chain,
  /// gets the header linked to the one before it; every other sector reads as before.
  ghost predicate Puts(disk: Sectors, chain: seq<U64>, end: U64, f: Fork, at: nat, written: Fork, disk': Sectors) {
    && NamedAt(disk, chain, f.forkName, at)
    && var lba := if at < |chain| then chain[at] else end;
       var prev := if chain == [] then end else if at == 0 then chain[0] else chain[at - 1];
       && written == Linked(f, lba, prev)
       && forall l: nat :: ReadSector(disk', l) == if l == lba then written else ReadSector(disk, l)
  }

  class Drive {
    var sectors: Sectors

    constructor ()
      ensures sectors == map[]
    {
      sectors := map[];
    }

    /// CreateFork on a catalog whose data forks form a chain. `at` is the place of the fork of that
    /// name, the chain's end when the name is new.
    method CreateFork(fork: Fork, catalog: Option<Catalog>, ghost chain: seq<U64>, ghost end: U64)
      returns (ok: bool, written: Fork, ghost at: nat)
      requires catalog.Some? && catalog.value.dataFork >= 1536 ==>
                 && ChainOk(sectors, fork.catalogName, catalog.value.dataFork, chain, end)
      modifies this
      ensures ok <==> fork.forkName != "" && fork.catalogName != "" && fork.dataSize != 0
                      && catalog.Some? && catalog.value.dataFork >= 1536
      ensures !ok ==> sectors == old(sectors) && written == fork
      ensures ok ==> Puts(old(sectors), chain, end, fork, at, written, sectors)
    {
      ok, written, at := false, fork, 0;
      if fork.forkName == "" || fork.catalogName == "" || fork.dataSize == 0 {
        return;
      }
      if catalog.None? {
        return;
      }
      var lba := catalog.value.dataFork;
      if lba < START_ADDRESS {
        return;
      }
      var lbaPrev := lba;
      var prevFork := ZERO_FORK;
      while true
        invariant at <= |chain| && sectors == old(sectors)
        invariant forall j: nat | j < at :: ReadSector(sectors, chain[j]).forkName != fork.forkName
        invariant lba == if at < |chain| then chain[at] else end
        invariant lbaPrev == if at == 0 then lba else chain[at - 1]
        invariant at > 0 ==> prevFork == ReadSector(sectors, chain[at - 1])
        decreases |chain| - at
      {
        var cur := ReadSector(sectors, lba);
        if at < |chain| {
          assert HeaderOk(sectors, fork.catalogName, chain, end, at);
        }
        if And(cur.flags, FLAG_CREATED) != 0 {
          if cur.forkName == fork.forkName && cur.catalogName == fork.catalogName {
            break;
          }
          assert at < |chain|;
          lbaPrev := lba;
          lba := cur.next;
          prevFork := cur;
          at := at + 1;
        } else {
          if lba >= START_ADDRESS {
            assert at > 0 ==> HeaderOk(sectors, fork.catalogName, chain, end, at - 1);
            prevFork := prevFork.(next := lba);
            sectors := sectors[lbaPrev := prevFork];
          }
          break;
        }
      }
      written := Linked(fork, lba, lbaPrev);
      sectors := sectors[lba := written];
      ok := true;
    }

    /// FindFork, along the data forks or the resource forks of a catalog.
    method FindFork(catalog: Catalog, name: string, isData: bool, ghost chain: seq<U64>, ghost end: nat)
      returns (r: Option<Fork>, ghost at: nat)
      requires var start := if isData then catalog.dataFork else catalog.resourceFork;
               start >= 1536 ==> ChainOk(sectors, catalog.name, start, chain, end)
      ensures var start := if isData then catalog.dataFork else catalog.resourceFork;
              if start < 1536 then r == None
              else NamedAt(sectors, chain, name, at) && r == Found(sectors, catalog, chain, name, at)
      ensures var start := if isData then catalog.dataFork else catalog.resourceFork;
              start >= 1536 && (name != "" || catalog.name != "") ==>
                && (r == None <==> forall k: nat | k < |chain| :: ReadSector(sectors, chain[k]).forkName != name)
                && (r.Some? ==>
                      && r.value.forkName == name
                      && exists k: nat :: k < |chain| && r.value == ReadSector(sectors, chain[k]))
    {
      var lba := if isData then catalog.dataFork else catalog.resourceFork;
      ghost var start, k: nat := lba, 0;
      if start >= START_ADDRESS {
        AllAbove(sectors, catalog.name, start, chain, end);
      }
      while lba >= START_ADDRESS
        invariant start >= START_ADDRESS ==>
                    && k <= |chain| + 1
                    && (forall j: nat | j < k && j < |chain| :: ReadSector(sectors, chain[j]).forkName != name)
                    && (lba == if k < |chain| then chain[k] else if k == |chain| then end else 0)
        invariant start < START_ADDRESS ==> lba == start
        invariant k > |chain| ==> name != "" || catalog.name != ""
        decreases |chain| + 1 - k
      {
        var buf := ReadSector(sectors, lba);
        if k < |chain| {
          assert HeaderOk(sectors, catalog.name, chain, end, k);
        }
        if buf.forkName == name && buf.catalogName == catalog.name {
          return Some(buf), if k < |chain| then k else |chain|;
        }
        lba := buf.next;
        k := k + 1;
      }
      return None, |chain|;
    }
  }

  lemma AllAbove(disk: Sectors, cat: string, start: nat, chain: seq<U64>, end: nat)
    requires ChainOk(disk, cat, start, chain, end)
    ensures end >= START_ADDRESS && forall k: nat | k < |chain| :: chain[k] >= START_ADDRESS
  {
    forall k: nat | k < |chain|
      ensures chain[k] >= START_ADDRESS && end > chain[k]
    {
      ExtentsDisjoint(disk, cat, start, chain, end, k, |chain|);
    }
    assert chain != [] ==> end > chain[0];
  }

  // ---- the two together ------------------------------------------------------------------

  /// After CreateFork with a new name whose sums do not wrap the chain is one fork longer, the new
  /// fork is found, and every older one is found as before.
  method CreateThenFind(drive: Drive, fork: Fork, catalog: Catalog, name: string, ghost chain: seq<U64>, ghost end: U64)
    returns (before: Option<Fork>, after: Option<Fork>)
    requires fork.forkName != "" && fork.catalogName != "" && fork.dataSize != 0 && catalog.name == fork.catalogName
    requires catalog.dataFork >= 1536
    requires ChainOk(drive.sectors, catalog.name, catalog.dataFork, chain, end) && FitsDisk(fork, end)
    requires forall k: nat | k < |chain| :: ReadSector(drive.sectors, chain[k]).forkName != fork.forkName
    modifies drive
    ensures ChainOk(drive.sectors, catalog.name, catalog.dataFork, chain + [end], EndOf(fork, end))
    ensures if name == fork.forkName then before == None && after == Some(ReadSector(drive.sectors, end))
            else after == before
  {
    ghost var i, j;
    before, i := drive.FindFork(catalog, name, true, chain, end);
    ghost var disk := drive.sectors;
    var ok, written, at := drive.CreateFork(fork, Some(catalog), chain, end);
    Appended(disk, catalog.name, catalog.dataFork, chain, end, fork, written.prev, drive.sectors);
    after, j := drive.FindFork(catalog, name, true, chain + [end], EndOf(fork, end));
    FoundAsBefore(disk, drive.sectors, catalog.name, catalog.dataFork, chain, end);
    assert (chain + [end])[|chain|] == end;
    FoundAgain(disk, drive.sectors, chain, end, name, i, j);
  }

  lemma FoundAgain(disk: Sectors, disk': Sectors, chain: seq<U64>, end: U64, name: string, i: nat, j: nat)
    requires NamedAt(disk, chain, name, i) && NamedAt(disk', chain + [end], name, j)
    requires forall k: nat | k < |chain| ::
               (chain + [end])[k] == chain[k] && ReadSector(disk', chain[k]) == ReadSector(disk, chain[k])
    ensures i < |chain| ==> j == i
    ensures i == |chain| ==> j == if ReadSector(disk', end).forkName == name then i else i + 1
  {
    var all := chain + [end];
    assert all[|chain|] == end;
    if i < |chain| {
      assert ReadSector(disk', all[i]).forkName == name;
      assert !(j < i) && !(i < j);
    } else {
      assert !(j < |chain|);
    }
  }

  lemma FoundAsBefore(disk: Sectors, disk': Sectors, cat: string, start: nat, chain: seq<U64>, end: U64)
    requires ChainOk(disk, cat, start, chain, end)
    requires forall l: nat | l != end :: ReadSector(disk', l) == ReadSector(disk, l)
    ensures forall k: nat | k < |chain| ::
              (chain + [end])[k] == chain[k] && ReadSector(disk', chain[k]) == ReadSector(disk, chain[k])
  {
    forall k: nat | k < |chain|
      ensures ReadSector(disk', chain[k]) == ReadSector(disk, chain[k])
    {
      ExtentsDisjoint(disk, cat, start, chain, end, k, |chain|);
    }
  }

  // ---- any number of forks ---------------------------------------------------------------

  /// disk' is what creating the forks one after the other makes of disk.
  ghost predicate PutsAll(disk: Sectors, chain: seq<U64>, end: U64, forks: seq<Fork>, disk': Sectors)
    decreases |forks|
  {
    if forks == [] then disk' == disk
    else
      && FitsDisk(forks[0], end)
      && exists at, written, disk1 ::
           Puts(disk, chain, end, forks[0], at, written, disk1)
           && PutsAll(disk1, chain + [end], EndOf(forks[0], end), forks[1..], disk')
  }

  /// The sectors of the new headers.
  function Places(end: nat, forks: seq<Fork>): (lbas: seq<nat>)
    ensures |lbas| == |forks|
    decreases |forks|
  {
    if forks == [] then [] else [end] + Places(EndOf(forks[0], end), forks[1..])
  }

  function EndAfter(end: nat, forks: seq<Fork>): nat
    decreases |forks|
  {
    if forks == [] then end else EndAfter(EndOf(forks[0], end), forks[1..])
  }

  /// Forks CreateFork takes, none with the name of another or of one in the chain.
  ghost predicate NewForks(disk: Sectors, cat: string, chain: seq<U64>, forks: seq<Fork>) {
    && (forall f :: f in forks ==> f.forkName != "" && f.catalogName == cat && f.dataSize > 0)
    && (forall j: nat, k: nat | j < k < |forks| :: forks[j].forkName != forks[k].forkName)
    && (forall f, k: nat :: f in forks && k < |chain| ==> ReadSector(disk, chain[k]).forkName != f.forkName)
  }

  /// The fork sits at that sector: its own fields, marked as created.
  predicate SitsAt(disk: Sectors, lba: nat, f: Fork) {
    var g := ReadSector(disk, lba);
    && Created(g) && g.forkName == f.forkName && g.catalogName == f.catalogName && g.dataSize == f.dataSize
    && g.rest == f.rest && g.dataOffset == lba + 1
  }

  /// The sectors of the chain read as before.
  ghost predicate Unchanged(disk: Sectors, disk': Sectors, chain: seq<U64>) {
    forall lba :: lba in chain ==> ReadSector(disk', lba) == ReadSector(disk, lba)
  }

  ghost predicate AllSit(disk: Sectors, lbas: seq<nat>, forks: seq<Fork>) {
    |lbas| == |forks| && forall k: nat | k < |forks| :: SitsAt(disk, lbas[k], forks[k])
  }

  // The first of the forks, and what is left to do.
  lemma FirstCreated(disk: Sectors, cat: string, start: nat, chain: seq<U64>, end: U64, forks: seq<Fork>, f: Fork,
                     at: nat, written: Fork, disk1: Sectors)
    requires ChainOk(disk, cat, start, chain, end) && NewForks(disk, cat, chain, forks)
    requires forks != [] && f == forks[0] && FitsDisk(f, end) && Puts(disk, chain, end, f, at, written, disk1)
    ensures ChainOk(disk1, cat, start, chain + [end], EndOf(f, end)) && SitsAt(disk1, end, f)
    ensures Unchanged(disk, disk1, chain) && NewForks(disk1, cat, chain + [end], forks[1..])
  {
    assert f in forks;
    assert at == |chain|;
    var prev := if chain == [] then end else chain[|chain| - 1];
    Appended(disk, cat, start, chain, end, f, prev, disk1);
    FoundAsBefore(disk, disk1, cat, start, chain, end);
    hide ChainOk;
    FirstSits(f, end, prev, disk1);
    RestNew(disk, cat, chain, end, forks, disk1);
  }

  lemma FirstSits(f: Fork, end: U64, prev: U64, disk1: Sectors)
    requires FitsDisk(f, end) && ReadSector(disk1, end) == Linked(f, end, prev) && f.dataSize > 0
    ensures SitsAt(disk1, end, f)
  {
    LinkedNext(f, end, prev);
    OrThenAnd(f.flags, FLAG_CREATED);
  }

  lemma RestNew(disk: Sectors, cat: string, chain: seq<U64>, end: U64, forks: seq<Fork>, disk1: Sectors)
    requires NewForks(disk, cat, chain, forks) && forks != [] && ReadSector(disk1, end).forkName == forks[0].forkName
    requires forall k: nat | k < |chain| :: ReadSector(disk1, chain[k]) == ReadSector(disk, chain[k])
    ensures NewForks(disk1, cat, chain + [end], forks[1..])
  {
    assert forall f :: f in forks[1..] ==> f in forks;
    forall f, k: nat | f in forks[1..] && k < |chain + [end]|
      ensures ReadSector(disk1, (chain + [end])[k]).forkName != f.forkName
    {
      var j :| 0 <= j < |forks[1..]| && forks[1..][j] == f;
      assert forks[j + 1] == f;
    }
  }

  /// However many forks are created under new names, as long as their sums fit: the chain is well
  /// formed, has one header more for each, and the older forks are as they were.
  lemma {:induction false} CreatedAll(disk: Sectors, cat: string, start: nat, chain: seq<U64>, end: U64,
                                      forks: seq<Fork>, disk': Sectors)
    returns (chain': seq<U64>, end': U64)
    requires ChainOk(disk, cat, start, chain, end) && NewForks(disk, cat, chain, forks)
    requires PutsAll(disk, chain, end, forks, disk')
    ensures chain' == chain + Places(end, forks) && end' == EndAfter(end, forks)
    ensures ChainOk(disk', cat, start, chain', end')
    ensures Unchanged(disk, disk', chain) && AllSit(disk', Places(end, forks), forks)
    decreases |forks|
  {
    if forks == [] {
      chain', end' := chain, end;
    } else {
      hide ChainOk, Puts, PutsAll, Places, EndAfter, NewForks, SitsAt, Unchanged, AllSit;
      var f, rest := forks[0], forks[1..];
      var at, written, disk1, end1 := FirstPut(disk, chain, end, forks, f, rest, disk');
      FirstCreated(disk, cat, start, chain, end, forks, f, at, written, disk1);
      chain', end' := CreatedAll(disk1, cat, start, chain + [end], end1, rest, disk');
      MoreSit(disk, disk1, disk', chain, end, f, Places(end1, rest), rest);
      MorePlaces(chain, end, forks, f, rest, end1);
    }
  }

  lemma FirstPut(disk: Sectors, chain: seq<U64>, end: U64, forks: seq<Fork>, f: Fork, rest: seq<Fork>, disk': Sectors)
    returns (at: nat, written: Fork, disk1: Sectors, end1: U64)
    requires PutsAll(disk, chain, end, forks, disk') && forks != [] && f == forks[0] && rest == forks[1..]
    ensures FitsDisk(f, end) && end1 == EndOf(f, end) && Puts(disk, chain, end, f, at, written, disk1)
    ensures PutsAll(disk1, chain + [end], end1, rest, disk')
  {
    hide Puts;
    at, written, disk1 :| Puts(disk, chain, end, f, at, written, disk1)
                          && PutsAll(disk1, chain + [end], EndOf(f, end), rest, disk');
    end1 := EndOf(f, end);
  }

  lemma MorePlaces(chain: seq<U64>, end: U64, forks: seq<Fork>, f: Fork, rest: seq<Fork>, end1: U64)
    requires forks != [] && f == forks[0] && rest == forks[1..] && end1 == EndOf(f, end)
    ensures chain + Places(end, forks) == chain + [end] + Places(end1, rest)
    ensures EndAfter(end, forks) == EndAfter(end1, rest) && forks == [f] + rest
    ensures Places(end, forks) == [end] + Places(end1, rest)
  {
    var more := Places(end1, rest);
    assert Places(end, forks) == [end] + more && EndAfter(end, forks) == EndAfter(end1, rest);
    hide Places, EndAfter;
    assert chain + ([end] + more) == chain + [end] + more;
  }

  lemma MoreSit(disk: Sectors, disk1: Sectors, disk': Sectors, chain: seq<U64>, end: U64, f: Fork,
                lbas: seq<nat>, rest: seq<Fork>)
    requires Unchanged(disk, disk1, chain) && Unchanged(disk1, disk', chain + [end])
    requires SitsAt(disk1, end, f) && AllSit(disk', lbas, rest)
    ensures Unchanged(disk, disk', chain) && AllSit(disk', [end] + lbas, [f] + rest)
  {
    hide ReadSector;
    assert end in chain + [end] && forall lba :: lba in chain ==> lba in chain + [end];
  }

  /// And FindFork answers with each of them.
  lemma AllFound(disk: Sectors, catalog: Catalog, start: nat, chain: seq<U64>, end: U64, forks: seq<Fork>,
                 disk': Sectors)
    returns (chain': seq<U64>, end': U64)
    requires ChainOk(disk, catalog.name, start, chain, end) && NewForks(disk, catalog.name, chain, forks)
    requires PutsAll(disk, chain, end, forks, disk')
    ensures ChainOk(disk', catalog.name, start, chain', end') && |chain'| == |chain| + |forks|
    ensures forall k: nat | k < |forks| :: Finds(disk', catalog, chain', |chain| + k, forks[k])
    ensures forall k: nat | k < |chain| ::
              chain'[k] == chain[k] && NamedAt(disk', chain', ReadSector(disk, chain[k]).forkName, k)
              && ReadSector(disk', chain[k]) == ReadSector(disk, chain[k])
  {
    chain', end' := CreatedAll(disk, catalog.name, start, chain, end, forks, disk');
    forall k: nat | k < |chain'|
      ensures NamedAt(disk', chain', ReadSector(disk', chain'[k]).forkName, k)
    {
      NamesApart(disk', catalog.name, start, chain', end', k);
    }
    hide ChainOk, NamedAt, NewForks, PutsAll, ReadSector;
    var lbas := Places(end, forks);
    forall k: nat | k < |forks|
      ensures Finds(disk', catalog, chain', |chain| + k, forks[k])
    {
      assert SitsAt(disk', lbas[k], forks[k]) && chain'[|chain| + k] == lbas[k];
    }
    forall k: nat | k < |chain|
      ensures chain'[k] == chain[k] && ReadSector(disk', chain[k]) == ReadSector(disk, chain[k])
    {
      assert chain[k] in chain;
    }
  }

  /// The name leads to header k, which is that of the fork.
  ghost predicate Finds(disk: Sectors, catalog: Catalog, chain: seq<U64>, k: nat, f: Fork) {
    && k < |chain| && SitsAt(disk, chain[k], f) && NamedAt(disk, chain, f.forkName, k)
    && Found(disk, catalog, chain, f.forkName, k) == Some(ReadSector(disk, chain[k]))
  }

  lemma NamesApart(disk: Sectors, cat: string, start: nat, chain: seq<U64>, end: nat, k: nat)
    requires ChainOk(disk, cat, start, chain, end) && k < |chain|
    ensures NamedAt(disk, chain, ReadSector(disk, chain[k]).forkName, k)
  {
  }
}
