/**
 From firmware memory descriptors to heap pages: the descriptor loop of bootloader/src/main.rs, the
 region table of bootloader_api/src/lib.rs, the frame allocator of src/memory.rs and the heap
 mapping of src/allocator.rs.
 */
module BootMap {
  import opened Machine

  const MAX_REGIONS := 256

  datatype RegionType =
    | Usable | InUse | Reserved | AcpiReclaimable | AcpiNvs | BadMemory
    | Kernel | KernelStack | PageTable | Bootloader | UnknownUefi(code: nat)

  /** Physical addresses start up to, but not including, end. */
  datatype Region = Region(start: nat, end: nat, kind: RegionType)

  const EMPTY_REGION := Region(0, 0, Usable)

  /** A firmware memory descriptor: whole pages from `start` on. */
  datatype Descriptor = Descriptor(conventional: bool, start: nat, pages: nat) {
    function End(): nat { start + pages * PAGE }
  }

  function RegionOf(d: Descriptor): Region {
    Region(d.start, d.End(), if d.conventional then Usable else Reserved)
  }

  function RegionsOf(ds: seq<Descriptor>): (rs: seq<Region>)
    ensures |rs| == |ds|
  {
    seq(|ds|, i requires 0 <= i < |ds| => RegionOf(ds[i]))
  }

  /** The descriptors that fit the table. */
  function Kept(ds: seq<Descriptor>): seq<Descriptor> {
    if |ds| <= MAX_REGIONS then ds else ds[..MAX_REGIONS]
  }

  class MemoryMap {
    const regions: array<Region>
    var nextFree: nat

    ghost predicate Valid()
      reads this
    {
      regions.Length == MAX_REGIONS && nextFree <= MAX_REGIONS
    }

    /** `iter` */
    function Iter(): seq<Region>
      requires Valid()
      reads this, regions
    {
      regions[..nextFree]
    }

    constructor ()
      ensures Valid() && Iter() == [] && fresh(regions) && regions.Length == 256
    {
      regions := new Region[MAX_REGIONS](_ => EMPTY_REGION);
      nextFree := 0;
    }

    /** A full table drops the region. */
    method AddRegion(r: Region)
      requires Valid()
      modifies this, regions
      ensures Valid()
      ensures Iter() == if |old(Iter())| < 256 then old(Iter()) + [r] else old(Iter())
    {
      if nextFree < regions.Length {
        regions[nextFree] := r;
        nextFree := nextFree + 1;
      }
    }

    /** The loop over the firmware's map. */
    method Populate(ds: seq<Descriptor>)
      requires Valid() && Iter() == []
      modifies this, regions
      ensures Valid() && Iter() == RegionsOf(Kept(ds))
    {
      for i := 0 to |ds|
        invariant Valid() && Iter() == RegionsOf(Kept(ds[..i]))
      {
        var kind := if ds[i].conventional then Usable else Reserved;
        AddRegion(Region(ds[i].start, ds[i].start + ds[i].pages * PAGE, kind));
        assert i < MAX_REGIONS ==> RegionsOf(ds[..i + 1]) == RegionsOf(ds[..i]) + [RegionOf(ds[i])];
        assert i >= MAX_REGIONS ==> Kept(ds[..i + 1]) == Kept(ds[..i]);
      }
      assert ds[..|ds|] == ds;
    }
  }
}

module Frames {
  import opened Machine
  import opened BootMap

  /** `(start..end).step_by(4096)`, each address as its frame, `PhysFrame::containing_address`. */
  function StepBy(start: nat, end: nat): seq<nat>
    decreases end - start
  {
    if start >= end then [] else [PageBase(start)] + StepBy(start + PAGE, end)
  }

  /** `usable_frames` */
  function UsableFrames(rs: seq<Region>): seq<nat> {
    if rs == [] then []
    else (if rs[0].kind == Usable then StepBy(rs[0].start, rs[0].end) else []) + UsableFrames(rs[1..])
  }

  function UsablePages(ds: seq<Descriptor>): nat {
    if ds == [] then 0 else (if ds[0].conventional then ds[0].pages else 0) + UsablePages(ds[1..])
  }

  function NthFrame(d: Descriptor, k: nat): nat { PageBase(d.start) + k * PAGE }

  lemma {:induction false} FramesOfRegion(start: nat, pages: nat)
    ensures var fs := StepBy(start, start + pages * PAGE);
            |fs| == pages && forall k | 0 <= k < pages :: fs[k] == PageBase(start) + k * PAGE
    decreases pages
  {
    if pages > 0 {
      FramesOfRegion(start + PAGE, pages - 1);
      assert (start + PAGE) + (pages - 1) * PAGE == start + pages * PAGE;
      var fs := StepBy(start, start + pages * PAGE);
      forall k | 0 <= k < pages ensures fs[k] == PageBase(start) + k * PAGE {
        if k > 0 {
          assert fs[k] == StepBy(start + PAGE, start + pages * PAGE)[k - 1];
        }
      }
    }
  }

  /** Every frame is a page of some conventional descriptor. */
  lemma {:induction false} FrameOrigin(ds: seq<Descriptor>, i: nat) returns (j: nat, k: nat)
    requires i < |UsableFrames(RegionsOf(ds))|
    ensures j < |ds| && ds[j].conventional && k < ds[j].pages
    ensures UsableFrames(RegionsOf(ds))[i] == NthFrame(ds[j], k)
    decreases |ds|
  {
    assert RegionsOf(ds)[1..] == RegionsOf(ds[1..]);
    FramesOfRegion(ds[0].start, ds[0].pages);
    var n := if ds[0].conventional then ds[0].pages else 0;
    if i < n {
      j, k := 0, i;
    } else {
      j, k := FrameOrigin(ds[1..], i - n);
      j := j + 1;
    }
  }

  /** And where each page's frame is in the stream: behind those of all the conventional pages before
      it. */
  lemma {:induction false} FrameAt(ds: seq<Descriptor>, j: nat, k: nat)
    requires j < |ds| && ds[j].conventional && k < ds[j].pages
    ensures UsablePages(ds[..j]) + k < |UsableFrames(RegionsOf(ds))|
    ensures UsableFrames(RegionsOf(ds))[UsablePages(ds[..j]) + k] == NthFrame(ds[j], k)
    decreases j
  {
    assert RegionsOf(ds)[1..] == RegionsOf(ds[1..]);
    FramesOfRegion(ds[0].start, ds[0].pages);
    if j > 0 {
      FrameAt(ds[1..], j - 1, k);
      assert ds[..j][1..] == ds[1..][..j - 1];
    }
  }

  /** As many frames as conventional pages were kept, no more and no fewer. */
  lemma {:induction false} FrameCount(ds: seq<Descriptor>)
    ensures |UsableFrames(RegionsOf(ds))| == UsablePages(ds)
    decreases |ds|
  {
    if ds != [] {
      assert RegionsOf(ds)[1..] == RegionsOf(ds[1..]);
      FramesOfRegion(ds[0].start, ds[0].pages);
      FrameCount(ds[1..]);
    }
  }

  predicate Apart(a: Descriptor, b: Descriptor) { a.End() <= b.start || b.End() <= a.start }

  predicate Disjoint(ds: seq<Descriptor>) {
    forall i, j | 0 <= i < j < |ds| :: Apart(ds[i], ds[j])
  }

  predicate Distinct(fs: seq<nat>) {
    forall i, j | 0 <= i < j < |fs| :: fs[i] != fs[j]
  }

  lemma ApartFrames(a: Descriptor, b: Descriptor, k: nat, m: nat)
    requires Apart(a, b) && k < a.pages && m < b.pages
    ensures NthFrame(a, k) != NthFrame(b, m)
  {
    if a.End() <= b.start {
      PageBaseEnd(a, k, b.start);
    } else {
      PageBaseEnd(b, m, a.start);
    }
  }

  lemma PageBaseEnd(d: Descriptor, k: nat, later: nat)
    requires k < d.pages && d.End() <= later
    ensures NthFrame(d, k) + PAGE <= PageBase(later)
  {
    assert (k + 1) * PAGE <= d.pages * PAGE;
    assert d.start + (k + 1) * PAGE <= later;
    PageBaseShift(d.start, k + 1);
    PageBaseMonotone(d.start + (k + 1) * PAGE, later);
  }

  lemma PageBaseShift(a: nat, n: nat)
    ensures PageBase(a + n * PAGE) == PageBase(a) + n * PAGE
  {
  }

  lemma PageBaseMonotone(a: nat, b: nat)
    requires a <= b
    ensures PageBase(a) <= PageBase(b)
  {
  }

  /** No frame is handed out twice.  Descriptors are whole pages long, so this needs them
      disjoint but not aligned. */
  lemma {:induction false} FramesDistinct(ds: seq<Descriptor>)
    requires Disjoint(ds)
    ensures Distinct(UsableFrames(RegionsOf(ds)))
    decreases |ds|
  {
    if ds != [] {
      var rest := UsableFrames(RegionsOf(ds[1..]));
      assert RegionsOf(ds)[1..] == RegionsOf(ds[1..]);
      FramesDistinct(ds[1..]);
      if ds[0].conventional {
        FramesOfRegion(ds[0].start, ds[0].pages);
        var own := StepBy(ds[0].start, ds[0].End());
        forall i: nat, j: nat | i < |own| && j < |rest| ensures own[i] != rest[j] {
          var d, k := FrameOrigin(ds[1..], j);
          ApartFrames(ds[0], ds[d + 1], i, k);
        }
        DistinctAppend(own, rest);
      }
    }
  }

  lemma DistinctAppend(a: seq<nat>, b: seq<nat>)
    requires Distinct(a) && Distinct(b)
    requires forall i: nat, j: nat | i < |a| && j < |b| :: a[i] != b[j]
    ensures Distinct(a + b)
  {
  }

  predicate Inside(f: nat, d: Descriptor) { d.start <= f && f + PAGE <= d.End() }

  /** All the frames of a descriptor lie inside it exactly when it starts on a page boundary. */
  lemma FramesInside(d: Descriptor)
    requires d.pages > 0
    ensures (forall k: nat | k < d.pages :: Inside(NthFrame(d, k), d)) <==> d.start % PAGE == 0
  {
    if d.start % PAGE == 0 {
      forall k: nat | k < d.pages ensures Inside(NthFrame(d, k), d) {
        assert (k + 1) * PAGE <= d.pages * PAGE;
      }
    } else {
      assert !Inside(NthFrame(d, 0), d);
    }
  }

  predicate Aligned(ds: seq<Descriptor>) {
    forall d | d in ds :: d.start % PAGE == 0
  }

  /** Of all the firmware's descriptors, kept or dropped, a frame touches one only: a conventional
      one, which holds it whole. */
  lemma FrameOwner(ds: seq<Descriptor>, i: nat) returns (j: nat)
    requires Disjoint(ds) && Aligned(ds)
    requires i < |UsableFrames(RegionsOf(Kept(ds)))|
    ensures var f := UsableFrames(RegionsOf(Kept(ds)))[i];
            && j < |ds| && ds[j].conventional && Inside(f, ds[j])
            && forall m | 0 <= m < |ds| && m != j :: f + PAGE <= ds[m].start || ds[m].End() <= f
  {
    var k;
    j, k := FrameOrigin(Kept(ds), i);
    assert ds[j] in ds;
    FramesInside(ds[j]);
  }
}

module FrameAllocation {
  import opened Machine
  import opened BootMap
  import opened Frames

  function Nth(fs: seq<nat>, n: nat): Option<nat> {
    if n < |fs| then Some(fs[n]) else None
  }

  class BootInfoFrameAllocator {
    const memoryMap: MemoryMap
    var next: nat

    function Available(): seq<nat>
      requires memoryMap.Valid()
      reads memoryMap, memoryMap.regions
    {
      UsableFrames(memoryMap.Iter())
    }

    constructor (memoryMap: MemoryMap)
      ensures this.memoryMap == memoryMap && next == 0
    {
      this.memoryMap := memoryMap;
      next := 0;
    }

    method AllocateFrame() returns (r: Option<nat>)
      requires memoryMap.Valid()
      modifies this
      ensures next == old(next) + 1 && r == Nth(Available(), old(next))
    {
      var frames := UsableFrames(memoryMap.Iter());
      r := if next < |frames| then Some(frames[next]) else None;
      next := next + 1;
    }
  }

  /** n calls in a row. */
  method Drain(alloc: BootInfoFrameAllocator, n: nat) returns (results: seq<Option<nat>>)
    requires alloc.memoryMap.Valid()
    modifies alloc
    ensures |results| == n && alloc.next == old(alloc.next) + n
    ensures forall k | 0 <= k < n :: results[k] == Nth(old(alloc.Available()), old(alloc.next) + k)
  {
    results := [];
    for i := 0 to n
      invariant alloc.memoryMap.Valid() && alloc.Available() == old(alloc.Available())
      invariant |results| == i && alloc.next == old(alloc.next) + i
      invariant forall k | 0 <= k < i :: results[k] == Nth(old(alloc.Available()), old(alloc.next) + k)
    {
      var frame := alloc.AllocateFrame();
      results := results + [frame];
    }
  }

  /** Of any two calls on a new allocator: as many succeed as conventional pages were kept, before
      all that fail, and they return different frames. */
  lemma AllocationTrace(ds: seq<Descriptor>, n: nat, m: nat)
    requires Disjoint(Kept(ds)) && n < m
    ensures var fs := UsableFrames(RegionsOf(Kept(ds)));
            && (Nth(fs, n).Some? <==> n < UsablePages(Kept(ds)))
            && (Nth(fs, m).Some? ==> Nth(fs, n).Some? && Nth(fs, n) != Nth(fs, m))
  {
    FrameCount(Kept(ds));
    FramesDistinct(Kept(ds));
  }

  /** f is page p of conventional descriptor j. */
  predicate PageOf(ds: seq<Descriptor>, j: nat, p: nat, f: nat) {
    j < |ds| && ds[j].conventional && p < ds[j].pages && f == NthFrame(ds[j], p)
  }

  /** The first results of a new allocator. */
  predicate FirstResults(ds: seq<Descriptor>, results: seq<Option<nat>>) {
    forall k | 0 <= k < |results| :: results[k] == Nth(UsableFrames(RegionsOf(ds)), k)
  }

  lemma ResultsArePages(ds: seq<Descriptor>, results: seq<Option<nat>>, k: nat)
    requires FirstResults(ds, results) && k < |results|
    ensures results[k].Some? <==> k < UsablePages(ds)
    ensures results[k].Some? ==> exists j: nat, p: nat :: PageOf(ds, j, p, results[k].value)
  {
    FrameCount(ds);
    if k < UsablePages(ds) {
      var j, p := FrameOrigin(ds, k);
      assert PageOf(ds, j, p, UsableFrames(RegionsOf(ds))[k]);
    }
  }

  /** Every page of every conventional descriptor has its place, behind the conventional pages of
      the descriptors before it. */
  predicate InOrder(ds: seq<Descriptor>, results: seq<Option<nat>>) {
    forall j: nat, p: nat | j < |ds| && ds[j].conventional && p < ds[j].pages ::
      Placed(results, UsablePages(ds[..j]) + p, NthFrame(ds[j], p))
  }

  predicate Placed(results: seq<Option<nat>>, k: nat, f: nat) {
    k < |results| ==> results[k] == Some(f)
  }

  lemma ResultsInOrder(ds: seq<Descriptor>, results: seq<Option<nat>>)
    requires FirstResults(ds, results)
    ensures InOrder(ds, results)
  {
    forall j: nat, p: nat | j < |ds| && ds[j].conventional && p < ds[j].pages
      ensures Placed(results, UsablePages(ds[..j]) + p, NthFrame(ds[j], p))
    {
      FrameAt(ds, j, p);
    }
  }

  lemma ResultsDiffer(ds: seq<Descriptor>, results: seq<Option<nat>>)
    requires FirstResults(ds, results) && Disjoint(ds)
    ensures forall j, k | 0 <= j < k < |results| && results[k].Some? :: results[j] != results[k]
  {
    FramesDistinct(ds);
  }

  /** From the firmware's descriptors to the results of n allocations: the pages of the kept
      conventional descriptors, in order and each once, then nothing for ever. */
  method AllocateFromFirmware(ds: seq<Descriptor>, n: nat) returns (results: seq<Option<nat>>)
    requires Disjoint(Kept(ds))
    ensures |results| == n && FirstResults(Kept(ds), results) && InOrder(Kept(ds), results)
    ensures forall k: nat | k < n :: results[k].Some? <==> k < UsablePages(Kept(ds))
    ensures forall k: nat | k < n && results[k].Some? ::
              exists j: nat, p: nat :: PageOf(Kept(ds), j, p, results[k].value)
    ensures forall j, k | 0 <= j < k < n && results[k].Some? :: results[j] != results[k]
  {
    var memoryMap := new MemoryMap();
    memoryMap.Populate(ds);
    var alloc := new BootInfoFrameAllocator(memoryMap);
    results := Drain(alloc, n);
    forall k: nat | k < n { ResultsArePages(Kept(ds), results, k); }
    ResultsInOrder(Kept(ds), results);
    ResultsDiffer(Kept(ds), results);
  }
}

module KernelHeap {
  import opened Machine
  import opened BootMap
  import opened Frames
  import opened FrameAllocation

  const HEAP_START := 0x4444_4444_0000
  const HEAP_SIZE := 256 * 1024

  const FIRST_PAGE: nat := HEAP_START / PAGE
  const LAST_PAGE: nat := (HEAP_START + HEAP_SIZE - 1) / PAGE
  const HEAP_PAGES: nat := LAST_PAGE - FIRST_PAGE + 1

  datatype MapError = FrameAllocationFailed | PageAlreadyMapped | ParentEntryHugePage

  /** What `map_to` meets in the page tables: how many new tables it needs, or a huge page. */
  datatype Tables = NewTables(count: nat) | HugePage(count: nat)

  class Mapper {
    var mappings: map<nat, nat>
    /** The frames taken for page tables, in order. */
    var tableFrames: seq<nat>

    constructor (mappings: map<nat, nat>)
      ensures this.mappings == mappings && tableFrames == []
    {
      this.mappings := mappings;
      tableFrames := [];
    }

    /** `map_to`, as far as frames are concerned: it takes table frames from the same allocator,
        may fail on the way, and maps a page that was not mapped. */
    method MapTo(page: nat, frame: nat, alloc: BootInfoFrameAllocator, tables: Tables) returns (r: Option<MapError>)
      requires alloc.memoryMap.Valid()
      modifies this, alloc
      ensures old(alloc.next) <= alloc.next
      ensures old(tableFrames) <= tableFrames
      ensures old(alloc.next) <= |alloc.Available()| ==>
                (r.None? <==> && tables.NewTables? && page !in old(mappings)
                              && old(alloc.next) + tables.count <= |alloc.Available()|)
      ensures old(alloc.next) <= |alloc.Available()| ==>
                (r == Some(FrameAllocationFailed) <==> old(alloc.next) + tables.count > |alloc.Available()|)
      ensures r.None? ==>
                && page !in old(mappings) && mappings == old(mappings)[page := frame]
                && alloc.next == old(alloc.next) + tables.count
      ensures r.None? && old(alloc.next) <= |alloc.Available()| ==>
                && alloc.next <= |alloc.Available()|
                && tableFrames == old(tableFrames) + alloc.Available()[old(alloc.next)..alloc.next]
      ensures r.Some? ==> mappings == old(mappings)
    {
      var count := tables.count;
      ghost var before := tableFrames;
      ghost var fs := alloc.Available();
      ghost var n0 := alloc.next;
      for i := 0 to count
        invariant alloc.next == n0 + i
        invariant tableFrames == before + (if i == 0 then [] else if alloc.next <= |fs| then fs[n0..alloc.next] else [])
        invariant i > 0 ==> alloc.next <= |fs|
        invariant mappings == old(mappings)
      {
        var table := alloc.AllocateFrame();
        if table.None? {
          return Some(FrameAllocationFailed);
        }
        tableFrames := tableFrames + [table.value];
        assert fs[n0..alloc.next] == fs[n0..alloc.next - 1] + [table.value];
      }
      if tables.HugePage? {
        return Some(ParentEntryHugePage);
      }
      if page in mappings {
        return Some(PageAlreadyMapped);
      }
      mappings := mappings[page := frame];
      return None;
    }
  }

  /** The k-th heap page. */
  function PageNo(k: nat): nat { FIRST_PAGE + k }

  predicate IsHeapPage(p: nat, n: nat) { FIRST_PAGE <= p < FIRST_PAGE + n }

  predicate HeapMapped(m: map<nat, nat>, n: nat) {
    forall k: nat | k < n :: PageNo(k) in m
  }

  /** The frames of the first n heap pages. */
  function HeapFrames(m: map<nat, nat>, n: nat): seq<nat>
    requires HeapMapped(m, n)
  {
    seq(n, k requires 0 <= k < n => m[PageNo(k)])
  }

  /** The first n heap pages were added to the mappings, and nothing else changed. */
  ghost predicate OnlyHeapAdded(was: map<nat, nat>, m: map<nat, nat>, n: nat) {
    && (forall p :: p in m <==> p in was || IsHeapPage(p, n))
    && (forall p | p in was :: !IsHeapPage(p, n) && m[p] == was[p])
  }

  lemma OneMorePage(was: map<nat, nat>, m: map<nat, nat>, n: nat, f: nat)
    requires OnlyHeapAdded(was, m, n) && PageNo(n) !in m
    ensures OnlyHeapAdded(was, m[PageNo(n) := f], n + 1)
    ensures HeapMapped(m, n) && HeapMapped(m[PageNo(n) := f], n + 1)
    ensures HeapFrames(m[PageNo(n) := f], n + 1) == HeapFrames(m, n) + [f]
  {
    forall k: nat | k < n ensures PageNo(k) in m {
      assert IsHeapPage(PageNo(k), n);
    }
  }

  /** The frames of a stretch are those of the heap and those of the tables, each once. */
  ghost predicate Shared(heap: seq<nat>, tables: seq<nat>, stretch: seq<nat>) {
    multiset(heap) + multiset(tables) == multiset(stretch)
  }

  lemma ShareMore(heap: seq<nat>, tables: seq<nat>, stretch: seq<nat>, f: nat, more: seq<nat>)
    requires Shared(heap, tables, stretch)
    ensures Shared(heap + [f], tables + more, stretch + [f] + more)
  {
  }

  /** The allocator's position, the mappings and the table frames. */
  datatype HeapState = HeapState(next: nat, mappings: map<nat, nat>, tables: seq<nat>)

  /** k heap pages on from `was`: the frames drawn since have been shared out, one each, between
      those pages and new page tables. */
  ghost predicate Progress(fs: seq<nat>, was: HeapState, s: HeapState, k: nat) {
    && was.next <= s.next <= |fs| && was.tables <= s.tables
    && OnlyHeapAdded(was.mappings, s.mappings, k) && HeapMapped(s.mappings, k)
    && Shared(HeapFrames(s.mappings, k), s.tables[|was.tables|..], fs[was.next..s.next])
  }

  /** The state after page k, when `next` is then the allocator's position. */
  function Stepped(fs: seq<nat>, s: HeapState, k: nat, next: nat): HeapState
    requires s.next < next <= |fs|
  {
    HeapState(next, s.mappings[PageNo(k) := fs[s.next]], s.tables + fs[s.next + 1..next])
  }

  lemma ProgressStep(fs: seq<nat>, was: HeapState, s: HeapState, k: nat, next: nat)
    requires Progress(fs, was, s, k) && s.next < next <= |fs| && PageNo(k) !in s.mappings
    ensures Progress(fs, was, Stepped(fs, s, k, next), k + 1)
  {
    var t := Stepped(fs, s, k, next);
    OneMorePage(was.mappings, s.mappings, k, fs[s.next]);
    var more := fs[s.next + 1..next];
    ShareMore(HeapFrames(s.mappings, k), s.tables[|was.tables|..], fs[was.next..s.next], fs[s.next], more);
    assert t.tables[|was.tables|..] == s.tables[|was.tables|..] + fs[s.next + 1..next];
    assert fs[was.next..next] == fs[was.next..s.next] + [fs[s.next]] + fs[s.next + 1..next];
  }

  /** Page k was mapped between s and t. */
  predicate Advances(fs: seq<nat>, s: HeapState, t: HeapState, k: nat) {
    s.next < t.next <= |fs| && PageNo(k) !in s.mappings && t == Stepped(fs, s, k, t.next)
  }

  /** The states between the pages. */
  predicate Trace(fs: seq<nat>, states: seq<HeapState>, tables: seq<Tables>) {
    && |states| <= |tables| + 1
    && forall i | 0 < i < |states| ::
         && Advances(fs, states[i - 1], states[i], i - 1)
         && states[i].next == states[i - 1].next + 1 + tables[i - 1].count
  }

  lemma {:induction false} TraceProgress(fs: seq<nat>, states: seq<HeapState>, tables: seq<Tables>, k: nat)
    requires Trace(fs, states, tables) && k < |states| && states[0].next <= |fs|
    ensures Progress(fs, states[0], states[k], k)
  {
    if k > 0 {
      TraceProgress(fs, states, tables, k - 1);
      assert Advances(fs, states[k - 1], states[k], k - 1);
      ProgressStep(fs, states[0], states[k - 1], k - 1, states[k].next);
    } else {
      assert fs[states[0].next..states[0].next] == [];
    }
  }

  ghost function StateOf(mapper: Mapper, alloc: BootInfoFrameAllocator): HeapState
    reads mapper, alloc
  {
    HeapState(alloc.next, mapper.mappings, mapper.tableFrames)
  }

  /** One page of the loop: a frame for the page itself, then those for new page tables. */
  method MapHeapPage(mapper: Mapper, alloc: BootInfoFrameAllocator, k: nat, tables: Tables)
    returns (r: Option<MapError>)
    requires alloc.memoryMap.Valid()
    modifies mapper, alloc
    ensures alloc.memoryMap.Valid() && alloc.Available() == old(alloc.Available())
    ensures r.None? <==> && tables.NewTables? && PageNo(k) !in old(mapper.mappings)
                         && old(alloc.next) + 1 + tables.count <= |alloc.Available()|
    ensures r == Some(FrameAllocationFailed) <==> old(alloc.next) + 1 + tables.count > |alloc.Available()|
    ensures r.None? ==>
              && Advances(alloc.Available(), old(StateOf(mapper, alloc)), StateOf(mapper, alloc), k)
              && alloc.next == old(alloc.next) + 1 + tables.count
    ensures r.Some? ==> mapper.mappings == old(mapper.mappings)
  {
    var frame := alloc.AllocateFrame();
    if frame.None? {
      return Some(FrameAllocationFailed);
    }
    r := mapper.MapTo(PageNo(k), frame.value, alloc, tables);
  }

  function TableCount(tables: seq<Tables>): nat {
    if tables == [] then 0 else TableCount(tables[..|tables| - 1]) + tables[|tables| - 1].count
  }

  lemma {:induction false} TableCountGrows(tables: seq<Tables>, k: nat)
    requires k < |tables|
    ensures TableCount(tables[..k + 1]) == TableCount(tables[..k]) + tables[k].count
    ensures TableCount(tables[..k + 1]) <= TableCount(tables)
    decreases |tables|
  {
    assert tables[..k + 1][..k] == tables[..k];
    if k + 1 == |tables| {
      assert tables[..k + 1] == tables;
    } else {
      var n := |tables| - 1;
      TableCountGrows(tables[..n], k);
      assert tables[..n][..k + 1] == tables[..k + 1];
    }
  }

  /** What a heap needs: no page mapped yet, no huge page in the way, and frames enough for the
      pages and for the page tables. */
  predicate HeapFits(available: nat, was: HeapState, tables: seq<Tables>) {
    && (forall k | 0 <= k < |tables| :: tables[k].NewTables?)
    && (forall k: nat | k < |tables| :: PageNo(k) !in was.mappings)
    && was.next + |tables| + TableCount(tables) <= available
  }

  /** The first k pages went well, and what that used up. */
  ghost predicate SoFar(was: HeapState, s: HeapState, tables: seq<Tables>, k: nat) {
    && k <= |tables| && s.next == was.next + k + TableCount(tables[..k])
    && (forall i | 0 <= i < k :: tables[i].NewTables?)
    && (forall i: nat | i < k :: PageNo(i) !in was.mappings)
    && (forall i: nat | i >= k :: PageNo(i) in s.mappings <==> PageNo(i) in was.mappings)
  }

  lemma SoFarStep(fs: seq<nat>, was: HeapState, s: HeapState, t: HeapState, tables: seq<Tables>, k: nat)
    requires SoFar(was, s, tables, k) && k < |tables| && Advances(fs, s, t, k) && tables[k].NewTables?
    requires t.next == s.next + 1 + tables[k].count
    ensures SoFar(was, t, tables, k + 1)
  {
    TableCountGrows(tables, k);
  }

  /** A page that cannot be mapped means that the heap does not fit. */
  lemma StuckMeansUnfit(available: nat, was: HeapState, s: HeapState, tables: seq<Tables>, k: nat)
    requires SoFar(was, s, tables, k) && k < |tables|
    requires tables[k].HugePage? || PageNo(k) in s.mappings || s.next + 1 + tables[k].count > available
    ensures !HeapFits(available, was, tables)
  {
    TableCountGrows(tables, k);
  }

  /** A page keeps the frame that was the next one when its turn came. */
  lemma {:induction false} PageKeepsFrame(fs: seq<nat>, states: seq<HeapState>, tables: seq<Tables>, i: nat, k: nat)
    requires Trace(fs, states, tables) && i < k < |states|
    ensures states[i].next < |fs| && PageNo(i) in states[k].mappings
    ensures states[k].mappings[PageNo(i)] == fs[states[i].next]
    decreases k
  {
    assert Advances(fs, states[k - 1], states[k], k - 1);
    if i < k - 1 {
      PageKeepsFrame(fs, states, tables, i, k - 1);
    }
  }

  /** How many frames are drawn before page k's. */
  function DrawnBefore(tables: seq<Tables>, k: nat): nat
    requires k <= |tables|
  {
    k + TableCount(tables[..k])
  }

  /** Heap page k has the frame drawn behind those of the pages before it and of their tables. */
  predicate AsDrawn(fs: seq<nat>, next: nat, tables: seq<Tables>, m: map<nat, nat>) {
    forall k: nat | k < |tables| ::
      && PageNo(k) in m && next + DrawnBefore(tables, k) < |fs|
      && m[PageNo(k)] == fs[next + DrawnBefore(tables, k)]
  }

  lemma {:induction false} TracePosition(fs: seq<nat>, states: seq<HeapState>, tables: seq<Tables>, k: nat)
    requires Trace(fs, states, tables) && k < |states|
    ensures states[k].next == states[0].next + DrawnBefore(tables, k)
  {
    if k > 0 {
      TracePosition(fs, states, tables, k - 1);
      TableCountGrows(tables, k - 1);
    }
  }

  lemma TraceAsDrawn(fs: seq<nat>, states: seq<HeapState>, tables: seq<Tables>)
    requires Trace(fs, states, tables) && |states| == |tables| + 1
    ensures AsDrawn(fs, states[0].next, tables, states[|tables|].mappings)
  {
    forall k: nat | k < |tables|
      ensures PageNo(k) in states[|tables|].mappings && states[0].next + DrawnBefore(tables, k) < |fs|
      ensures states[|tables|].mappings[PageNo(k)] == fs[states[0].next + DrawnBefore(tables, k)]
    {
      TracePosition(fs, states, tables, k);
      PageKeepsFrame(fs, states, tables, k, |tables|);
    }
  }

  lemma TraceGrows(fs: seq<nat>, states: seq<HeapState>, tables: seq<Tables>, t: HeapState, k: nat)
    requires Trace(fs, states, tables) && |states| == k + 1 <= |tables| && SoFar(states[0], states[k], tables, k)
    requires Advances(fs, states[k], t, k) && tables[k].NewTables? && t.next == states[k].next + 1 + tables[k].count
    ensures Trace(fs, states + [t], tables) && SoFar(states[0], t, tables, k + 1)
  {
    SoFarStep(fs, states[0], states[k], t, tables, k);
    var longer := states + [t];
    forall i | 0 < i < |longer|
      ensures Advances(fs, longer[i - 1], longer[i], i - 1)
      ensures longer[i].next == longer[i - 1].next + 1 + tables[i - 1].count
    {
      assert i <= k ==> Advances(fs, states[i - 1], states[i], i - 1);
    }
  }

  lemma TraceEnds(fs: seq<nat>, states: seq<HeapState>, tables: seq<Tables>)
    requires |tables| == HEAP_PAGES && |states| == HEAP_PAGES + 1 && Trace(fs, states, tables)
    requires SoFar(states[0], states[HEAP_PAGES], tables, HEAP_PAGES)
    ensures HeapFits(|fs|, states[0], tables)
    ensures Progress(fs, states[0], states[HEAP_PAGES], HEAP_PAGES)
    ensures AsDrawn(fs, states[0].next, tables, states[HEAP_PAGES].mappings)
  {
    assert Advances(fs, states[0], states[1], 0);
    assert Advances(fs, states[HEAP_PAGES - 1], states[HEAP_PAGES], HEAP_PAGES - 1);
    assert tables[..|tables|] == tables;
    TraceProgress(fs, states, tables, |tables|);
    TraceAsDrawn(fs, states, tables);
  }

  /** Maps every page from FIRST_PAGE to LAST_PAGE, exactly when the heap fits. */
  method InitHeap(mapper: Mapper, alloc: BootInfoFrameAllocator, tables: seq<Tables>) returns (r: Option<MapError>)
    requires alloc.memoryMap.Valid() && |tables| == HEAP_PAGES
    modifies mapper, alloc
    ensures alloc.memoryMap.Valid() && alloc.Available() == old(alloc.Available())
    ensures r.None? <==> HeapFits(|alloc.Available()|, old(StateOf(mapper, alloc)), tables)
    ensures r.None? ==> Progress(alloc.Available(), old(StateOf(mapper, alloc)), StateOf(mapper, alloc), HEAP_PAGES)
    ensures r.None? ==> AsDrawn(alloc.Available(), old(alloc.next), tables, mapper.mappings)
    ensures r.Some? ==> exists k: nat :: k < |tables| && OnlyHeapAdded(old(mapper.mappings), mapper.mappings, k)
  {
    ghost var fs := alloc.Available();
    ghost var states := [StateOf(mapper, alloc)];
    for k := 0 to |tables|
      invariant alloc.memoryMap.Valid() && alloc.Available() == fs
      invariant |states| == k + 1 && Trace(fs, states, tables) && SoFar(states[0], states[k], tables, k)
      invariant states[0] == old(StateOf(mapper, alloc)) && states[k] == StateOf(mapper, alloc)
    {
      r := MapHeapPage(mapper, alloc, k, tables[k]);
      if r.Some? {
        StuckMeansUnfit(|fs|, states[0], states[k], tables, k);
        FailedPrefix(fs, states, tables, k);
        return;
      }
      TraceGrows(fs, states, tables, StateOf(mapper, alloc), k);
      states := states + [StateOf(mapper, alloc)];
    }
    TraceEnds(fs, states, tables);
    r := None;
  }

  lemma FailedPrefix(fs: seq<nat>, states: seq<HeapState>, tables: seq<Tables>, k: nat)
    requires Trace(fs, states, tables) && k < |states|
    ensures OnlyHeapAdded(states[0].mappings, states[k].mappings, k)
  {
    if k > 0 {
      assert Advances(fs, states[0], states[1], 0);
      TraceProgress(fs, states, tables, k);
    }
  }

  /** Frames that share out a stretch of distinct frames are distinct, apart from one another, and
      apart from every frame outside the stretch. */
  lemma SharedOut(fs: seq<nat>, a: nat, b: nat, heap: seq<nat>, tables: seq<nat>)
    requires Distinct(fs) && a <= b <= |fs|
    requires Shared(heap, tables, fs[a..b])
    ensures Distinct(heap)
    ensures forall f | f in heap :: f !in tables && f in fs[a..b] && f !in fs[..a] && f !in fs[b..]
  {
    forall f: nat ensures multiset(fs[a..b])[f] <= 1 {
      OnceInDistinct(fs[a..b], f);
    }
    forall i: nat, j: nat | i < j < |heap| ensures heap[i] != heap[j] {
      OnceInDistinct(fs[a..b], heap[i]);
      if heap[i] == heap[j] {
        TwiceIn(heap, i, j);
      }
    }
    assert forall f :: f in fs <==> f in fs[..a] || f in fs[a..b] || f in fs[b..];
    forall f | f in heap ensures f !in tables && f in fs[a..b] && f !in fs[..a] && f !in fs[b..] {
      assert f in multiset(heap) && (f in tables <==> f in multiset(tables));
      assert f in multiset(fs[a..b]) && f in fs[a..b];
    }
  }

  lemma TwiceIn(s: seq<nat>, i: nat, j: nat)
    requires i < j < |s| && s[i] == s[j]
    ensures multiset(s)[s[i]] >= 2
  {
    assert s == s[..j] + s[j..];
    assert s[..j][i] in multiset(s[..j]) && s[j..][0] in multiset(s[j..]);
  }

  lemma {:induction false} OnceInDistinct(fs: seq<nat>, f: nat)
    requires Distinct(fs)
    ensures multiset(fs)[f] <= 1
    decreases |fs|
  {
    if fs != [] {
      assert fs == [fs[0]] + fs[1..];
      OnceInDistinct(fs[1..], f);
      if f == fs[0] {
        assert f !in fs[1..];
      }
    }
  }

  /** After a successful `init_heap` over disjoint descriptors the mappings have grown by the heap
      pages exactly, and their frames are all different, none of them is a page table, and none
      was or will be handed out by another call. */
  lemma HeapIsSound(ds: seq<Descriptor>, was: HeapState, s: HeapState)
    requires Disjoint(Kept(ds))
    requires Progress(UsableFrames(RegionsOf(Kept(ds))), was, s, HEAP_PAGES)
    ensures forall p :: p in s.mappings <==> p in was.mappings || FIRST_PAGE <= p <= LAST_PAGE
    ensures forall p, q | FIRST_PAGE <= p < q <= LAST_PAGE :: s.mappings[p] != s.mappings[q]
    ensures var fs := UsableFrames(RegionsOf(Kept(ds)));
            forall p | FIRST_PAGE <= p <= LAST_PAGE ::
              && s.mappings[p] !in s.tables[|was.tables|..]
              && s.mappings[p] in fs[was.next..s.next]
              && s.mappings[p] !in fs[..was.next] && s.mappings[p] !in fs[s.next..]
  {
    var fs := UsableFrames(RegionsOf(Kept(ds)));
    var heap := HeapFrames(s.mappings, HEAP_PAGES);
    FramesDistinct(Kept(ds));
    SharedOut(fs, was.next, s.next, heap, s.tables[|was.tables|..]);
    forall p: nat, q: nat | FIRST_PAGE <= p < q <= LAST_PAGE ensures s.mappings[p] != s.mappings[q] {
      HeapFrameAt(s.mappings, p);
      HeapFrameAt(s.mappings, q);
    }
    forall p: nat | FIRST_PAGE <= p <= LAST_PAGE
      ensures s.mappings[p] in heap
    {
      HeapFrameAt(s.mappings, p);
    }
  }

  lemma HeapFrameAt(m: map<nat, nat>, p: nat)
    requires HeapMapped(m, HEAP_PAGES) && FIRST_PAGE <= p <= LAST_PAGE
    ensures p in m && m[p] == HeapFrames(m, HEAP_PAGES)[p - FIRST_PAGE]
  {
    assert PageNo(p - FIRST_PAGE) == p;
  }

  /** The heap is the 64 pages that cover [HEAP_START, HEAP_START + HEAP_SIZE). */
  lemma HeapPages(a: nat)
    ensures HEAP_PAGES == 64 && LAST_PAGE == FIRST_PAGE + 63
    ensures 0x4444_4444_0000 <= a < 0x4444_4448_0000 <==> FIRST_PAGE <= a / 4096 <= LAST_PAGE
  {
  }

  /** The boot: firmware descriptors to region table to allocator to heap.  It succeeds exactly when
      the heap fits; then the mappings have grown by the heap pages and are otherwise as before, on
      different usable frames that are no page tables and that the allocator will not return
      again. */
  method BootHeap(ds: seq<Descriptor>, mappings: map<nat, nat>, tables: seq<Tables>)
    returns (r: Option<MapError>, mapper: Mapper, alloc: BootInfoFrameAllocator)
    requires Disjoint(Kept(ds)) && |tables| == HEAP_PAGES
    ensures alloc.memoryMap.Valid() && alloc.Available() == UsableFrames(RegionsOf(Kept(ds)))
    ensures r.None? <==> HeapFits(|alloc.Available()|, HeapState(0, mappings, []), tables)
    ensures r.None? ==>
              && (forall p :: p in mapper.mappings <==> p in mappings || FIRST_PAGE <= p <= LAST_PAGE)
              && (forall p | p in mappings :: mapper.mappings[p] == mappings[p])
              && (forall p, q | FIRST_PAGE <= p < q <= LAST_PAGE :: mapper.mappings[p] != mapper.mappings[q])
              && (forall p | FIRST_PAGE <= p <= LAST_PAGE :: mapper.mappings[p] !in mapper.tableFrames)
              && alloc.next <= |alloc.Available()| && AsDrawn(alloc.Available(), 0, tables, mapper.mappings)
              && (forall p | FIRST_PAGE <= p <= LAST_PAGE ::
                    && mapper.mappings[p] in alloc.Available()[..alloc.next]
                    && mapper.mappings[p] !in alloc.Available()[alloc.next..])
  {
    var memoryMap := new MemoryMap();
    memoryMap.Populate(ds);
    alloc := new BootInfoFrameAllocator(memoryMap);
    mapper := new Mapper(mappings);
    ghost var was := StateOf(mapper, alloc);
    r := InitHeap(mapper, alloc, tables);
    if r.None? {
      HeapIsSound(ds, was, StateOf(mapper, alloc));
      assert mapper.tableFrames[|was.tables|..] == mapper.tableFrames;
      assert alloc.Available()[was.next..alloc.next] == alloc.Available()[..alloc.next];
    }
  }
}
