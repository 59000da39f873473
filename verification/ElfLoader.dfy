/** Loading the kernel's PT_LOAD segments: bootloader/src/main.rs:84-151. */
module ElfLoader {
  import opened Machine

  const U64_MAX := 0xFFFF_FFFF_FFFF_FFFF

  datatype ProgramHeader = ProgramHeader(load: bool, paddr: nat, memsz: nat, offset: nat, filesz: nat) {
    function End(): nat { paddr + memsz }

    /** The header's file bytes go to address a. */
    predicate Copies(a: nat) { load && memsz > 0 && paddr <= a < paddr + filesz }

    /** Address a belongs to the segment. */
    predicate Covers(a: nat) { load && paddr <= a < paddr + memsz }
  }

  /** What a program header must be for the loader's arithmetic to be in range: no address wraps
      round, and no more file bytes than memory in a segment that is loaded at all. */
  predicate Sane(h: ProgramHeader) {
    h.load ==> h.End() + 0xFFF <= U64_MAX && (h.memsz > 0 ==> h.filesz <= h.memsz)
  }

  predicate AllSane(hs: seq<ProgramHeader>) {
    forall h | h in hs :: Sane(h)
  }

  /** The file bytes a header names exist. */
  predicate InFile(h: ProgramHeader, file: seq<byte>) {
    h.load && h.memsz > 0 ==> h.offset + h.filesz <= |file|
  }

  function RoundUp(a: nat): nat { PageBase(a + 0xFFF) }

  /** The smallest start and the largest end of the load segments. */
  predicate IsLoadRange(hs: seq<ProgramHeader>, min: nat, max: nat) {
    && (forall h | h in hs && h.load :: min <= h.paddr && h.End() <= max)
    && (min < U64_MAX ==> exists h :: h in hs && h.load && h.paddr == min)
    && (max > 0 ==> exists h :: h in hs && h.load && h.End() == max)
  }

  /** The memory image as the headers describe it: zero, except where file bytes go; of headers
      that overlap the last one wins. */
  function ImageByte(hs: seq<ProgramHeader>, file: seq<byte>, a: nat): byte
    requires forall h | h in hs :: InFile(h, file)
    decreases |hs|
  {
    if hs == [] then 0
    else
      var h := hs[|hs| - 1];
      assert h in hs && InFile(h, file);
      if h.Copies(a) then file[h.offset + (a - h.paddr)] else ImageByte(hs[..|hs| - 1], file, a)
  }

  datatype Outcome =
    | Loaded(base: nat, memory: array<byte>)
    | NoLoadSegments
    | SliceOutOfRange

  method LoadRange(hs: seq<ProgramHeader>) returns (min: nat, max: nat)
    requires AllSane(hs)
    ensures IsLoadRange(hs, min, max)
  {
    min, max := U64_MAX, 0;
    for i := 0 to |hs|
      invariant IsLoadRange(hs[..i], min, max)
    {
      var h := hs[i];
      assert hs[..i + 1] == hs[..i] + [h];
      if h.load {
        if h.paddr < min {
          min := h.paddr;
        }
        if h.End() > max {
          max := h.End();
        }
        assert h in hs[..i + 1] && forall g | g in hs[..i] :: g in hs[..i + 1];
      }
    }
    assert hs[..|hs|] == hs;
  }

  /** `copy_from_slice` */
  method CopyFromSlice(memory: array<byte>, at: nat, src: seq<byte>)
    requires at + |src| <= memory.Length
    modifies memory
    ensures forall k | 0 <= k < memory.Length ::
              memory[k] == if at <= k < at + |src| then src[k - at] else old(memory[k])
  {
    for i := 0 to |src|
      invariant forall k | 0 <= k < memory.Length ::
                  memory[k] == if at <= k < at + i then src[k - at] else old(memory[k])
    {
      memory[at + i] := src[i];
    }
  }

  /** Nothing to load: no load segment ends after another one (or itself) starts. */
  predicate NothingToLoad(hs: seq<ProgramHeader>) {
    forall h, g | h in hs && h.load && g in hs && g.load :: h.End() <= g.paddr
  }

  lemma EmptyRange(hs: seq<ProgramHeader>, min: nat, max: nat)
    requires AllSane(hs) && IsLoadRange(hs, min, max)
    ensures min >= max <==> NothingToLoad(hs)
  {
    if min < max {
      var h :| h in hs && h.load && h.End() == max;
      assert min <= h.paddr;
      var g :| g in hs && g.load && g.paddr == min;
    }
  }

  /** The second pass, over zeroed memory that starts at address `base`; false where the source's
      slice of the file panics. */
  method CopySegments(hs: seq<ProgramHeader>, file: seq<byte>, base: nat, memory: array<byte>) returns (ok: bool)
    requires AllSane(hs) && forall h | h in hs && h.load :: base <= h.paddr && h.End() <= base + memory.Length
    requires forall k | 0 <= k < memory.Length :: memory[k] == 0
    modifies memory
    ensures ok <==> forall h | h in hs :: InFile(h, file)
    ensures ok ==> forall k | 0 <= k < memory.Length :: memory[k] == ImageByte(hs, file, base + k)
  {
    for i := 0 to |hs|
      invariant forall h | h in hs[..i] :: InFile(h, file)
      invariant forall k | 0 <= k < memory.Length :: memory[k] == ImageByte(hs[..i], file, base + k)
    {
      var h := hs[i];
      assert hs[..i + 1][..i] == hs[..i] && forall g | g in hs[..i + 1] :: g == h || g in hs[..i];
      assert h in hs && Sane(h);
      if h.load && h.memsz != 0 {
        if h.offset + h.filesz > |file| {
          assert !InFile(h, file);
          return false;
        }
        CopyFromSlice(memory, h.paddr - base, file[h.offset..h.offset + h.filesz]);
      }
    }
    assert hs[..|hs|] == hs;
    return true;
  }

  /** Both passes.  Firmware that cannot give the pages at their address stops the boot. */
  method Load(hs: seq<ProgramHeader>, file: seq<byte>) returns (r: Outcome)
    requires AllSane(hs)
    ensures r.NoLoadSegments? <==> NothingToLoad(hs)
    ensures r.SliceOutOfRange? <==>
              !NothingToLoad(hs) && exists h :: h in hs && h.load && h.memsz > 0 && h.offset + h.filesz > |file|
    ensures r.Loaded? ==>
              && fresh(r.memory) && r.base % 4096 == 0 && r.memory.Length % 4096 == 0
              && (exists min: nat, max: nat :: IsLoadRange(hs, min, max) && min < max
                                     && r.base <= min < r.base + 4096
                                     && max <= r.base + r.memory.Length < max + 4096)
              && forall i | 0 <= i < r.memory.Length :: r.memory[i] == ImageByte(hs, file, r.base + i)
  {
    var min, max := LoadRange(hs);
    EmptyRange(hs, min, max);
    if min >= max {
      return NoLoadSegments;
    }
    var base := PageBase(min);
    var pages := (RoundUp(max) - base) / PAGE;
    var memory := new byte[pages * PAGE](_ => 0);
    assert base + memory.Length == RoundUp(max);
    var ok := CopySegments(hs, file, base, memory);
    return if ok then Loaded(base, memory) else SliceOutOfRange;
  }

  // ---- The PT_LOAD rule ----

  predicate ApartOrEmpty(g: ProgramHeader, h: ProgramHeader) {
    g.load && h.load && g.memsz > 0 && h.memsz > 0 ==> g.End() <= h.paddr || h.End() <= g.paddr
  }

  /** No address belongs to two load segments; an empty one may lie anywhere. */
  predicate SegmentsDisjoint(hs: seq<ProgramHeader>) {
    forall i, j | 0 <= i < j < |hs| :: ApartOrEmpty(hs[i], hs[j])
  }

  lemma DisjointMeansNoCommonAddress(g: ProgramHeader, h: ProgramHeader)
    ensures ApartOrEmpty(g, h) <==> forall a: nat :: !(g.Covers(a) && h.Covers(a))
  {
    if !ApartOrEmpty(g, h) {
      var a := if g.paddr <= h.paddr then h.paddr else g.paddr;
      assert g.Covers(a) && h.Covers(a);
    }
  }

  /** Addresses no segment copies to are zero. */
  lemma {:induction false} UncopiedIsZero(hs: seq<ProgramHeader>, file: seq<byte>, a: nat)
    requires forall h | h in hs :: InFile(h, file)
    requires forall h | h in hs :: !h.Copies(a)
    ensures ImageByte(hs, file, a) == 0
    decreases |hs|
  {
    if hs != [] {
      assert hs[|hs| - 1] in hs && forall h | h in hs[..|hs| - 1] :: h in hs;
      UncopiedIsZero(hs[..|hs| - 1], file, a);
    }
  }

  lemma {:induction false} CopiedIsFile(hs: seq<ProgramHeader>, file: seq<byte>, i: nat, a: nat)
    requires AllSane(hs) && SegmentsDisjoint(hs) && forall h | h in hs :: InFile(h, file)
    requires i < |hs| && hs[i].Copies(a)
    ensures hs[i] in hs && ImageByte(hs, file, a) == file[hs[i].offset + (a - hs[i].paddr)]
    decreases |hs|
  {
    var n := |hs| - 1;
    assert hs[i] in hs && hs[n] in hs && Sane(hs[i]) && Sane(hs[n]);
    if i < n {
      assert !hs[n].Copies(a);
      assert forall h | h in hs[..n] :: h in hs;
      CopiedIsFile(hs[..n], file, i, a);
    }
  }

  /** A load segment of a disjoint set holds its file bytes, then zeros up to its memory size. */
  lemma SegmentLoaded(hs: seq<ProgramHeader>, file: seq<byte>, i: nat, a: nat)
    requires AllSane(hs) && SegmentsDisjoint(hs) && forall h | h in hs :: InFile(h, file)
    requires i < |hs| && hs[i].Covers(a)
    ensures hs[i] in hs
    ensures ImageByte(hs, file, a)
         == if a < hs[i].paddr + hs[i].filesz then file[hs[i].offset + (a - hs[i].paddr)] else 0
  {
    if hs[i].Copies(a) {
      CopiedIsFile(hs, file, i, a);
    } else {
      forall h | h in hs ensures !h.Copies(a) {
        var j :| 0 <= j < |hs| && hs[j] == h;
        assert Sane(h);
      }
      UncopiedIsZero(hs, file, a);
    }
  }

  /** Every byte of every load segment lies in the allocated pages, and bytes of no segment are
      zero. */
  lemma SegmentsInRange(hs: seq<ProgramHeader>, file: seq<byte>, min: nat, max: nat, a: nat)
    requires AllSane(hs) && (forall h | h in hs :: InFile(h, file)) && IsLoadRange(hs, min, max)
    ensures forall h | h in hs && h.Covers(a) :: PageBase(min) <= a < RoundUp(max)
    ensures (forall h | h in hs :: !h.Covers(a)) ==> ImageByte(hs, file, a) == 0
  {
    if forall h | h in hs :: !h.Covers(a) {
      forall h | h in hs ensures !h.Copies(a) {
        assert Sane(h);
      }
      UncopiedIsZero(hs, file, a);
    }
  }

  /** The order of disjoint headers does not matter: the same headers in another order give the
      same range and the same image. */
  lemma OrderIrrelevant(hs: seq<ProgramHeader>, gs: seq<ProgramHeader>, file: seq<byte>, a: nat)
    requires AllSane(hs) && SegmentsDisjoint(hs) && SegmentsDisjoint(gs)
    requires forall h :: h in hs <==> h in gs
    requires forall h | h in hs :: InFile(h, file)
    ensures ImageByte(hs, file, a) == ImageByte(gs, file, a)
    ensures forall min, max :: IsLoadRange(hs, min, max) <==> IsLoadRange(gs, min, max)
  {
    if h :| h in hs && h.Copies(a) {
      var i :| 0 <= i < |hs| && hs[i] == h;
      var j :| 0 <= j < |gs| && gs[j] == h;
      CopiedIsFile(hs, file, i, a);
      CopiedIsFile(gs, file, j, a);
    } else {
      UncopiedIsZero(hs, file, a);
      UncopiedIsZero(gs, file, a);
    }
  }

  /** The range is determined by the headers. */
  lemma RangeUnique(hs: seq<ProgramHeader>, min: nat, max: nat, min': nat, max': nat)
    requires AllSane(hs) && min < max && min' < max'
    requires IsLoadRange(hs, min, max) && IsLoadRange(hs, min', max')
    ensures min == min' && max == max'
  {
    var h :| h in hs && h.load && h.End() == max;
    var h' :| h' in hs && h'.load && h'.End() == max';
    assert min <= h.paddr && min' <= h.paddr && min <= h'.paddr;
    var g :| g in hs && g.load && g.paddr == min;
    var g' :| g' in hs && g'.load && g'.paddr == min';
  }
}
