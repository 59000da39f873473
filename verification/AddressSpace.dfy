/** The address layout of src/process_memory.rs:19-44. */
module AddressSpace {
  /** Addresses from `start` up to, but not including, `end`. */
  datatype Range = Range(start: nat, end: nat)

  datatype ProcessAddressSpace =
    ProcessAddressSpace(pid: nat, name: string, cr3Frame: nat, code: Range, stack: Range, heap: Range, isolated: bool)

  /** The first address `VirtAddr::new` refuses. */
  const CANONICAL_END := 0x8000_0000_0000

  const SLOT := 0x1000_0000

  function CreateKernelSpace(): ProcessAddressSpace {
    ProcessAddressSpace(0, "kernel", 0x1000, Range(0x200000, 0x400000), Range(0x800000, 0x900000),
                        Range(0x4444_4444_0000, 0x4444_4448_0000), false)
  }

  function UserBase(pid: nat): nat { 0x1_0000_0000 + pid * SLOT }

  /** User spaces whose stack ends at a canonical address. */
  predicate Representable(pid: nat) { UserBase(pid) + 0x8000_0000 < CANONICAL_END }

  function CreateUserSpace(pid: nat, name: string): ProcessAddressSpace
    requires Representable(pid)
  {
    var base := UserBase(pid);
    ProcessAddressSpace(pid, name, 0x2000 + pid * 0x1000, Range(base, base + 0x200000),
                        Range(base + 0x7FF0_0000, base + 0x8000_0000), Range(base + 0x400000, base + 0x800000), true)
  }

  predicate Apart(a: Range, b: Range) { a.end <= b.start || b.end <= a.start }

  /** No code, stack or heap range of one space meets one of the other. */
  predicate Isolated(s: ProcessAddressSpace, t: ProcessAddressSpace) {
    && s.cr3Frame != t.cr3Frame
    && Apart(s.code, t.code) && Apart(s.code, t.stack) && Apart(s.code, t.heap)
    && Apart(s.stack, t.code) && Apart(s.stack, t.stack) && Apart(s.stack, t.heap)
    && Apart(s.heap, t.code) && Apart(s.heap, t.stack) && Apart(s.heap, t.heap)
  }

  /** Within a space the three ranges are apart too. */
  predicate SelfApart(s: ProcessAddressSpace) {
    Apart(s.code, s.stack) && Apart(s.code, s.heap) && Apart(s.stack, s.heap)
  }

  /** The range lies in one 256 MiB slot, between two offsets. */
  predicate InSlot(r: Range, slot: nat, lo: nat, hi: nat) {
    r.start == slot * SLOT + lo && r.end == slot * SLOT + hi && lo <= hi <= SLOT
  }

  /** Ranges in different slots are apart, and ranges in one slot when their offsets are. */
  lemma SlotsApart(r: Range, slot: nat, lo: nat, hi: nat, r': Range, slot': nat, lo': nat, hi': nat)
    requires InSlot(r, slot, lo, hi) && InSlot(r', slot', lo', hi')
    requires slot == slot' ==> hi <= lo' || hi' <= lo
    ensures Apart(r, r')
  {
  }

  /** Of each user space, code and heap are in its own slot and the stack is at the top of the slot
      seven above; the three stretches of offsets are apart. */
  lemma UserLayout(pid: nat, name: string)
    requires Representable(pid)
    ensures var s := CreateUserSpace(pid, name);
            && InSlot(s.code, pid + 16, 0, 0x20_0000)
            && InSlot(s.heap, pid + 16, 0x40_0000, 0x80_0000)
            && InSlot(s.stack, pid + 23, 0xFF0_0000, SLOT)
            && s.cr3Frame == (pid + 2) * 4096
  {
  }

  /** A range that shares no offset with code, heap and stack meets none of a user space's. */
  lemma ApartFromUser(pid: nat, name: string, r: Range, slot: nat, lo: nat, hi: nat)
    requires Representable(pid) && InSlot(r, slot, lo, hi)
    requires slot == pid + 16 ==> (0x20_0000 <= lo && hi <= 0x40_0000) || 0x80_0000 <= lo
    requires slot == pid + 23 ==> hi <= 0xFF0_0000
    ensures var s := CreateUserSpace(pid, name); Apart(s.code, r) && Apart(s.heap, r) && Apart(s.stack, r)
  {
    var s := CreateUserSpace(pid, name);
    UserLayout(pid, name);
    SlotsApart(s.code, pid + 16, 0, 0x20_0000, r, slot, lo, hi);
    SlotsApart(s.heap, pid + 16, 0x40_0000, 0x80_0000, r, slot, lo, hi);
    SlotsApart(s.stack, pid + 23, 0xFF0_0000, SLOT, r, slot, lo, hi);
  }

  /** Distinct processes share no address and no top-level page table. */
  lemma UsersIsolated(p: nat, q: nat, n: string, m: string)
    requires Representable(p) && Representable(q) && p != q
    ensures Isolated(CreateUserSpace(p, n), CreateUserSpace(q, m))
  {
    var t := CreateUserSpace(q, m);
    UserLayout(q, m);
    ApartFromUser(p, n, t.code, q + 16, 0, 0x20_0000);
    ApartFromUser(p, n, t.heap, q + 16, 0x40_0000, 0x80_0000);
    ApartFromUser(p, n, t.stack, q + 23, 0xFF0_0000, SLOT);
  }

  /** No process reaches the kernel's code, stack, heap or page table, and its own three ranges are
      apart. */
  lemma UserAvoidsKernel(pid: nat, name: string)
    requires Representable(pid)
    ensures Isolated(CreateUserSpace(pid, name), CreateKernelSpace()) && SelfApart(CreateUserSpace(pid, name))
  {
    var k := CreateKernelSpace();
    ApartFromUser(pid, name, k.code, 0, 0x20_0000, 0x40_0000);
    ApartFromUser(pid, name, k.stack, 0, 0x80_0000, 0x90_0000);
    ApartFromUser(pid, name, k.heap, 0x44444, 0x444_0000, 0x448_0000);
  }
}
