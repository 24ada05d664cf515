/** The per-worker process state zfuzz keeps beside the CPU emulator: the file
    descriptor table, the current fuzz input and the bump allocator that hands
    out page-aligned memory from a pre-mapped arena and records every
    allocation in a ledger. */
module Emulator {
  import opened Common
  import opened Unicorn
  import opened Zfuzz

  datatype FileType = Stdin | Stdout | Stderr | FuzzInput | Other | Invalid

  /** A descriptor: its kind, the bytes backing it and its read cursor. */
  datatype File = File(ftype: FileType, backing: Option<seq<byte>>, cursor: Option<nat>)

  /** `File::new`: an ordinary file gets an empty backing and a cursor at 0, the
      fuzz input only a cursor (its bytes live in the emulator), and the standard
      streams neither. */
  function NewFile(ftype: FileType): (f: File)
    ensures f.ftype == ftype
    ensures f.backing.Some? <==> ftype == Other
    ensures f.backing.Some? ==> f.backing.value == []
    ensures f.cursor.Some? <==> ftype == Other || ftype == FuzzInput
    ensures f.cursor.Some? ==> f.cursor.value == 0
  {
    match ftype
    case Other => File(ftype, Some([]), Some(0))
    case FuzzInput => File(ftype, None, Some(0))
    case _ => File(ftype, None, None)
  }

  /** Every fuzz-input descriptor has a cursor, so reading it never unwraps None. */
  predicate FilesValid(fds: seq<File>) {
    forall i :: 0 <= i < |fds| && fds[i].ftype == FuzzInput ==> fds[i].cursor.Some?
  }

  /** `(0xfff + size) & !0xfff`: the size rounded up to whole pages; the addition
      overflows (a panic under Rust's overflow checks) for the last page of the
      address space. */
  function PageAlign(size: u64): (r: Outcome<u64>)
    ensures r.Panic? <==> size > U64_LIMIT - PAGE_SIZE
    ensures r.Panic? ==> r.fault == ArithmeticOverflow
    ensures r.Return? ==> r.value % PAGE_SIZE == 0 && size <= r.value < size + PAGE_SIZE
  {
    if 0xfff + size >= U64_LIMIT then Panic(ArithmeticOverflow)
    else
      var x := 0xfff + size;
      Pow2Constants();
      Pow2Monotone(12, 64);
      assert Not64(0xfff) == Pow2(64) - Pow2(12);
      BitAndClearLow(x, 64, 12);
      RoundDownBounds(x, PAGE_SIZE);
      Return(BitAnd(x, Not64(0xfff)))
  }

  /** Rounding an already page-aligned size changes nothing. */
  lemma {:induction false} PageAlignIdempotent(size: u64)
    requires size % PAGE_SIZE == 0
    ensures PageAlign(size) == Return(size)
  {
    var r := PageAlign(size);
    assert r.Return?;
    var q1, q2 := size / PAGE_SIZE, r.value / PAGE_SIZE;
    assert size == PAGE_SIZE * q1 && r.value == PAGE_SIZE * q2;
    assert q1 == q2;
  }

  /** The allocator's ledger: every entry starts page-aligned inside the arena
      at or below the bump pointer and has a page-aligned size; entries below the
      bump pointer end at or before it; and entries do not overlap. An entry may
      sit at the bump pointer itself: a zero-sized allocation, or one whose
      permission change failed. */
  predicate LedgerValid(heap: map<u64, u64>, allocAddr: u64) {
    FIRST_ALLOCATION <= allocAddr < MAX_ALLOCATION_ADDR && allocAddr % PAGE_SIZE == 0 &&
    (forall b :: b in heap ==> FIRST_ALLOCATION <= b <= allocAddr && b % PAGE_SIZE == 0 && heap[b] % PAGE_SIZE == 0) &&
    (forall b :: b in heap && b < allocAddr ==> b + heap[b] <= allocAddr) &&
    (forall b1, b2 :: b1 in heap && b2 in heap && b1 < b2 ==> b1 + heap[b1] <= b2)
  }

  /** The bounds test of `allocate`: the base must lie below the limit and the
      allocation must end strictly below it (an overflowing end fails as well). */
  predicate Fits(base: u64, aligned: u64) {
    base < MAX_ALLOCATION_ADDR && base + aligned < MAX_ALLOCATION_ADDR
  }

  /** Recording an allocation at the bump pointer keeps the ledger valid, both
      when the pointer then advances past it and when it stays. */
  lemma {:induction false} LedgerInsert(heap: map<u64, u64>, base: u64, aligned: u64)
    requires LedgerValid(heap, base)
    requires aligned % PAGE_SIZE == 0 && Fits(base, aligned)
    ensures LedgerValid(heap[base := aligned], base)
    ensures LedgerValid(heap[base := aligned], base + aligned)
  {
    var h := heap[base := aligned];
    forall b1, b2 | b1 in h && b2 in h && b1 < b2
      ensures b1 + h[b1] <= b2
    {
      assert b1 < base;
    }
  }

  /** A successful allocation is disjoint from every earlier ledger entry and
      from every later one, which starts at or above the new bump pointer. */
  lemma {:induction false} FreshAllocation(heap: map<u64, u64>, base: u64, aligned: u64)
    requires LedgerValid(heap, base) && aligned % PAGE_SIZE == 0 && Fits(base, aligned)
    ensures forall b :: b in heap && b != base ==> b + heap[b] <= base
  {
  }

  /** The checks of `free` and the size it revokes: an address past the arena
      and an address that is not the base of a recorded allocation are fatal. */
  function FreeRange(heap: map<u64, u64>, addr: u64): (r: Outcome<u64>)
    ensures addr > MAX_ALLOCATION_ADDR ==> r == Panic(InvalidFree(addr))
    ensures addr <= MAX_ALLOCATION_ADDR && addr !in heap ==> r == Panic(UnallocatedFree(addr))
    ensures addr <= MAX_ALLOCATION_ADDR && addr in heap ==> r == PageAlign(heap[addr])
  {
    if addr > MAX_ALLOCATION_ADDR then Panic(InvalidFree(addr))
    else if addr !in heap then Panic(UnallocatedFree(addr))
    else PageAlign(heap[addr])
  }

  /** Freeing a recorded base revokes exactly the recorded size. */
  lemma {:induction false} FreeRecordedBase(heap: map<u64, u64>, allocAddr: u64, b: u64)
    requires LedgerValid(heap, allocAddr) && b in heap
    ensures FreeRange(heap, b) == Return(heap[b])
  {
    PageAlignIdempotent(heap[b]);
  }

  /** Freeing a pointer into the middle of an allocation is fatal. */
  lemma {:induction false} FreeInteriorPointer(heap: map<u64, u64>, allocAddr: u64, b: u64, a: u64)
    requires LedgerValid(heap, allocAddr) && b in heap && b < a < b + heap[b]
    ensures FreeRange(heap, a).Panic?
  {
  }

  /** Inside an arena whose pages are all mapped, the permission change of an
      allocation cannot fail. */
  lemma {:induction false} ArenaProtectSucceeds(perms: map<int, Perm>, base: u64, aligned: u64, p: Perm)
    requires PagesMapped(perms, FIRST_ALLOCATION, VMMAP_ALLOCATION_SIZE)
    requires FIRST_ALLOCATION <= base && base % PAGE_SIZE == 0 && aligned % PAGE_SIZE == 0 && Fits(base, aligned)
    ensures ProtectResult(perms, base, aligned, p).Ok?
  {
  }

  class Emulator {
    var fdList: seq<File>
    var fuzzInput: seq<byte>
    var allocAddr: u64
    var heapAllocations: map<u64, u64>

    ghost predicate Valid()
      reads this
    {
      FilesValid(fdList) && LedgerValid(heapAllocations, allocAddr)
    }

    /** `Emulator::new`: the three standard streams, no input, an empty ledger
        and the bump pointer at the start of the arena. */
    constructor ()
      ensures fdList == [NewFile(Stdin), NewFile(Stdout), NewFile(Stderr)]
      ensures fuzzInput == [] && allocAddr == FIRST_ALLOCATION && heapAllocations == map[]
      ensures Valid()
    {
      fdList := [NewFile(Stdin), NewFile(Stdout), NewFile(Stderr)];
      fuzzInput := [];
      allocAddr := FIRST_ALLOCATION;
      heapAllocations := map[];
    }

    /** `allocate`: round the size up to pages, fail with None unless the
        allocation fits below the limit, record it, set its permissions and
        bump the pointer. A failing permission change leaves the entry recorded
        and the pointer where it was. */
    method Allocate(uc: Uc, size: u64, p: Perm) returns (r: Outcome<Option<u64>>)
      modifies this`heapAllocations, this`allocAddr, uc`perms
      ensures PageAlign(size).Panic? ==> r == Panic(ArithmeticOverflow)
      ensures PageAlign(size).Return? ==> r.Return?
      ensures old(Valid()) ==> Valid()
      ensures allocAddr >= old(allocAddr)
      ensures size > 0 && r.Return? && r.value.Some? ==> allocAddr > old(allocAddr)
      ensures PageAlign(size).Return? ==>
        var base, aligned := old(allocAddr), PageAlign(size).value;
        if !Fits(base, aligned) then
          r == Return(None) && heapAllocations == old(heapAllocations) && allocAddr == base && uc.perms == old(uc.perms)
        else
          heapAllocations == old(heapAllocations)[base := aligned] &&
          var pr := ProtectResult(old(uc.perms), base, aligned, p);
          if pr.Err? then r == Return(None) && allocAddr == base && uc.perms == old(uc.perms)
          else r == Return(Some(base)) && allocAddr == base + aligned && uc.perms == pr.value
    {
      var a := PageAlign(size);
      if a.Panic? {
        return Panic(a.fault);
      }
      var aligned := a.value;
      var base := allocAddr;
      if base >= MAX_ALLOCATION_ADDR || base + aligned >= U64_LIMIT || base + aligned >= MAX_ALLOCATION_ADDR {
        return Return(None);
      }
      if Valid() {
        LedgerInsert(heapAllocations, base, aligned);
      }
      heapAllocations := heapAllocations[base := aligned];
      var pr := uc.MemProtect(base, aligned, p);
      if pr.Err? {
        return Return(None);
      }
      allocAddr := allocAddr + aligned;
      r := Return(Some(base));
    }

    /** `free`: fatal for an address past the arena or one that is not a
        recorded base; otherwise removes every permission from the recorded
        range. The ledger and the bump pointer stay as they are, so a non-empty
        region is never handed out again and freeing it once more passes the same
        checks. */
    method Free(uc: Uc, addr: u64) returns (r: Status)
      modifies uc`perms
      ensures var fr := FreeRange(heapAllocations, addr);
        if fr.Panic? then r == Panic(fr.fault)
        else var pr := ProtectResult(old(uc.perms), addr, fr.value, NONE);
          if pr.Ok? then r == DONE && uc.perms == pr.value
          else r == Return(Err(pr.error)) && uc.perms == old(uc.perms)
      ensures heapAllocations == old(heapAllocations) && allocAddr == old(allocAddr)
    {
      if addr > MAX_ALLOCATION_ADDR {
        return Panic(InvalidFree(addr));
      }
      if addr !in heapAllocations {
        return Panic(UnallocatedFree(addr));
      }
      var a := PageAlign(heapAllocations[addr]);
      if a.Panic? {
        return Panic(a.fault);
      }
      var pr := uc.MemProtect(addr, a.value, NONE);
      if pr.Err? {
        return Return(pr);
      }
      r := DONE;
    }

    /** `alloc_file`: append a new descriptor and return its index. */
    method AllocFile(ftype: FileType) returns (fd: nat)
      modifies this`fdList
      ensures fdList == old(fdList) + [NewFile(ftype)]
      ensures fd == |old(fdList)| && fdList[fd] == NewFile(ftype)
      ensures FilesValid(old(fdList)) ==> FilesValid(fdList)
    {
      fdList := fdList + [NewFile(ftype)];
      fd := |fdList| - 1;
    }
  }
}
