/** The crate root of zfuzz: the address range of the per-emulator heap, the
    check that the target is an executable the fuzzer supports, and the loading
    of its LOAD segments into emulator memory. */
module Zfuzz {
  import opened Common
  import opened Unicorn

  /** The first address the bump allocator hands out. */
  const FIRST_ALLOCATION: u64 := 0x900000
  /** 16 MiB of stack and heap per emulator. */
  const VMMAP_ALLOCATION_SIZE: u64 := 16 * 1024 * 1024
  /** Allocations must end below this address. */
  const MAX_ALLOCATION_ADDR: u64 := FIRST_ALLOCATION + VMMAP_ALLOCATION_SIZE

  lemma {:induction false} ArenaLayout()
    ensures MAX_ALLOCATION_ADDR == 0x1900000
    ensures FIRST_ALLOCATION % PAGE_SIZE == 0 && MAX_ALLOCATION_ADDR % PAGE_SIZE == 0
    ensures FIRST_ALLOCATION < MAX_ALLOCATION_ADDR
  {
  }

  /** The ELF header identification values the fuzzer accepts, as the System V
      ABI defines them: the magic `\x7fELF`, ELFDATA2LSB, ET_EXEC, ELFCLASS64
      and EM_RISCV. */
  const ELF_MAGIC: seq<byte> := [0x7f, 0x45, 0x4c, 0x46]
  const LITTLE_ENDIAN: int := 1
  const TYPE_EXEC: int := 2
  const ARCH_64: int := 2
  const RISCV: int := 243

  /** p_type of a loadable segment (PT_LOAD). */
  const LOAD_SEGMENT: int := 1

  /** The fields of the ELF header the loader reads. */
  datatype ElfHeader = ElfHeader(magic: seq<byte>, endian: int, oType: int, bitsize: int, machine: int, entryAddr: u64)

  /** One program header. */
  datatype ProgramHeader = ProgramHeader(segType: int, flags: nat, offset: u64, vaddr: u64, fileSize: u64, memSize: u64, align: u64)

  /** A parsed target binary. */
  datatype Elf = Elf(header: ElfHeader, programHeaders: seq<ProgramHeader>)

  /** Why a header is rejected. */
  datatype HeaderError = BadMagic | NotLittleEndian | NotExecutable | Not64Bit | NotRiscV

  datatype Verdict = Accept | Reject(reason: HeaderError)

  /** `verify_elf_hdr`: the five checks run in order and the first mismatch is
      reported. */
  function VerifyElfHdr(h: ElfHeader): (v: Verdict)
    ensures v == Accept <==>
      h.magic == ELF_MAGIC && h.endian == LITTLE_ENDIAN && h.oType == TYPE_EXEC && h.bitsize == ARCH_64 && h.machine == RISCV
    ensures v == Reject(BadMagic) <==> h.magic != ELF_MAGIC
    ensures v == Reject(NotLittleEndian) <==> h.magic == ELF_MAGIC && h.endian != LITTLE_ENDIAN
    ensures v == Reject(NotExecutable) <==>
      h.magic == ELF_MAGIC && h.endian == LITTLE_ENDIAN && h.oType != TYPE_EXEC
    ensures v == Reject(Not64Bit) <==>
      h.magic == ELF_MAGIC && h.endian == LITTLE_ENDIAN && h.oType == TYPE_EXEC && h.bitsize != ARCH_64
    ensures v == Reject(NotRiscV) <==>
      h.magic == ELF_MAGIC && h.endian == LITTLE_ENDIAN && h.oType == TYPE_EXEC && h.bitsize == ARCH_64 && h.machine != RISCV
  {
    if h.magic != ELF_MAGIC then Reject(BadMagic)
    else if h.endian != LITTLE_ENDIAN then Reject(NotLittleEndian)
    else if h.oType != TYPE_EXEC then Reject(NotExecutable)
    else if h.bitsize != ARCH_64 then Reject(Not64Bit)
    else if h.machine != RISCV then Reject(NotRiscV)
    else Accept
  }

  /** The p_flags bits PF_X (1), PF_W (2) and PF_R (4) become Unicorn's EXEC,
      WRITE and READ; nothing else is granted. */
  function FlagsToPerm(flags: nat): (p: Perm)
    ensures p.exec <==> flags % 2 == 1
    ensures p.write <==> (flags / 2) % 2 == 1
    ensures p.read <==> (flags / 4) % 2 == 1
  {
    Pow2Constants();
    BitAndSingle(flags, 0);
    BitAndSingle(flags, 1);
    BitAndSingle(flags, 2);
    Perm(read := BitAnd(flags, 4) != 0, write := BitAnd(flags, 2) != 0, exec := BitAnd(flags, 1) != 0)
  }

  /** What one LOAD segment puts into memory: its bytes, the page range to map
      and the permission of that range. */
  datatype Layout = Layout(data: seq<byte>, alignedAddr: u64, alignedSize: u64, perm: Perm)

  /** The arithmetic of one iteration of the loader, with Rust's overflow checks:
      the file bytes of the segment padded with zeros up to memsz, vaddr rounded
      down and memsz rounded up with the mask `!(align - 1)`, and the check that
      the rounded range still covers the segment. */
  function SegmentLayout(file: seq<byte>, ph: ProgramHeader): (r: Outcome<Layout>)
    ensures r.Return? ==> ph.fileSize <= ph.memSize && ph.offset + ph.fileSize <= |file|
    ensures r.Return? ==> r.value.data == file[ph.offset..ph.offset + ph.fileSize] + Zeros(ph.memSize - ph.fileSize)
    ensures r.Return? ==> |r.value.data| == ph.memSize
    ensures r.Return? ==> r.value.alignedAddr <= ph.vaddr
    ensures r.Return? ==> ph.vaddr + ph.memSize <= r.value.alignedAddr + r.value.alignedSize
    ensures r.Return? ==> r.value.perm == FlagsToPerm(ph.flags)
    ensures r.Panic? ==> r.fault in {ArithmeticOverflow, SliceOutOfRange, AlignmentMismatch}
  {
    var end := ph.offset + ph.fileSize;
    if end >= U64_LIMIT then Panic(ArithmeticOverflow)
    else if end > |file| then Panic(SliceOutOfRange)
    else if ph.memSize < ph.fileSize then Panic(ArithmeticOverflow)
    else
      var data := file[ph.offset..end] + Zeros(ph.memSize - ph.fileSize);
      if ph.align == 0 then Panic(ArithmeticOverflow)
      else if ph.align - 1 + ph.memSize >= U64_LIMIT then Panic(ArithmeticOverflow)
      else
        var mask := Not64(ph.align - 1);
        var alignedSize := BitAnd(ph.align - 1 + ph.memSize, mask);
        var alignedAddr := BitAnd(ph.vaddr, mask);
        BitAndAtMost(ph.align - 1 + ph.memSize, mask);
        BitAndAtMost(ph.vaddr, mask);
        if alignedSize + alignedAddr >= U64_LIMIT || ph.vaddr + ph.memSize >= U64_LIMIT then Panic(ArithmeticOverflow)
        else if alignedSize + alignedAddr < ph.vaddr + ph.memSize then Panic(AlignmentMismatch)
        else Return(Layout(data, alignedAddr, alignedSize, FlagsToPerm(ph.flags)))
  }

  /** For a power-of-two alignment the masks round vaddr down and memsz up to a
      multiple of the alignment. */
  lemma {:induction false} SegmentRounding(ph: ProgramHeader, k: nat)
    requires k < 64 && ph.align == Pow2(k)
    requires ph.align - 1 + ph.memSize < U64_LIMIT
    ensures BitAnd(ph.vaddr, Not64(ph.align - 1)) == ph.align * (ph.vaddr / ph.align)
    ensures BitAnd(ph.align - 1 + ph.memSize, Not64(ph.align - 1)) == ph.align * ((ph.align - 1 + ph.memSize) / ph.align)
  {
    Pow2Constants();
    Pow2Monotone(k, 64);
    assert Not64(ph.align - 1) == Pow2(64) - Pow2(k);
    BitAndClearLow(ph.vaddr, 64, k);
    BitAndClearLow(ph.align - 1 + ph.memSize, 64, k);
  }

  /** With a power-of-two alignment the rounded address is aligned and at most
      one alignment unit below vaddr, and the rounded size is aligned, covers
      memsz and exceeds it by less than one unit. */
  lemma {:induction false} SegmentRoundingBounds(ph: ProgramHeader, k: nat)
    requires k < 64 && ph.align == Pow2(k)
    requires ph.align - 1 + ph.memSize < U64_LIMIT
    ensures var a := BitAnd(ph.vaddr, Not64(ph.align - 1));
      a % ph.align == 0 && a <= ph.vaddr < a + ph.align
    ensures var s := BitAnd(ph.align - 1 + ph.memSize, Not64(ph.align - 1));
      s % ph.align == 0 && ph.memSize <= s < ph.memSize + ph.align
  {
    SegmentRounding(ph, k);
    RoundDownBounds(ph.vaddr, ph.align);
    RoundDownBounds(ph.align - 1 + ph.memSize, ph.align);
  }

  /** The loader's coverage check cannot fail when vaddr is itself aligned. */
  lemma {:induction false} AlignedSegmentPasses(file: seq<byte>, ph: ProgramHeader, k: nat)
    requires k < 64 && ph.align == Pow2(k) && ph.vaddr % ph.align == 0
    requires |file| < U64_LIMIT
    requires ph.fileSize <= ph.memSize && ph.offset + ph.fileSize <= |file|
    requires ph.align - 1 + ph.memSize < U64_LIMIT
    requires ph.vaddr + ph.align - 1 + ph.memSize < U64_LIMIT
    ensures SegmentLayout(file, ph).Return?
  {
    SegmentRoundingBounds(ph, k);
    var a := BitAnd(ph.vaddr, Not64(ph.align - 1));
    var s := BitAnd(ph.align - 1 + ph.memSize, Not64(ph.align - 1));
    assert a == ph.vaddr by {
      SegmentRounding(ph, k);
      RoundDownIsMinusRemainder(ph.vaddr, ph.align);
    }
    assert s + a < U64_LIMIT && ph.vaddr + ph.memSize <= s + a;
  }

  /** Rounding address and size separately does not always cover the segment: a
      32-byte segment at 0x10ff0 with 4 KiB alignment maps only [0x10000, 0x11000)
      and the loader aborts. */
  lemma {:induction false} MisalignedSegmentAborts()
    ensures var ph := ProgramHeader(LOAD_SEGMENT, 4, 0, 0x10ff0, 0, 0x20, 0x1000);
      SegmentLayout([], ph) == Panic(AlignmentMismatch)
  {
    var ph := ProgramHeader(LOAD_SEGMENT, 4, 0, 0x10ff0, 0, 0x20, 0x1000);
    Pow2Constants();
    SegmentRounding(ph, 12);
    assert ph.vaddr / ph.align == 0x10 by {
      DivModUnique(ph.vaddr, ph.align, 0x10, 0xff0);
    }
    assert (ph.align - 1 + ph.memSize) / ph.align == 1 by {
      DivModUnique(ph.align - 1 + ph.memSize, ph.align, 1, 0x1f);
    }
  }

  /** The emulator memory the loader writes: bytes and page permissions. */
  datatype Image = Image(mem: map<int, byte>, perms: map<int, Perm>)

  /** The memory after a prefix of the loop and what the loop returns with `?`. */
  datatype Loaded = Loaded(image: Image, result: UcResult<()>)

  /** One iteration: skip a non-LOAD header; otherwise map the rounded range
      (an error there is an `unwrap` panic) and write the segment bytes. */
  function LoadSegment(img: Image, file: seq<byte>, ph: ProgramHeader): Outcome<Loaded> {
    if ph.segType != LOAD_SEGMENT then Return(Loaded(img, Ok(())))
    else
      match SegmentLayout(file, ph)
      case Panic(f) => Panic(f)
      case Return(lay) =>
        match MapResult(img.mem, img.perms, lay.alignedAddr, lay.alignedSize, lay.perm)
        case Err(e) => Panic(Unwrapped(e))
        case Ok(mp) =>
          if RangeMapped(mp.1, ph.vaddr, |lay.data|) then Return(Loaded(Image(Store(mp.0, ph.vaddr, lay.data), mp.1), Ok(())))
          else Return(Loaded(Image(mp.0, mp.1), Err(ErrWriteUnmapped)))
  }

  /** The loop over all program headers. */
  function LoadAll(img: Image, file: seq<byte>, phs: seq<ProgramHeader>): Outcome<Loaded>
    decreases |phs|
  {
    if phs == [] then Return(Loaded(img, Ok(())))
    else
      match LoadSegment(img, file, phs[0])
      case Panic(f) => Panic(f)
      case Return(l) => if l.result.Err? then Return(l) else LoadAll(l.image, file, phs[1..])
  }

  /** `load_elf_segments` after the header check and the parse. */
  function LoadElf(img: Image, file: seq<byte>, elf: Elf): Outcome<Loaded> {
    if VerifyElfHdr(elf.header) != Accept then Panic(ElfRejected) else LoadAll(img, file, elf.programHeaders)
  }

  /** Headers that are not LOAD segments do not affect loading. */
  function LoadHeaders(phs: seq<ProgramHeader>): (r: seq<ProgramHeader>)
    ensures forall ph :: ph in r <==> ph in phs && ph.segType == LOAD_SEGMENT
    ensures |r| <= |phs|
  {
    if phs == [] then []
    else if phs[0].segType == LOAD_SEGMENT then [phs[0]] + LoadHeaders(phs[1..])
    else LoadHeaders(phs[1..])
  }

  lemma {:induction false} NonLoadSegmentsSkipped(img: Image, file: seq<byte>, phs: seq<ProgramHeader>)
    ensures LoadAll(img, file, phs) == LoadAll(img, file, LoadHeaders(phs))
    decreases |phs|
  {
    if phs != [] {
      var rest := LoadHeaders(phs[1..]);
      if phs[0].segType == LOAD_SEGMENT {
        assert ([phs[0]] + rest)[0] == phs[0] && ([phs[0]] + rest)[1..] == rest;
        match LoadSegment(img, file, phs[0])
        case Panic(_) =>
        case Return(l) =>
          if l.result.Ok? {
            NonLoadSegmentsSkipped(l.image, file, phs[1..]);
          }
      } else {
        NonLoadSegmentsSkipped(img, file, phs[1..]);
      }
    }
  }

  /** The write after mapping never fails: the rounded range contains the
      segment, so the `?` on `mem_write` never returns early. */
  lemma {:induction false} SegmentWriteSucceeds(img: Image, file: seq<byte>, ph: ProgramHeader)
    ensures LoadSegment(img, file, ph).Return? ==> LoadSegment(img, file, ph).value.result.Ok?
  {
    if ph.segType == LOAD_SEGMENT && SegmentLayout(file, ph).Return? {
      var lay := SegmentLayout(file, ph).value;
      var mr := MapResult(img.mem, img.perms, lay.alignedAddr, lay.alignedSize, lay.perm);
      if mr.Ok? {
        forall a | ph.vaddr <= a < ph.vaddr + |lay.data|
          ensures PageBase(a) in mr.value.1
        {
          PageOfMappedByte(a, lay.alignedAddr, lay.alignedSize);
        }
      }
    }
  }

  lemma {:induction false} LoadNeverReturnsError(img: Image, file: seq<byte>, phs: seq<ProgramHeader>)
    ensures LoadAll(img, file, phs).Return? ==> LoadAll(img, file, phs).value.result.Ok?
    decreases |phs|
  {
    if phs != [] {
      SegmentWriteSucceeds(img, file, phs[0]);
      match LoadSegment(img, file, phs[0])
      case Panic(_) =>
      case Return(l) => LoadNeverReturnsError(l.image, file, phs[1..]);
    }
  }

  /** `load_elf_segments`: rejects an unsupported header, loads every LOAD
      segment in order and finally sets the program counter to the entry point. */
  method LoadElfSegments(uc: Uc, file: seq<byte>, elf: Elf) returns (r: Status)
    modifies uc`mem, uc`perms, uc`pc
    ensures var spec := LoadElf(Image(old(uc.mem), old(uc.perms)), file, elf);
      if spec.Panic? then r == Panic(spec.fault)
      else r == Return(spec.value.result) && uc.mem == spec.value.image.mem && uc.perms == spec.value.image.perms
    ensures r == DONE ==> uc.pc == elf.header.entryAddr
  {
    if VerifyElfHdr(elf.header) != Accept {
      return Panic(ElfRejected);
    }
    ghost var img0 := Image(uc.mem, uc.perms);
    var phs := elf.programHeaders;
    var i := 0;
    while i < |phs|
      invariant 0 <= i <= |phs|
      invariant LoadAll(img0, file, phs) == LoadAll(Image(uc.mem, uc.perms), file, phs[i..])
    {
      var ph := phs[i];
      assert phs[i..][0] == ph && phs[i..][1..] == phs[i + 1..];
      if ph.segType != LOAD_SEGMENT {
        i := i + 1;
        continue;
      }
      var lay := SegmentLayout(file, ph);
      if lay.Panic? {
        return Panic(lay.fault);
      }
      var data := file[ph.offset..ph.offset + ph.fileSize];
      data := data + Zeros(ph.memSize - ph.fileSize);
      var m := uc.MemMap(lay.value.alignedAddr, lay.value.alignedSize, lay.value.perm);
      if m.Err? {
        return Panic(Unwrapped(m.error));
      }
      var w := uc.MemWrite(ph.vaddr, data);
      if w.Err? {
        return Return(w);
      }
      i := i + 1;
    }
    uc.SetPc(elf.header.entryAddr);
    r := DONE;
  }
}
