/** The CPU emulator the harness drives (Unicorn), reduced to the state the core
    reads and writes: the RISC-V registers it uses, the program counter, byte
    memory, the permission of every mapped page, a stop flag and the list of
    registered hooks. Instruction execution itself is not modelled. */
module Unicorn {
  import opened Common

  const PAGE_SIZE: int := 0x1000

  /** Unicorn's page permissions (`Permission::READ | WRITE | EXEC`). */
  datatype Perm = Perm(read: bool, write: bool, exec: bool)

  const NONE: Perm := Perm(false, false, false)
  const READ_WRITE: Perm := Perm(true, true, false)

  /** The RISC-V registers the core touches. */
  datatype Reg = A0 | A1 | A2 | A7 | RA | SP

  /** What a registered hook calls back. */
  datatype Callback = SyscallDispatch | MallocIntercept | FreeIntercept

  /** `add_intr_hook` registers an interrupt hook; `add_code_hook(begin, end, ..)`
      a hook on the instruction addresses from begin to end. */
  datatype Hook = InterruptHook(callback: Callback) | CodeHook(begin: u64, end: u64, callback: Callback)

  /** Whether a hook fires when the instruction at pc is about to run. Unicorn
      calls a code hook whose begin exceeds its end on every instruction. */
  predicate Fires(h: Hook, pc: u64) {
    h.CodeHook? && (h.begin > h.end || h.begin <= pc <= h.end)
  }

  /** A code hook registered on [a, a] fires at a and nowhere else. */
  lemma {:induction false} SingleAddressHook(a: u64, cb: Callback, pc: u64)
    ensures Fires(CodeHook(a, a, cb), pc) <==> pc == a
  {
  }

  function PageBase(a: int): int {
    a - a % PAGE_SIZE
  }

  /** A page-aligned range covers the page of each of its bytes. */
  lemma {:induction false} PageOfMappedByte(a: int, addr: int, size: nat)
    requires addr % PAGE_SIZE == 0 && addr <= a < addr + size && size % PAGE_SIZE == 0
    ensures addr <= PageBase(a) < addr + size && PageBase(a) % PAGE_SIZE == 0
  {
    var qa, qs, q := addr / PAGE_SIZE, size / PAGE_SIZE, a / PAGE_SIZE;
    assert addr == PAGE_SIZE * qa && size == PAGE_SIZE * qs;
    assert a == PAGE_SIZE * q + a % PAGE_SIZE && 0 <= a % PAGE_SIZE < PAGE_SIZE;
    assert PageBase(a) == PAGE_SIZE * q;
    assert qa <= q < qa + qs;
    DivModUnique(PageBase(a), PAGE_SIZE, q, 0);
  }

  /** The byte at a; a mapped byte that was never written reads as zero. */
  function Load(mem: map<int, byte>, a: int): byte {
    if a in mem then mem[a] else 0
  }

  predicate RangeMapped(perms: map<int, Perm>, addr: int, n: nat) {
    forall a :: addr <= a < addr + n ==> PageBase(a) in perms
  }

  function LoadBytes(mem: map<int, byte>, addr: int, n: nat): (r: seq<byte>)
    ensures |r| == n
    ensures forall i :: 0 <= i < n ==> r[i] == Load(mem, addr + i)
    decreases n
  {
    if n == 0 then [] else [Load(mem, addr)] + LoadBytes(mem, addr + 1, n - 1)
  }

  /** Memory after writing data at addr. */
  function Store(mem: map<int, byte>, addr: int, data: seq<byte>): (m: map<int, byte>)
    ensures forall a :: Load(m, a) == if addr <= a < addr + |data| then data[a - addr] else Load(mem, a)
    decreases |data|
  {
    if data == [] then mem else Store(mem[addr := data[0]], addr + 1, data[1..])
  }

  /** Reading back what was just stored gives the stored bytes. */
  lemma {:induction false} StoreThenLoad(mem: map<int, byte>, addr: int, data: seq<byte>)
    ensures LoadBytes(Store(mem, addr, data), addr, |data|) == data
  {
  }

  /** `uc_mem_read`: every byte must be mapped; permissions are not consulted. */
  function ReadResult(mem: map<int, byte>, perms: map<int, Perm>, addr: int, n: nat): (r: UcResult<seq<byte>>)
    ensures r.Ok? <==> RangeMapped(perms, addr, n)
    ensures r.Ok? ==> r.value == LoadBytes(mem, addr, n)
    ensures r.Err? ==> r.error == ErrReadUnmapped
  {
    if RangeMapped(perms, addr, n) then Ok(LoadBytes(mem, addr, n)) else Err(ErrReadUnmapped)
  }

  /** A one-byte read of a mapped address gives the byte there. */
  lemma {:induction false} ReadOneByte(mem: map<int, byte>, perms: map<int, Perm>, a: int)
    requires RangeMapped(perms, a, 1)
    ensures ReadResult(mem, perms, a, 1) == Ok([Load(mem, a)])
  {
    var r := LoadBytes(mem, a, 1);
    assert r[0] == Load(mem, a + 0);
    assert r == [Load(mem, a)];
  }

  /** The pages of [addr, addr + size) are all mapped. */
  predicate PagesMapped(perms: map<int, Perm>, addr: int, size: nat) {
    forall p :: addr <= p < addr + size && p % PAGE_SIZE == 0 ==> p in perms
  }

  /** Page permissions after `uc_mem_protect(addr, size, p)` succeeded. */
  function Protect(perms: map<int, Perm>, addr: int, size: nat, p: Perm): (r: map<int, Perm>)
    ensures r.Keys == perms.Keys
    ensures forall q :: q in r ==> r[q] == if addr <= q < addr + size then p else perms[q]
  {
    map q | q in perms :: if addr <= q < addr + size then p else perms[q]
  }

  /** `uc_mem_protect`: a zero size changes nothing; otherwise address and size
      must be page aligned and every page in the range mapped. */
  function ProtectResult(perms: map<int, Perm>, addr: int, size: nat, p: Perm): (r: UcResult<map<int, Perm>>)
    ensures size == 0 ==> r == Ok(perms)
    ensures size > 0 && (addr % PAGE_SIZE != 0 || size % PAGE_SIZE != 0) ==> r == Err(ErrArg)
    ensures size > 0 && addr % PAGE_SIZE == 0 && size % PAGE_SIZE == 0 ==>
      r == if PagesMapped(perms, addr, size) then Ok(Protect(perms, addr, size, p)) else Err(ErrNoMem)
  {
    if size == 0 then Ok(perms)
    else if addr % PAGE_SIZE != 0 || size % PAGE_SIZE != 0 then Err(ErrArg)
    else if !PagesMapped(perms, addr, size) then Err(ErrNoMem)
    else Ok(Protect(perms, addr, size, p))
  }

  /** `uc_mem_map`: size non-zero, address and size page aligned, and no page of
      the range mapped already; the new pages read as zero. */
  function MapResult(mem: map<int, byte>, perms: map<int, Perm>, addr: int, size: nat, p: Perm)
    : (r: UcResult<(map<int, byte>, map<int, Perm>)>)
    ensures r.Ok? <==> (size > 0 && addr % PAGE_SIZE == 0 && size % PAGE_SIZE == 0 &&
                        forall q :: q in perms ==> !(addr <= q < addr + size))
    ensures r.Ok? ==> r.value.1.Keys == perms.Keys + (set q | addr <= q < addr + size && q % PAGE_SIZE == 0)
    ensures r.Ok? ==> forall a :: addr <= a < addr + size ==> Load(r.value.0, a) == 0 && r.value.1[PageBase(a)] == p
  {
    if size == 0 || addr % PAGE_SIZE != 0 || size % PAGE_SIZE != 0 then Err(ErrArg)
    else if exists q :: q in perms && addr <= q < addr + size then Err(ErrMap)
    else
      var added := set q | addr <= q < addr + size && q % PAGE_SIZE == 0;
      assert forall a :: addr <= a < addr + size ==> PageBase(a) in added by {
        forall a | addr <= a < addr + size
          ensures PageBase(a) in added
        {
          PageOfMappedByte(a, addr, size);
        }
      }
      Ok((map a | a in mem && !(addr <= a < addr + size) :: mem[a],
          perms + map q | q in added :: p))
  }

  /** One emulator instance. */
  class Uc {
    var regs: map<Reg, u64>
    var pc: u64
    var mem: map<int, byte>
    var perms: map<int, Perm>
    var stopped: bool
    var hooks: seq<Hook>

    constructor (mem0: map<int, byte>, perms0: map<int, Perm>)
      ensures regs == map[] && pc == 0 && mem == mem0 && perms == perms0
      ensures !stopped && hooks == []
    {
      regs, pc, mem, perms, stopped, hooks := map[], 0, mem0, perms0, false, [];
    }

    /** `reg_read`; a register never written reads as zero. */
    function RegValue(r: Reg): u64
      reads this
    {
      if r in regs then regs[r] else 0
    }

    method RegWrite(r: Reg, v: u64)
      modifies this`regs
      ensures regs == old(regs)[r := v]
    {
      regs := regs[r := v];
    }

    method SetPc(v: u64)
      modifies this`pc
      ensures pc == v
    {
      pc := v;
    }

    /** `emu_stop`: execution ends after the current instruction. */
    method EmuStop()
      modifies this`stopped
      ensures stopped
    {
      stopped := true;
    }

    method MemRead(addr: int, n: nat) returns (r: UcResult<seq<byte>>)
      ensures r == ReadResult(mem, perms, addr, n)
    {
      r := ReadResult(mem, perms, addr, n);
    }

    /** `uc_mem_write`: fails if a byte of the range is unmapped; permissions are
        not consulted. */
    method MemWrite(addr: int, data: seq<byte>) returns (r: UcResult<()>)
      modifies this`mem
      ensures r.Ok? <==> RangeMapped(perms, addr, |data|)
      ensures r.Err? ==> r.error == ErrWriteUnmapped && mem == old(mem)
      ensures r.Ok? ==> mem == Store(old(mem), addr, data)
    {
      if RangeMapped(perms, addr, |data|) {
        mem := Store(mem, addr, data);
        r := Ok(());
      } else {
        r := Err(ErrWriteUnmapped);
      }
    }

    method MemProtect(addr: int, size: nat, p: Perm) returns (r: UcResult<()>)
      modifies this`perms
      ensures var pr := ProtectResult(old(perms), addr, size, p);
        if pr.Ok? then r == Ok(()) && perms == pr.value else r == Err(pr.error) && perms == old(perms)
    {
      var pr := ProtectResult(perms, addr, size, p);
      if pr.Ok? {
        perms := pr.value;
        r := Ok(());
      } else {
        r := Err(pr.error);
      }
    }

    method MemMap(addr: int, size: nat, p: Perm) returns (r: UcResult<()>)
      modifies this`mem, this`perms
      ensures var mr := MapResult(old(mem), old(perms), addr, size, p);
        if mr.Ok? then r == Ok(()) && (mem, perms) == mr.value
        else r == Err(mr.error) && mem == old(mem) && perms == old(perms)
    {
      var mr := MapResult(mem, perms, addr, size, p);
      if mr.Ok? {
        mem, perms := mr.value.0, mr.value.1;
        r := Ok(());
      } else {
        r := Err(mr.error);
      }
    }

    method AddHook(h: Hook)
      modifies this`hooks
      ensures hooks == old(hooks) + [h]
    {
      hooks := hooks + [h];
    }
  }
}
