/** The callbacks zfuzz registers with the CPU emulator: the system call
    dispatcher on the interrupt hook, and the intercepts that replace the
    target's malloc and free with the fuzzer's own allocator. */
module Hooks {
  import opened Common
  import opened Unicorn
  import opened Emulator
  import Syscalls

  /** The system calls the dispatcher implements. */
  datatype Syscall = Close | Read | Write | Fstat | Exit | Brk | Open

  /** The RISC-V Linux number of each system call (`open` uses the
      number 1024 of the generic table's legacy calls). */
  function SyscallNumber(s: Syscall): (n: nat)
    ensures n in {57, 63, 64, 80, 93, 214, 1024}
  {
    match s
    case Close => 57
    case Read => 63
    case Write => 64
    case Fstat => 80
    case Exit => 93
    case Brk => 214
    case Open => 1024
  }

  /** The interrupt number of `ecall` in Unicorn's RISC-V model. */
  const SYSCALL_INTERRUPT: nat := 8

  /** The handler the interrupt hook picks: only the system-call interrupt is
      handled, and only the seven numbers above. */
  function Dispatch(interrupt: nat, a7: u64): (r: Outcome<Syscall>)
    ensures interrupt != SYSCALL_INTERRUPT ==> r == Panic(UnsupportedInterrupt(interrupt))
    ensures interrupt == SYSCALL_INTERRUPT && r.Panic? ==> r == Panic(UnimplementedSyscall(a7))
  {
    if interrupt != SYSCALL_INTERRUPT then Panic(UnsupportedInterrupt(interrupt))
    else if a7 == 57 then Return(Close)
    else if a7 == 63 then Return(Read)
    else if a7 == 64 then Return(Write)
    else if a7 == 80 then Return(Fstat)
    else if a7 == 93 then Return(Exit)
    else if a7 == 214 then Return(Brk)
    else if a7 == 1024 then Return(Open)
    else Panic(UnimplementedSyscall(a7))
  }

  /** Each system call is reached through its own number. */
  lemma {:induction false} DispatchByNumber(s: Syscall)
    ensures Dispatch(SYSCALL_INTERRUPT, SyscallNumber(s)) == Return(s)
  {
  }

  /** A number that reaches a handler is that handler's number; every other
      number is fatal. */
  lemma {:induction false} DispatchOnlyKnownNumbers(a7: u64)
    ensures Dispatch(SYSCALL_INTERRUPT, a7).Return? ==> SyscallNumber(Dispatch(SYSCALL_INTERRUPT, a7).value) == a7
    ensures (forall s :: SyscallNumber(s) != a7) ==> Dispatch(SYSCALL_INTERRUPT, a7) == Panic(UnimplementedSyscall(a7))
  {
    if forall s :: SyscallNumber(s) != a7 {
      assert SyscallNumber(Close) != a7 && SyscallNumber(Read) != a7 && SyscallNumber(Write) != a7;
      assert SyscallNumber(Fstat) != a7 && SyscallNumber(Exit) != a7 && SyscallNumber(Brk) != a7;
      assert SyscallNumber(Open) != a7;
    }
  }

  /** A handler's `uc_error` is unwrapped by the hook, so it ends the process. */
  function Unwrap(s: Status): (r: Outcome<()>)
    ensures r.Return? <==> s.Return? && s.value.Ok?
    ensures s.Panic? ==> r == Panic(s.fault)
    ensures s.Return? && s.value.Err? ==> r == Panic(Unwrapped(s.value.error))
  {
    match s
    case Panic(f) => Panic(f)
    case Return(Err(e)) => Panic(Unwrapped(e))
    case Return(Ok(_)) => Return(())
  }

  /** The interrupt hook registered by `insert_syscall_hook`. */
  method SyscallHook(emu: Emulator, uc: Uc, interrupt: nat, fuzzName: seq<byte>) returns (r: Outcome<()>)
    modifies emu`fdList, uc`regs, uc`mem, uc`stopped
    ensures var d := Dispatch(interrupt, old(uc.RegValue(A7)));
      (d.Panic? ==> r == Panic(d.fault) && uc.regs == old(uc.regs) && uc.mem == old(uc.mem) &&
                    !(uc.stopped && !old(uc.stopped)) && emu.fdList == old(emu.fdList)) &&
      (d == Return(Exit) ==> r == Return(()) && uc.stopped) &&
      (d.Return? && d.value !in {Read, Open, Close} ==> emu.fdList == old(emu.fdList)) &&
      (d.Return? && d.value !in {Read, Fstat} ==> uc.mem == old(uc.mem))
    ensures r.Return? ==> forall reg :: reg != A0 && reg in old(uc.regs) ==> reg in uc.regs && uc.regs[reg] == old(uc.regs)[reg]
    ensures FilesValid(old(emu.fdList)) ==> FilesValid(emu.fdList)
  {
    var d := Dispatch(interrupt, uc.RegValue(A7));
    if d.Panic? {
      return Panic(d.fault);
    }
    var s: Status;
    match d.value {
      case Close => s := Syscalls.Close(emu, uc);
      case Read => s := Syscalls.Read(emu, uc);
      case Write => s := Syscalls.Write(emu, uc);
      case Fstat => s := Syscalls.Fstat(emu, uc);
      case Exit => s := Syscalls.Exit(uc);
      case Brk => s := Syscalls.Brk(uc);
      case Open => s := Syscalls.Open(emu, uc, fuzzName);
    }
    r := Unwrap(s);
  }

  /** `insert_syscall_hook`. */
  method InsertSyscallHook(uc: Uc) returns (r: UcResult<()>)
    modifies uc`hooks
    ensures r == Ok(()) && uc.hooks == old(uc.hooks) + [InterruptHook(SyscallDispatch)]
  {
    uc.AddHook(InterruptHook(SyscallDispatch));
    r := Ok(());
  }

  /** `insert_malloc_hook`: the intercept is registered on the single address
      of the target's malloc, so it runs there and nowhere else
      (`Unicorn.SingleAddressHook`). */
  method InsertMallocHook(uc: Uc, mallocAddr: u64) returns (r: UcResult<()>)
    modifies uc`hooks
    ensures r == Ok(()) && uc.hooks == old(uc.hooks) + [CodeHook(mallocAddr, mallocAddr, MallocIntercept)]
  {
    uc.AddHook(CodeHook(mallocAddr, mallocAddr, MallocIntercept));
    r := Ok(());
  }

  /** `insert_free_hook`, likewise for free. */
  method InsertFreeHook(uc: Uc, freeAddr: u64) returns (r: UcResult<()>)
    modifies uc`hooks
    ensures r == Ok(()) && uc.hooks == old(uc.hooks) + [CodeHook(freeAddr, freeAddr, FreeIntercept)]
  {
    uc.AddHook(CodeHook(freeAddr, freeAddr, FreeIntercept));
    r := Ok(());
  }

  /** The malloc intercept: allocate A1 bytes readable and writable, return
      the base in A0 and jump back to the caller at RA; running out of arena
      is fatal. */
  method MallocHook(emu: Emulator, uc: Uc) returns (r: Outcome<()>)
    modifies emu`heapAllocations, emu`allocAddr, uc`perms, uc`regs, uc`pc
    ensures var size := old(uc.RegValue(A1));
      var base := old(emu.allocAddr);
      if PageAlign(size).Panic? then r == Panic(ArithmeticOverflow)
      else
        var aligned := PageAlign(size).value;
        if !Fits(base, aligned) || ProtectResult(old(uc.perms), base, aligned, READ_WRITE).Err? then
          r == Panic(OutOfMemory)
        else
          r == Return(()) && uc.regs == old(uc.regs)[A0 := base] && uc.pc == old(uc.RegValue(RA)) &&
          emu.allocAddr == base + aligned && emu.heapAllocations == old(emu.heapAllocations)[base := aligned] &&
          uc.perms == ProtectResult(old(uc.perms), base, aligned, READ_WRITE).value
    ensures old(emu.Valid()) ==> emu.Valid()
  {
    var size := uc.RegValue(A1);
    var a := emu.Allocate(uc, size, READ_WRITE);
    if a.Panic? {
      return Panic(a.fault);
    }
    if a.value.None? {
      return Panic(OutOfMemory);
    }
    uc.RegWrite(A0, a.value.value);
    uc.SetPc(uc.RegValue(RA));
    r := Return(());
  }

  /** The free intercept: free the pointer in A1 and jump back to RA; an error
      from `free` is unwrapped. */
  method FreeHook(emu: Emulator, uc: Uc) returns (r: Outcome<()>)
    modifies uc`perms, uc`pc
    ensures var ptr := old(uc.RegValue(A1));
      var fr := FreeRange(emu.heapAllocations, ptr);
      if fr.Panic? then r == Panic(fr.fault)
      else
        var pr := ProtectResult(old(uc.perms), ptr, fr.value, NONE);
        if pr.Err? then r == Panic(Unwrapped(pr.error))
        else r == Return(()) && uc.perms == pr.value && uc.pc == old(uc.RegValue(RA))
  {
    var ptr := uc.RegValue(A1);
    var f := emu.Free(uc, ptr);
    if f.Panic? {
      return Panic(f.fault);
    }
    if f.value.Err? {
      return Panic(Unwrapped(f.value.error));
    }
    uc.SetPc(uc.RegValue(RA));
    r := Return(());
  }
}
