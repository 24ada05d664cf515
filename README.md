# zfuzz core, modelled in Dafny

zfuzz is a snapshot-free fuzzer for RISC-V Linux binaries. It runs the target
inside the Unicorn CPU emulator and stands in for the operating system. This
project models the parts of zfuzz that sit between Unicorn and the target:

- the per-worker process state (`emulator.rs`): the file-descriptor table and
  the bump allocator that hands out page-aligned memory from a fixed 16 MiB
  arena and never reuses a non-empty allocation;
- the emulated Linux system calls (`syscalls.rs`);
- the interrupt hook that dispatches them, and the malloc and free intercepts
  (`hooks.rs`);
- the ELF header check and the loading of LOAD segments (`lib.rs`);
- the input mutator: eight weighted strategies over a byte vector, and a havoc
  mode on every hundredth case (`mutator.rs`);
- the command-line check and the `@@` substitution (`config.rs`).

It also proves properties of each part.

One Dafny module stands for each source file:

| module | file | contents |
|---|---|---|
| `Zfuzz` | `lib.dfy` | models `lib.rs` |
| `Emulator` | `emulator.dfy` | models `emulator.rs` |
| `Syscalls` | `syscalls.dfy` | models `syscalls.rs` |
| `Hooks` | `hooks.dfy` | models `hooks.rs` |
| `Mutator` | `mutator.dfy` | models `mutator.rs` |
| `Config` | `config.dfy` | models `config.rs` |
| `Common` | `common.dfy` | machine integers, `Option`/`Result`, `Fault`, bit operations on naturals, little-endian encoding |
| `Unicorn` | `unicorn.dfy` | the emulator state the core touches (see below) |

The `Unicorn` module holds only that state, as a class `Uc`:

- registers;
- the program counter;
- a byte map;
- the permission of every mapped page;
- a stop flag;
- the registered hooks.

Its `mem_read`, `mem_write`, `mem_protect` and `mem_map` return the error codes Unicorn
documents.

Conventions of the model:

- **Overflow.** The model assumes a build with Rust's overflow checks on
  (the default debug profile). Any `usize` or `u64` addition or subtraction
  that overflows is `Panic(ArithmeticOverflow)`. The `DEBUG` constant
  (`src/lib.rs:20`) has nothing to do with this. It switches the printing of
  system calls, and it also decides whether `write` is fatal for a
  non-standard descriptor or an unmapped buffer (`src/syscalls.rs:185-198`).
  The model fixes `DEBUG` at its value in the source, `true`.
- **Fatal paths.** A `panic!`, a failed `unwrap`/`expect`, an `unreachable!`,
  a failed `assert!` and `error_exit` are all `Panic(reason)` in an `Outcome`.
  A handler's own `uc_error` is `Return(Err(e))`. The hook's `unwrap` turns
  that into `Panic(Unwrapped(e))`.
- **Masks.** Masks such as `x & !(align - 1)` use a bitwise AND on naturals
  (`Common.BitAnd`), so they are exact for every mask. Lemmas then prove what
  they compute for a power-of-two alignment.
- **Randomness.** The random number generator is an oracle `words: nat -> u32`
  plus a counter of the words drawn so far. `next_u64` takes two words, low
  word first, as `Xoroshiro64Star` does. Every strategy of the mutator is a
  specification function of the input, the oracle and the counter. The
  methods that edit the input in place are proved against those functions.

The source's own comments say the large corruption of `byte_replace`,
`bit_flip` and `simple_arithmetic` touches "64-128" bytes. The loop
`64..(64 + r2 % 64)` actually runs `r2 % 64` times, between 0 and 63. The
model follows the code (`Mutator.EditRange`).

Where the code differs from the other descriptions of the system, the model
follows the code:

- `free` leaves the ledger entry in place, so a second `free` of the same base
  passes the checks again.
- `allocate` records the ledger entry before `mem_protect`. A failed
  permission change therefore leaves the entry recorded, while the bump pointer
  does not move.
- A zero-size `allocate` rounds to 0 bytes (`src/emulator.rs:113`) and moves
  the bump pointer by 0 (`src/emulator.rs:126`). The next allocation therefore
  returns the same base, and its `insert` (`src/emulator.rs:121`) overwrites the
  zero-size ledger entry. Bases are strictly increasing only across non-empty
  allocations (`Emulator.Emulator.Allocate`), despite the source's comment
  that memory is never repeated.

## Model

| member | source | states |
|---|---|---|
| `Zfuzz.ArenaLayout` | src/lib.rs:24-30 | the allocation limit is 0x900000 + 16 MiB = 0x1900000; both ends are page aligned and the arena is non-empty |
| `Zfuzz.VerifyElfHdr` | src/lib.rs:46-63 | Accept iff magic, endianness, type, class and machine are `\x7fELF`, little-endian, ET_EXEC, 64-bit, RISC-V; each rejection reason iff the checks before it passed and its own failed |
| `Zfuzz.FlagsToPerm` | src/lib.rs:94-100 | EXEC iff p_flags bit 0, WRITE iff bit 1, READ iff bit 2, nothing else |
| `Zfuzz.SegmentLayout` | src/lib.rs:80-100 | on success `filesz <= memsz`, the data is the file slice followed by `memsz - filesz` zeros (length memsz), the rounded range starts at or below vaddr and covers `vaddr + memsz`, and the permission comes from the flags; failures are only overflow, slice and alignment panics |
| `Zfuzz.SegmentRounding` | src/lib.rs:88-89 | for `align = 2^k` the two masks are `vaddr` rounded down and `align - 1 + memsz` rounded down to a multiple of align |
| `Zfuzz.SegmentRoundingBounds` | src/lib.rs:88-89 | the rounded address is aligned and within one unit below vaddr; the rounded size is aligned, at least memsz and less than memsz + align |
| `Zfuzz.AlignedSegmentPasses` | src/lib.rs:88-91 | when vaddr is aligned (and nothing overflows) the coverage assertion cannot fail |
| `Zfuzz.MisalignedSegmentAborts` | src/lib.rs:88-91 | a 0x20-byte segment at 0x10ff0 with 4 KiB alignment fails the coverage assertion: rounding address and size separately does not guarantee coverage |
| `Zfuzz.LoadHeaders` | src/lib.rs:75-78 | keeps exactly the LOAD headers |
| `Zfuzz.NonLoadSegmentsSkipped` | src/lib.rs:75-78 | loading all headers has the same outcome as loading only the LOAD headers |
| `Zfuzz.SegmentWriteSucceeds` | src/lib.rs:103-106 | after a successful map, the write of the segment data cannot fail, because the mapped pages cover it |
| `Zfuzz.LoadNeverReturnsError` | src/lib.rs:66-112 | the loader either panics or returns Ok; its `?` never returns early |
| `Zfuzz.LoadElfSegments` | src/lib.rs:66-112 | the imperative loop produces the memory and permissions of the loading function (header rejected, segments in order, map `unwrap`, write `?`), and on success the PC is the entry address |
| `Unicorn.SingleAddressHook` | src/hooks.rs:78 | a code hook registered on `[a, a]` fires at a and at no other PC |
| `Emulator.NewFile` | src/emulator.rs:60-72 | OTHER gets an empty backing and cursor 0; FUZZINPUT only cursor 0; every other kind neither |
| `Emulator.PageAlign` | src/emulator.rs:113 | `(0xfff + size) & !0xfff` panics iff the addition overflows; otherwise the result is page aligned, at least size and below size + 0x1000 |
| `Emulator.PageAlignIdempotent` | src/emulator.rs:147 | re-rounding an aligned size gives it back |
| `Emulator.LedgerInsert` | src/emulator.rs:117-126 | recording a fitting, aligned allocation at the bump pointer keeps the ledger valid, whether or not the pointer advances |
| `Emulator.FreshAllocation` | src/emulator.rs:108-131 | a fitting allocation at the bump pointer is disjoint from every other ledger entry |
| `Emulator.FreeRange` | src/emulator.rs:137-147 | `free` panics for an address past the limit, or for one that is not a recorded base; otherwise the range is the re-rounded recorded size |
| `Emulator.FreeRecordedBase` | src/emulator.rs:142-150 | freeing a recorded base revokes exactly its recorded size |
| `Emulator.FreeInteriorPointer` | src/emulator.rs:142-145 | freeing an address strictly inside an allocation is fatal |
| `Emulator.ArenaProtectSucceeds` | src/emulator.rs:125 | inside a fully mapped arena the permission change of a fitting, aligned allocation succeeds |
| `Emulator.Emulator.constructor` | src/emulator.rs:97-106 | descriptors [STDIN, STDOUT, STDERR], empty input and ledger, bump pointer at FIRSTALLOCATION, invariant established |
| `Emulator.Emulator.Allocate` | src/emulator.rs:110-131 | overflow of the rounding panics; a non-fitting allocation returns None and changes nothing; otherwise the ledger maps base to the aligned size, and on protect success it returns the old bump pointer and the pointer advances by the aligned size, else None with the pointer unchanged; the ledger invariant is preserved, the pointer never decreases, and a successful non-empty allocation strictly advances it |
| `Emulator.Emulator.Free` | src/emulator.rs:134-152 | the checks of `FreeRange`, then permissions NONE over the range or the protect error; ledger and bump pointer unchanged |
| `Emulator.Emulator.AllocFile` | src/emulator.rs:155-159 | appends one descriptor of the kind and returns the old length; earlier entries untouched |
| `Syscalls.SerializeStat` | src/syscalls.rs:17-43 | the record is 128 bytes, with size at offset 48, blksize at 56 and blocks at 64 |
| `Syscalls.FuzzInputStatFields` | src/syscalls.rs:66-95 | decoding the record for an input of length len gives size len, block size 0x1000 and `(len + 511) / 512` blocks |
| `Syscalls.ReadChunk` | src/syscalls.rs:153-161 | a read copies `min(count, len - cursor)` bytes starting at the cursor and moves the cursor past them, never beyond len |
| `Syscalls.ReadConcat` | src/syscalls.rs:153-161 | two reads of n1 and n2 bytes deliver the same bytes, and leave the same cursor, as one read of n1 + n2 |
| `Syscalls.ScanStep` | src/syscalls.rs:119-126 | one loop step: an unmapped byte ends the scan with the read error (the `?`), a zero byte ends the name, any other byte is appended |
| `Syscalls.ReadName` | src/syscalls.rs:116-126 | the byte-by-byte loop over guest memory returns exactly the scanned name (or its read error, or the overflow panic) and changes nothing |
| `Syscalls.ScanNameZeroTerminated` | src/syscalls.rs:116-126 | a name that was read ends in its only zero byte, equals memory from A0 on and lies in mapped pages; the only error is an unmapped read |
| `Syscalls.NameAtScanned` | src/syscalls.rs:116-126 | conversely, a zero-terminated name stored in mapped memory at A0 is exactly what the scan returns; with `Syscalls.Open` this means opening the configured fuzz-input name gives a FUZZINPUT descriptor |
| `Syscalls.ScanNameUnmapped` | src/syscalls.rs:116-126 | the scan fails with the unmapped-read error iff some byte before the first zero byte lies in an unmapped page |
| `Syscalls.Exit` | src/syscalls.rs:47-51 | stops the emulator and returns Ok |
| `Syscalls.Fstat` | src/syscalls.rs:53-107 | `!0` for an absent descriptor or STDIN/STDOUT/STDERR/INVALID; OTHER is unreachable; for FUZZINPUT the 128-byte record is written to A1 and A0 is 0, else the write error is returned |
| `Syscalls.Open` | src/syscalls.rs:109-136 | the name is scanned up to its zero byte; FUZZINPUT iff it equals the configured name, else OTHER; one descriptor appended; A0 is the old table length; scan errors and overflow are propagated |
| `Syscalls.Read` | src/syscalls.rs:138-168 | `!0` for an absent or INVALID descriptor with nothing else changed; for other non-fuzz files A0 := count; for the fuzz input the chunk is stored at buf, A0 := its length and the cursor advances; no cursor, a cursor past the end and a failed copy are fatal |
| `Syscalls.Write` | src/syscalls.rs:170-202 | `!0` for an absent or INVALID descriptor; count for STDOUT/STDERR when the buffer is mapped, an unwrap panic when it is not; any other descriptor is fatal |
| `Syscalls.Brk` | src/syscalls.rs:204-214 | A0 = 0 gives A0 := 0; any other argument is fatal |
| `Syscalls.Close` | src/syscalls.rs:216-233 | `!0` and no change past the table; otherwise the slot becomes INVALID and A0 := 0; the length and the other slots are unchanged |
| `Hooks.SyscallNumber` | src/hooks.rs:20-40 | the handled numbers are exactly 57, 63, 64, 80, 93, 214 and 1024 |
| `Hooks.Dispatch` | src/hooks.rs:17-50 | an interrupt other than 8 is fatal; on interrupt 8 an A7 without a handler is the unimplemented-syscall panic |
| `Hooks.DispatchByNumber` | src/hooks.rs:18-40 | each system call is reached through its own number |
| `Hooks.DispatchOnlyKnownNumbers` | src/hooks.rs:18-46 | a dispatched number is the handler's number; an unknown number reaches no handler |
| `Hooks.Unwrap` | src/hooks.rs:21-39 | the hook continues iff the handler returned Ok; an Err becomes an unwrap panic; a handler panic passes through |
| `Hooks.SyscallHook` | src/hooks.rs:16-52 | a panic of the dispatch changes nothing; exit stops the emulator; only read, open and close touch the descriptor table and only read and fstat touch memory; registers other than A0 survive a successful call; the file invariant is preserved |
| `Hooks.InsertSyscallHook` | src/hooks.rs:13-57 | registers the dispatcher as an interrupt hook and returns Ok |
| `Hooks.InsertMallocHook` | src/hooks.rs:60-81 | registers the malloc intercept on `[malloc_addr, malloc_addr]` |
| `Hooks.InsertFreeHook` | src/hooks.rs:84-99 | registers the free intercept on `[free_addr, free_addr]` |
| `Hooks.MallocHook` | src/hooks.rs:64-76 | allocates A1 bytes with READ and WRITE; on success A0 := base, PC := RA, the ledger gains the entry; `None` is the OOM panic |
| `Hooks.FreeHook` | src/hooks.rs:87-94 | frees A1; the checks of `free` and an unwrapped protect error are fatal; on success PC := RA |
| `Mutator.Repeat` | src/mutator.rs:56-62 | n copies of one strategy |
| `Mutator.RepeatCount` | src/mutator.rs:56-62 | a run of n copies holds the strategy n times and no other strategy |
| `Mutator.StrategyTable` | src/mutator.rs:55-71 | the table has 2770 slots, or 2800 with a dictionary |
| `Mutator.StrategyWeights` | src/mutator.rs:55-71 | each strategy appears exactly 1000/1000/200/500/30/30/10 times, Dictionary 30 times with a dictionary and never without; a strategy is in the table iff its weight is positive |
| `Mutator.NextU64Halves` | src/mutator.rs:87-90 | the low and high halves of a 64-bit draw are the two words drawn |
| `Mutator.StepIndex` | src/mutator.rs:100-133 | the edited index is within the input |
| `Mutator.FlipBitForm` | src/mutator.rs:124-125 | `b ^ (1 << k)` is the bitwise exclusive or with 2^k; it subtracts 2^k when bit k is set and adds it otherwise, staying a byte |
| `Mutator.FlipBitInvolution` | src/mutator.rs:124-125 | flipping the same bit twice restores the byte |
| `Mutator.WrappingSubAdd` | src/mutator.rs:168-174 | wrapping subtraction undoes wrapping addition; the sum wraps iff it reaches 256 |
| `Mutator.ArithStepsCancel` | src/mutator.rs:166-175 | an odd-counter arithmetic step with the same words undoes the even-counter step |
| `Mutator.EditRange` | src/mutator.rs:98-110 | the small corruption runs from 1 and makes at most 30 edits; the large one runs from 64 and makes exactly `r2 % 64` edits |
| `Mutator.Edits` | src/mutator.rs:100-109 | the point-edit loop preserves the length |
| `Mutator.EditsOnlyVisited` | src/mutator.rs:100-188 | the loop writes only indices within the input, at most one per iteration, and leaves every other byte unchanged |
| `Mutator.PointMutation` | src/mutator.rs:93-190 | length preserved; success iff `len >= 4`; a refused input is unchanged and draws nothing; a success draws an even number of words, between 2 and 128 |
| `Mutator.PointMutationLocal` | src/mutator.rs:93-190 | a point strategy changes at most 63 bytes, only at the indices it visited |
| `Mutator.MagicSplice` | src/mutator.rs:140-155 | success iff `len >= 32`; on success the prefix up to `r1 % (len - 8)` is kept and the whole tail is one of the 13 magic values, so the input shrinks |
| `Mutator.RemoveBlockSpec` | src/mutator.rs:193-209 | refused below 32 bytes or when fewer than 32 would remain, leaving the input unchanged; otherwise the result is `input[..start] ++ input[start + k..]` with `k < 512` and at least 32 bytes remain |
| `Mutator.DuplicateBlockSpec` | src/mutator.rs:213-236 | refused below 32 bytes; otherwise `input[..idx] ++ input[start..start + n] ++ input[idx..]` with `n < 128` and three words drawn |
| `Mutator.RandomBytes` | src/mutator.rs:259-270 | n 64-bit draws give 8n bytes |
| `Mutator.ResizeTruncates` | src/mutator.rs:243-251 | truncation is refused iff `len < 32` or the new length is below 32; otherwise the input keeps a prefix of length in `[32, min(len/2, 512))` |
| `Mutator.ResizeGrows` | src/mutator.rs:252-273 | growing always succeeds, keeps the input as a prefix and appends exactly `8 * (size / 8)` bytes from `size / 8` 64-bit draws, with `size` 32 for inputs under 32 bytes and `(r2 % (len/2)) % 512` otherwise (so fewer than 512) |
| `Mutator.DictReplaceSpec` | src/mutator.rs:277-288 | no dictionary and an empty dictionary are fatal; otherwise the length is preserved and success iff the input is longer than the chosen entry; a refused input is unchanged |
| `Mutator.DictReplaceWrites` | src/mutator.rs:281-285 | on success the entry occupies `[idx, idx + len(entry))` with `idx < len - len(entry)`, and every other byte is unchanged |
| `Mutator.Apply` | src/mutator.rs:315-324 | only the dictionary strategy can panic, and only without a dictionary or with an empty one; a failed strategy leaves the input unchanged |
| `Mutator.HavocEveryHundred` | src/mutator.rs:300-311 | after n calls the counter is n mod 100, and havoc mode runs exactly on every hundredth call |
| `Mutator.Mutator.constructor` | src/mutator.rs:50-83 | the strategy table matches whether a dictionary is configured; counter 0 |
| `Mutator.Mutator.Get2Rand` | src/mutator.rs:87-90 | `tmp & 0xffffffff` and `tmp >> 32` are the two words of one draw |
| `Mutator.Mutator.ByteReplace` | src/mutator.rs:93-112 | the in-place loop computes `PointMutation` for replacement |
| `Mutator.Mutator.BitFlip` | src/mutator.rs:115-136 | the in-place loop computes `PointMutation` for bit flips |
| `Mutator.Mutator.SimpleArithmetic` | src/mutator.rs:158-190 | the in-place loop computes `PointMutation` for wrapping arithmetic |
| `Mutator.Mutator.MagicNums` | src/mutator.rs:140-155 | the splice computes `MagicSplice` |
| `Mutator.Mutator.RemoveBlock` | src/mutator.rs:193-209 | the drain computes `RemoveBlockSpec` |
| `Mutator.Mutator.DuplicateBlock` | src/mutator.rs:213-236 | split and append compute `DuplicateBlockSpec` |
| `Mutator.Mutator.Resize` | src/mutator.rs:239-274 | truncation and the draw loop compute `ResizeSpec` |
| `Mutator.Mutator.DictReplace` | src/mutator.rs:277-288 | the copy loop computes `DictReplaceSpec`, including its panics |
| `Mutator.Mutator.ChoseMut` | src/mutator.rs:291-294 | the chosen strategy is the slot `w % len` of the table, so it is in the table |
| `Mutator.Mutator.ApplyMutation` | src/mutator.rs:315-324 | dispatches to the strategy and computes `Apply` |
| `Mutator.Mutator.QueueMutations` | src/mutator.rs:299-311 | the counter becomes `(c + 1) mod 100`; one mutation is queued, or on reaching 100 `w % 8 - 1` of them (none for 0, at most 6); all come from the table |
| `Mutator.Mutator.Mutate` | src/mutator.rs:298-335 | the counter advances modulo 100 and the table invariant holds; the call can panic only when the configured dictionary is empty |
| `Mutator.Mutator.Retry` | src/mutator.rs:313-333 | the retry loop keeps the table invariant, never spends more than its budget, gives up with `Return(false)` only once the budget is spent, and panics only when the dictionary is empty |
| `Mutator.DrawnApplyPanics` | src/mutator.rs:276-278 | a strategy drawn from the table panics only when the dictionary was given and is empty, because `Dictionary` is in the table only with a dictionary |
| `Config.FuzzInputName` | src/config.rs:63-69 | `"fuzz_input\0"` without an extension; `"fuzz_input." ++ ext ++ "\0"` with one |
| `Config.FuzzInputNameProperties` | src/config.rs:63-69 | different extensions give different names; with a NUL-free extension the terminator is the only NUL |
| `Config.Position` | src/config.rs:72 | the index of the first `"@@"`, or None iff there is none |
| `Config.HandleCli` | src/config.rs:55-77 | an empty target argv and a missing `"@@"` are fatal exits that change nothing; otherwise the first `"@@"` becomes the fuzz-input name, the name is returned, and the length and all other arguments are unchanged |

## Left out

- Release builds: without overflow checks, `0xfff + size` in the allocator (`src/emulator.rs:113`), `len - offset` and the segment sums wrap modulo 2^64 instead of panicking. The model covers only the checked build.
- Instruction execution (`emu_start`), the program bootstrap in `src/main.rs` and the Unicorn setup it does: main.rs is not part of this model; the hooks and handlers are modelled as what they do when Unicorn calls them.
- `Rc<RefCell<Emulator>>` sharing: one `Emulator` object is passed to every handler.
- Printing: `dbg_print`, the echo of `write` and the message of `error_exit`. Only the fact that the process stops is modelled.
- The `clap` parser, the `OnceLock` globals (`DEBUG_PRINT`, `FUZZ_INPUT`, `DICT_FILE`) and a second `set` of them: their values are parameters (`fuzzName` of `Syscalls.Open`, the `dictionary` of the mutator).
- Reading the target binary from disk and `elfparser::parse_elf`: the file bytes and the parsed `Elf` are parameters of `Zfuzz.LoadElfSegments`.
- Dictionary file reading (`parse_dict`, `read_lines`): file I/O; the parsed lines are a parameter, as byte strings.
- Random number generation and its seeding (`Xoroshiro64Star`, `thread_rng`): an oracle sequence of 32-bit words.
- The unused fields `_exit_conds` and `_snapshot_addr`, and `insert_debug_hooks`, which does nothing.
- The Binary Ninja scripts under `tools/`: host tooling against a foreign API.
- Partial writes and reads of Unicorn: `mem_write` and `mem_read` are all-or-nothing here. Every failure path of the core ends in a panic or an early return, so a partially written prefix is never used.
- Page permissions on host accesses: Unicorn does not check them for `mem_read`/`mem_write`, and the model does not either.
- Syscalls.SerializeStat: the `Stat` byte cast is modelled as a little-endian, field-order serialisation, because the cast depends on the host's byte order and layout.
- Mutator.Mutator.Resize: the appended bytes are the little-endian bytes of each 64-bit draw, which assumes a little-endian host for the `u64` to `u8` cast.
- Mutator.Mutator.Mutate: the retry loop ends only with probability one, so a `fuel` bound on retries (shared by all queued strategies) is added and running out of it returns `Return(false)`; the contract does not restate the final input, which is fixed strategy by strategy by `Mutator.Mutator.ApplyMutation`.
- Mutator.Mutator.Retry: the contract does not restate which strategies were drawn or the final input; each attempt's effect is the contract of `Mutator.Mutator.ApplyMutation` and each draw that of `Mutator.Mutator.ChoseMut`.
- Mutator.Mutator.Mutate: the in-place rewrite of the queued `muts` vector is modelled as a local variable holding the current strategy.
- Mutator.Mutator.ByteReplace: the slice edits (`&mut [u8]`) and the `Vec` edits are modelled as reassignments of a `seq` field of `ByteVec`, not as an array updated in place.
- Hooks.SyscallHook: its contract summarises the frame. The exact new state of each handler is stated by the handler's own contract (`Syscalls.Read` and so on), not repeated here.
- Syscalls.Write: only the `DEBUG = true` build is modelled (`src/lib.rs:20`). The `vec![0u8; count]` allocation is not modelled.
- Syscalls.Open: the `as u64` cast of the descriptor index is written as a reduction modulo 2^64. Any table that fits in memory is shorter than that.
