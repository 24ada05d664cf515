/** The Linux system calls the fuzzer emulates for the RISC-V target. Each
    handler reads its arguments from A0..A2, updates the descriptor table or
    emulated memory, and leaves its return value in A0. A handler's own
    `uc_error`s are returned as `Err`; a `panic!`, `unreachable!` or `expect`
    ends the process. */
module Syscalls {
  import opened Common
  import opened Unicorn
  import opened Emulator

  /** `struct stat` as the target's libc lays it out (128 bytes). */
  datatype Stat = Stat(
    dev: nat, ino: nat, mode: nat, nlink: nat, uid: nat, gid: nat, rdev: nat, pad1: nat,
    size: nat, blksize: nat, pad2: nat, blocks: nat,
    atime: nat, atimensec: nat, mtime: nat, mtimensec: nat, ctime: nat, ctimensec: nat,
    reserved0: nat, reserved1: nat)

  /** The record `fstat` reports for the fuzz input: fixed values observed from
      a real run, with the size and block count of the current input. */
  function FuzzInputStat(len: nat): Stat {
    Stat(0x803, 0x81889, 0x81a4, 0x1, 0x3e8, 0x3e8, 0, 0,
         len, 0x1000, 0, (len + 511) / 512,
         0x5f0fe246, 0, 0x5f0fe244, 0, 0x5f0fe244, 0,
         0, 0)
  }

  /** The first 48 bytes: st_dev to __pad1. */
  function StatHead(st: Stat): (r: seq<byte>)
    ensures |r| == 48
  {
    Le(st.dev, 8) + Le(st.ino, 8) + Le(st.mode, 4) + Le(st.nlink, 4) + Le(st.uid, 4) + Le(st.gid, 4)
      + Le(st.rdev, 8) + Le(st.pad1, 8)
  }

  /** The last 56 bytes: the time stamps and the reserved words. */
  function StatTail(st: Stat): (r: seq<byte>)
    ensures |r| == 56
  {
    Le(st.atime, 8) + Le(st.atimensec, 8) + Le(st.mtime, 8) + Le(st.mtimensec, 8)
      + Le(st.ctime, 8) + Le(st.ctimensec, 8) + Le(st.reserved0, 4) + Le(st.reserved1, 4)
  }

  /** The bytes of a `Stat` in field order, each little-endian, with no padding
      between fields (every field is naturally aligned). */
  function SerializeStat(st: Stat): (r: seq<byte>)
    ensures |r| == 128
    ensures r[48..56] == Le(st.size, 8) && r[56..60] == Le(st.blksize, 4) && r[64..72] == Le(st.blocks, 8)
  {
    var r := StatHead(st) + Le(st.size, 8) + Le(st.blksize, 4) + Le(st.pad2, 4) + Le(st.blocks, 8) + StatTail(st);
    assert r[48..56] == Le(st.size, 8);
    assert r[56..60] == Le(st.blksize, 4);
    assert r[64..72] == Le(st.blocks, 8);
    r
  }

  /** Decoding the record written for an input of len bytes gives back its
      size, block size and 512-byte block count. */
  lemma {:induction false} FuzzInputStatFields(len: nat)
    requires len + 511 <= I64_MAX
    ensures var r := SerializeStat(FuzzInputStat(len));
      LeValue(r[48..56]) == len && LeValue(r[56..60]) == 0x1000 && LeValue(r[64..72]) == (len + 511) / 512
  {
    var r := SerializeStat(FuzzInputStat(len));
    Pow2Constants();
    LeDecode(len, 8);
    LeDecode(0x1000, 4);
    LeDecode((len + 511) / 512, 8);
  }

  lemma {:induction false} LeDecode(v: nat, n: nat)
    requires n == 4 || n == 8
    requires v < U32_LIMIT || (n == 8 && v < U64_LIMIT)
    ensures LeValue(Le(v, n)) == v
  {
    LeRoundTrip(v, n);
    Pow2Constants();
    if n == 4 {
      DivModUnique(v, U32_LIMIT, 0, v);
    } else {
      DivModUnique(v, U64_LIMIT, 0, v);
    }
  }

  /** The bytes a read of count bytes at cursor delivers from the fuzz input,
      and the cursor after it. */
  datatype Chunk = Chunk(bytes: seq<byte>, cursor: nat)

  function ReadChunk(input: seq<byte>, cursor: nat, count: nat): (c: Chunk)
    requires cursor <= |input|
    ensures |c.bytes| == Min(count, |input| - cursor)
    ensures c.cursor == cursor + |c.bytes| && c.cursor <= |input|
    ensures c.bytes == input[cursor..c.cursor]
  {
    var n := Min(count, |input| - cursor);
    Chunk(input[cursor..cursor + n], cursor + n)
  }

  /** Two consecutive reads deliver the same bytes, and leave the cursor at the
      same place, as one read of the combined size. */
  lemma {:induction false} ReadConcat(input: seq<byte>, cursor: nat, n1: nat, n2: nat)
    requires cursor <= |input|
    ensures var c1 := ReadChunk(input, cursor, n1);
      var c2 := ReadChunk(input, c1.cursor, n2);
      var c := ReadChunk(input, cursor, n1 + n2);
      c1.bytes + c2.bytes == c.bytes && c2.cursor == c.cursor
  {
    var c1 := ReadChunk(input, cursor, n1);
    var c2 := ReadChunk(input, c1.cursor, n2);
    var c := ReadChunk(input, cursor, n1 + n2);
    assert c2.cursor == c.cursor;
    assert input[cursor..c1.cursor] + input[c1.cursor..c2.cursor] == input[cursor..c2.cursor];
  }

  /** The bytes `open` collects from address a on: up to and including the
      first zero byte. Reading an unmapped byte is an error; running past the
      end of the address space overflows. */
  function ScanName(mem: map<int, byte>, perms: map<int, Perm>, a: nat): (r: Outcome<UcResult<seq<byte>>>)
    decreases U64_LIMIT - a
  {
    if a >= U64_LIMIT then Panic(ArithmeticOverflow)
    else
      match ReadResult(mem, perms, a, 1)
      case Err(e) => Return(Err(e))
      case Ok(c) =>
        if c[0] == 0 then Return(Ok([0]))
        else Prepend(c[0], ScanName(mem, perms, a + 1))
  }

  function Prepend(b: byte, o: Outcome<UcResult<seq<byte>>>): (r: Outcome<UcResult<seq<byte>>>)
    ensures o.Panic? ==> r == o
    ensures o.Return? && o.value.Err? ==> r == o
    ensures o.Return? && o.value.Ok? ==> r == Return(Ok([b] + o.value.value))
  {
    match o
    case Return(Ok(s)) => Return(Ok([b] + s))
    case _ => o
  }

  function PrependAll(p: seq<byte>, o: Outcome<UcResult<seq<byte>>>): (r: Outcome<UcResult<seq<byte>>>)
    ensures o.Panic? ==> r == o
    ensures o.Return? && o.value.Err? ==> r == o
    ensures o.Return? && o.value.Ok? ==> r == Return(Ok(p + o.value.value))
  {
    match o
    case Return(Ok(s)) => Return(Ok(p + s))
    case _ => o
  }

  /** One step of the scan: an unmapped byte ends it with the read error, a
      zero byte ends the name, any other byte is kept. */
  lemma {:induction false} ScanStep(mem: map<int, byte>, perms: map<int, Perm>, a: nat, p: seq<byte>)
    requires a < U64_LIMIT
    ensures !RangeMapped(perms, a, 1) ==> PrependAll(p, ScanName(mem, perms, a)) == Return(Err(ErrReadUnmapped))
    ensures RangeMapped(perms, a, 1) && Load(mem, a) == 0 ==> PrependAll(p, ScanName(mem, perms, a)) == Return(Ok(p + [0]))
    ensures RangeMapped(perms, a, 1) && Load(mem, a) != 0 ==>
      PrependAll(p, ScanName(mem, perms, a)) == PrependAll(p + [Load(mem, a)], ScanName(mem, perms, a + 1))
  {
    if RangeMapped(perms, a, 1) {
      ReadOneByte(mem, perms, a);
      var c := [Load(mem, a)];
      if Load(mem, a) != 0 {
        var o := ScanName(mem, perms, a + 1);
        if o.Return? && o.value.Ok? {
          assert p + ([c[0]] + o.value.value) == (p + [c[0]]) + o.value.value;
        }
      }
    }
  }

  /** s is the name stored at a: it ends at its first zero byte and is exactly
      what memory holds from a on, every byte of it mapped. */
  predicate NameAt(mem: map<int, byte>, perms: map<int, Perm>, a: nat, s: seq<byte>) {
    |s| >= 1 && a + |s| <= U64_LIMIT && s[|s| - 1] == 0 &&
    (forall i :: 0 <= i < |s| - 1 ==> s[i] != 0) &&
    (forall i :: 0 <= i < |s| ==> s[i] == Load(mem, a + i) && PageBase(a + i) in perms)
  }

  /** A mapped non-zero byte in front of a stored name extends it. */
  lemma {:induction false} NameAtCons(mem: map<int, byte>, perms: map<int, Perm>, a: nat, s: seq<byte>)
    requires a < U64_LIMIT && RangeMapped(perms, a, 1) && Load(mem, a) != 0
    requires NameAt(mem, perms, a + 1, s)
    ensures NameAt(mem, perms, a, [Load(mem, a)] + s)
  {
    var t := [Load(mem, a)] + s;
    assert PageBase(a) in perms;
    forall i | 0 <= i < |t|
      ensures t[i] == Load(mem, a + i) && PageBase(a + i) in perms
    {
      if i == 0 {
        assert a + i == a;
      } else {
        assert t[i] == s[i - 1] && a + i == (a + 1) + (i - 1);
      }
    }
    forall i | 0 <= i < |t| - 1
      ensures t[i] != 0
    {
      if i > 0 {
        assert t[i] == s[i - 1];
      }
    }
  }

  /** The scan's name ends at its first zero byte and is exactly what memory
      holds from a on, every byte of it mapped; its only error is an unmapped
      read. */
  lemma {:induction false} ScanNameZeroTerminated(mem: map<int, byte>, perms: map<int, Perm>, a: nat)
    ensures var r := ScanName(mem, perms, a);
      r.Return? && r.value.Ok? ==> NameAt(mem, perms, a, r.value.value)
    ensures var r := ScanName(mem, perms, a);
      r.Return? && r.value.Err? ==> r.value.error == ErrReadUnmapped
    decreases U64_LIMIT - a
  {
    if a < U64_LIMIT && RangeMapped(perms, a, 1) {
      ReadOneByte(mem, perms, a);
      var c := [Load(mem, a)];
      if Load(mem, a) == 0 {
        assert ScanName(mem, perms, a) == Return(Ok([0]));
        assert a + 0 == a;
      } else {
        ScanNameZeroTerminated(mem, perms, a + 1);
        var o := ScanName(mem, perms, a + 1);
        assert ScanName(mem, perms, a) == Prepend(c[0], o);
        if o.Return? && o.value.Ok? {
          NameAtCons(mem, perms, a, o.value.value);
        }
      }
    }
  }

  /** A name stored at a, with every byte mapped, is what the scan returns:
      the converse of `ScanNameZeroTerminated`. */
  lemma {:induction false} NameAtScanned(mem: map<int, byte>, perms: map<int, Perm>, a: nat, s: seq<byte>)
    requires NameAt(mem, perms, a, s)
    ensures ScanName(mem, perms, a) == Return(Ok(s))
    decreases |s|
  {
    assert a + 0 == a;
    assert s[0] == Load(mem, a + 0) && PageBase(a + 0) in perms;
    ReadOneByte(mem, perms, a);
    if s[0] != 0 {
      var t := s[1..];
      forall i | 0 <= i < |t|
        ensures t[i] == Load(mem, (a + 1) + i) && PageBase((a + 1) + i) in perms
      {
        assert t[i] == s[i + 1] && (a + 1) + i == a + (i + 1);
      }
      forall i | 0 <= i < |t| - 1
        ensures t[i] != 0
      {
        assert t[i] == s[i + 1];
      }
      assert NameAt(mem, perms, a + 1, t);
      NameAtScanned(mem, perms, a + 1, t);
      assert [s[0]] + t == s;
    } else {
      assert |s| == 1;
      assert s == [0];
    }
  }

  /** Byte a + k is the first unmapped one, and none before it is zero. */
  predicate UnmappedBeforeNul(mem: map<int, byte>, perms: map<int, Perm>, a: nat, k: nat) {
    a + k < U64_LIMIT && PageBase(a + k) !in perms &&
    forall j :: a <= j < a + k ==> PageBase(j) in perms && Load(mem, j) != 0
  }

  /** An unmapped byte before the first zero byte makes the scan fail. */
  lemma {:induction false} UnmappedScanFails(mem: map<int, byte>, perms: map<int, Perm>, a: nat, k: nat)
    requires UnmappedBeforeNul(mem, perms, a, k)
    ensures ScanName(mem, perms, a) == Return(Err(ErrReadUnmapped))
    decreases k
  {
    if k == 0 {
      assert a + 0 == a;
      assert !RangeMapped(perms, a, 1);
    } else {
      assert PageBase(a) in perms && Load(mem, a) != 0;
      ReadOneByte(mem, perms, a);
      assert (a + 1) + (k - 1) == a + k;
      UnmappedScanFails(mem, perms, a + 1, k - 1);
    }
  }

  /** A failed scan met an unmapped byte before any zero byte. */
  lemma {:induction false} ScanFailsAtUnmapped(mem: map<int, byte>, perms: map<int, Perm>, a: nat)
    requires ScanName(mem, perms, a).Return? && ScanName(mem, perms, a).value.Err?
    ensures exists k: nat :: UnmappedBeforeNul(mem, perms, a, k)
    decreases U64_LIMIT - a
  {
    if a < U64_LIMIT && RangeMapped(perms, a, 1) {
      ReadOneByte(mem, perms, a);
      assert PageBase(a) in perms && Load(mem, a) != 0;
      ScanFailsAtUnmapped(mem, perms, a + 1);
      var k: nat :| UnmappedBeforeNul(mem, perms, a + 1, k);
      assert a + (k + 1) == (a + 1) + k;
      assert UnmappedBeforeNul(mem, perms, a, k + 1);
    } else {
      assert a + 0 == a;
      assert UnmappedBeforeNul(mem, perms, a, 0);
    }
  }

  /** The scan fails exactly when an unmapped byte comes before the first
      zero byte. */
  lemma {:induction false} ScanNameUnmapped(mem: map<int, byte>, perms: map<int, Perm>, a: nat)
    ensures ScanName(mem, perms, a) == Return(Err(ErrReadUnmapped)) <==> exists k: nat :: UnmappedBeforeNul(mem, perms, a, k)
  {
    if ScanName(mem, perms, a) == Return(Err(ErrReadUnmapped)) {
      ScanFailsAtUnmapped(mem, perms, a);
    }
    if exists k: nat :: UnmappedBeforeNul(mem, perms, a, k) {
      var k: nat :| UnmappedBeforeNul(mem, perms, a, k);
      UnmappedScanFails(mem, perms, a, k);
    }
  }

  /** `exit`: stop the emulation. */
  method Exit(uc: Uc) returns (r: Status)
    modifies uc`stopped
    ensures uc.stopped && r == DONE
  {
    uc.EmuStop();
    r := DONE;
  }

  /** `fstat(fd, statbuf)`: for the fuzz input write its stat record to statbuf
      and return 0; for an absent descriptor, a standard stream or a closed one
      return `!0`; an ordinary file is unreachable. */
  method Fstat(emu: Emulator, uc: Uc) returns (r: Status)
    modifies uc`regs, uc`mem
    ensures var fd, statbuf := old(uc.RegValue(A0)), old(uc.RegValue(A1));
      if fd >= |emu.fdList| || emu.fdList[fd].ftype in {Stdin, Stdout, Stderr, Invalid} then
        r == DONE && uc.regs == old(uc.regs)[A0 := ALL_ONES] && uc.mem == old(uc.mem)
      else if emu.fdList[fd].ftype == Other then
        r == Panic(FstatOther)
      else if |emu.fuzzInput| + 511 > I64_MAX then
        r == Panic(ArithmeticOverflow)
      else
        var bytes := SerializeStat(FuzzInputStat(|emu.fuzzInput|));
        if RangeMapped(uc.perms, statbuf, 128) then
          r == DONE && uc.mem == Store(old(uc.mem), statbuf, bytes) && uc.regs == old(uc.regs)[A0 := 0]
        else
          r == Return(Err(ErrWriteUnmapped)) && uc.mem == old(uc.mem) && uc.regs == old(uc.regs)
  {
    var fd := uc.RegValue(A0);
    var statbuf := uc.RegValue(A1);
    if fd >= |emu.fdList| {
      uc.RegWrite(A0, ALL_ONES);
      return DONE;
    }
    var ftype := emu.fdList[fd].ftype;
    if ftype == FuzzInput {
      var len := |emu.fuzzInput|;
      if len + 511 > I64_MAX {
        return Panic(ArithmeticOverflow);
      }
      var w := uc.MemWrite(statbuf, SerializeStat(FuzzInputStat(len)));
      if w.Err? {
        return Return(w);
      }
      uc.RegWrite(A0, 0);
    } else if ftype != Other {
      uc.RegWrite(A0, ALL_ONES);
    } else {
      return Panic(FstatOther);
    }
    r := DONE;
  }

  /** The loop of `open` that reads the path one byte at a time from A0 on,
      up to and including its zero byte. */
  method ReadName(uc: Uc) returns (r: Outcome<UcResult<seq<byte>>>)
    ensures r == ScanName(uc.mem, uc.perms, uc.RegValue(A0))
  {
    var filename := uc.RegValue(A0);
    var buf: seq<byte> := [];
    var cur := 0;
    ghost var scan := ScanName(uc.mem, uc.perms, filename);
    assert PrependAll([], scan) == scan by {
      if scan.Return? && scan.value.Ok? {
        assert [] + scan.value.value == scan.value.value;
      }
    }
    while true
      invariant filename + cur <= U64_LIMIT
      invariant |buf| == cur
      invariant scan == PrependAll(buf, ScanName(uc.mem, uc.perms, filename + cur))
      decreases U64_LIMIT - (filename + cur)
    {
      var a := filename + cur;
      if a >= U64_LIMIT {
        return Panic(ArithmeticOverflow);
      }
      ScanStep(uc.mem, uc.perms, a, buf);
      var c := uc.MemRead(a, 1);
      if c.Err? {
        return Return(Err(c.error));
      }
      ReadOneByte(uc.mem, uc.perms, a);
      var b := c.value[0];
      assert b == Load(uc.mem, a);
      buf := buf + [b];
      if b == 0 {
        assert scan == Return(Ok(buf));
        return Return(Ok(buf));
      }
      assert scan == PrependAll(buf, ScanName(uc.mem, uc.perms, a + 1));
      cur := cur + 1;
    }
  }

  /** `open(filename, ..)`: collect the name up to its zero byte; it opens the
      fuzz input iff it equals the configured name (which ends in the zero byte),
      and any other file otherwise. The new descriptor, the old length of the
      table, goes to A0. */
  method Open(emu: Emulator, uc: Uc, fuzzName: seq<byte>) returns (r: Status)
    modifies emu`fdList, uc`regs
    ensures var scan := ScanName(uc.mem, uc.perms, old(uc.RegValue(A0)));
      if scan.Panic? then r == Panic(scan.fault)
      else if scan.value.Err? then r == Return(Err(scan.value.error)) && emu.fdList == old(emu.fdList) && uc.regs == old(uc.regs)
      else
        var kind := if scan.value.value == fuzzName then FuzzInput else Other;
        r == DONE && emu.fdList == old(emu.fdList) + [NewFile(kind)] &&
        uc.regs == old(uc.regs)[A0 := |old(emu.fdList)| % U64_LIMIT]
    ensures FilesValid(old(emu.fdList)) ==> FilesValid(emu.fdList)
  {
    var name := ReadName(uc);
    if name.Panic? {
      return Panic(name.fault);
    }
    if name.value.Err? {
      return Return(Err(name.value.error));
    }
    var buf := name.value.value;
    var fd;
    if buf == fuzzName {
      fd := emu.AllocFile(FuzzInput);
    } else {
      fd := emu.AllocFile(Other);
    }
    uc.RegWrite(A0, fd % U64_LIMIT);
    r := DONE;
  }

  /** `read(fd, buf, count)`: `!0` for an absent or closed descriptor; for the
      fuzz input copy the next min(count, remaining) bytes to buf, return their
      number and advance the cursor; for any other file pretend count bytes
      were read. */
  method Read(emu: Emulator, uc: Uc) returns (r: Status)
    modifies emu`fdList, uc`regs, uc`mem
    ensures var fd, buf, count := old(uc.RegValue(A0)), old(uc.RegValue(A1)), old(uc.RegValue(A2));
      if fd >= |old(emu.fdList)| || old(emu.fdList)[fd].ftype == Invalid then
        r == DONE && uc.regs == old(uc.regs)[A0 := ALL_ONES] && uc.mem == old(uc.mem) && emu.fdList == old(emu.fdList)
      else if old(emu.fdList)[fd].ftype != FuzzInput then
        r == DONE && uc.regs == old(uc.regs)[A0 := count] && uc.mem == old(uc.mem) && emu.fdList == old(emu.fdList)
      else
        var file := old(emu.fdList)[fd];
        if file.cursor.None? then r == Panic(MissingCursor)
        else if file.cursor.value > |emu.fuzzInput| then r == Panic(ArithmeticOverflow)
        else
          var chunk := ReadChunk(emu.fuzzInput, file.cursor.value, count);
          if !RangeMapped(uc.perms, buf, |chunk.bytes|) then r == Panic(FuzzInputCopyFailed)
          else
            r == DONE && uc.mem == Store(old(uc.mem), buf, chunk.bytes) &&
            uc.regs == old(uc.regs)[A0 := |chunk.bytes|] &&
            emu.fdList == old(emu.fdList)[fd := file.(cursor := Some(chunk.cursor))]
    ensures FilesValid(old(emu.fdList)) ==> FilesValid(emu.fdList)
  {
    var fd := uc.RegValue(A0);
    var buf := uc.RegValue(A1);
    var count := uc.RegValue(A2);
    if fd >= |emu.fdList| || emu.fdList[fd].ftype == Invalid {
      uc.RegWrite(A0, ALL_ONES);
      return DONE;
    }
    if emu.fdList[fd].ftype == FuzzInput {
      if emu.fdList[fd].cursor.None? {
        return Panic(MissingCursor);
      }
      var offset := emu.fdList[fd].cursor.value;
      if offset > |emu.fuzzInput| {
        return Panic(ArithmeticOverflow);
      }
      var len := Min(count, |emu.fuzzInput| - offset);
      var w := uc.MemWrite(buf, emu.fuzzInput[offset..offset + len]);
      if w.Err? {
        return Panic(FuzzInputCopyFailed);
      }
      uc.RegWrite(A0, len);
      emu.fdList := emu.fdList[fd := emu.fdList[fd].(cursor := Some(offset + len))];
    } else {
      uc.RegWrite(A0, count);
    }
    r := DONE;
  }

  /** `write(fd, buf, count)` with debug output on: `!0` for an absent or closed
      descriptor; for standard output and error read the count bytes (to echo
      them) and return count; any other descriptor is fatal. */
  method Write(emu: Emulator, uc: Uc) returns (r: Status)
    modifies uc`regs
    ensures var fd, buf, count := old(uc.RegValue(A0)), old(uc.RegValue(A1)), old(uc.RegValue(A2));
      if fd >= |emu.fdList| || emu.fdList[fd].ftype == Invalid then
        r == DONE && uc.regs == old(uc.regs)[A0 := ALL_ONES]
      else if emu.fdList[fd].ftype !in {Stdout, Stderr} then
        r == Panic(UnsupportedWrite)
      else if !RangeMapped(uc.perms, buf, count) then
        r == Panic(Unwrapped(ErrReadUnmapped))
      else
        r == DONE && uc.regs == old(uc.regs)[A0 := count]
  {
    var fd := uc.RegValue(A0);
    var buf := uc.RegValue(A1);
    var count := uc.RegValue(A2);
    if fd >= |emu.fdList| || emu.fdList[fd].ftype == Invalid {
      uc.RegWrite(A0, ALL_ONES);
      return DONE;
    }
    var ftype := emu.fdList[fd].ftype;
    if ftype == Stdout || ftype == Stderr {
      var data := uc.MemRead(buf, count);
      if data.Err? {
        return Panic(Unwrapped(data.error));
      }
    } else {
      return Panic(UnsupportedWrite);
    }
    uc.RegWrite(A0, count);
    r := DONE;
  }

  /** `brk(0)` returns 0; moving the break is not supported and is fatal. */
  method Brk(uc: Uc) returns (r: Status)
    modifies uc`regs
    ensures old(uc.RegValue(A0)) == 0 ==> r == DONE && uc.regs == old(uc.regs)[A0 := 0]
    ensures old(uc.RegValue(A0)) != 0 ==> r == Panic(BrkUnsupported)
  {
    var base := uc.RegValue(A0);
    if base == 0 {
      uc.RegWrite(A0, 0);
      return DONE;
    }
    r := Panic(BrkUnsupported);
  }

  /** `close(fd)`: `!0` for an index past the table; otherwise mark the slot
      closed and return 0, also when it was closed already. The table keeps its
      length. */
  method Close(emu: Emulator, uc: Uc) returns (r: Status)
    modifies emu`fdList, uc`regs
    ensures r == DONE && |emu.fdList| == |old(emu.fdList)|
    ensures var fd := old(uc.RegValue(A0));
      if fd >= |old(emu.fdList)| then
        uc.regs == old(uc.regs)[A0 := ALL_ONES] && emu.fdList == old(emu.fdList)
      else
        uc.regs == old(uc.regs)[A0 := 0] && emu.fdList == old(emu.fdList)[fd := old(emu.fdList)[fd].(ftype := Invalid)]
    ensures FilesValid(old(emu.fdList)) ==> FilesValid(emu.fdList)
  {
    var fd := uc.RegValue(A0);
    if fd >= |emu.fdList| {
      uc.RegWrite(A0, ALL_ONES);
      return DONE;
    }
    emu.fdList := emu.fdList[fd := emu.fdList[fd].(ftype := Invalid)];
    uc.RegWrite(A0, 0);
    r := DONE;
  }
}
