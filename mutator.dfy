/** zfuzz's input mutator: a weighted table of mutation strategies, each an
    edit of the byte vector that holds the next fuzz input, drawn from a
    stream of random 32-bit words, and a havoc mode that stacks several
    strategies on every hundredth case.

    The random number generator is an oracle: `words(k)` is the k-th 32-bit
    word it produces, and `drawn` counts the words consumed so far. Each
    strategy is specified by a function of the input, the oracle and the
    number of words already drawn; the methods that edit the input in place
    are proved against those functions. */
module Mutator {
  import opened Common

  datatype Mutation = ByteReplace | BitFlip | MagicNum | SimpleArithmetic | RemoveBlock | DupBlock | Resize | Dictionary

  /** n copies of one strategy. */
  function Repeat(m: Mutation, n: nat): (r: seq<Mutation>)
    ensures |r| == n
    ensures forall i :: 0 <= i < n ==> r[i] == m
  {
    seq(n, _ => m)
  }

  lemma {:induction false} RepeatCount(m: Mutation, n: nat, x: Mutation)
    ensures multiset(Repeat(m, n))[x] == if x == m then n else 0
  {
    if n > 0 {
      RepeatCount(m, n - 1, x);
      assert Repeat(m, n) == Repeat(m, n - 1) + [m];
    }
  }

  /** The weight of each strategy: the number of table slots that select it. */
  function Weight(m: Mutation, withDictionary: bool): nat {
    match m
    case ByteReplace => 1000
    case BitFlip => 1000
    case MagicNum => 200
    case SimpleArithmetic => 500
    case RemoveBlock => 30
    case DupBlock => 30
    case Resize => 10
    case Dictionary => if withDictionary then 30 else 0
  }

  /** The table `Mutator::new` builds: a run of copies per strategy, with the
      dictionary strategy only when a dictionary is configured. */
  function StrategyTable(withDictionary: bool): (t: seq<Mutation>)
    ensures |t| == if withDictionary then 2800 else 2770
  {
    BaseTable() + (if withDictionary then Repeat(Dictionary, 30) else [])
  }

  /** The runs of the seven strategies that are always present. */
  function BaseTable(): (t: seq<Mutation>)
    ensures |t| == 2770
  {
    Repeat(ByteReplace, 1000) + Repeat(BitFlip, 1000) + Repeat(MagicNum, 200) + Repeat(SimpleArithmetic, 500)
    + Repeat(RemoveBlock, 30) + Repeat(DupBlock, 30) + Repeat(Resize, 10)
  }

  /** Each strategy occupies exactly its weight in slots, so a strategy can be
      chosen if and only if its weight is positive. */
  lemma {:induction false} StrategyWeights(withDictionary: bool, m: Mutation)
    ensures multiset(StrategyTable(withDictionary))[m] == Weight(m, withDictionary)
    ensures m in StrategyTable(withDictionary) <==> Weight(m, withDictionary) > 0
  {
    var extra := if withDictionary then Repeat(Dictionary, 30) else [];
    BaseTableCount(m);
    RepeatCount(Dictionary, 30, m);
    CountConcat(BaseTable(), extra, m);
    assert multiset(extra)[m] == if withDictionary && m == Dictionary then 30 else 0;
    var t := StrategyTable(withDictionary);
    assert m in t <==> m in multiset(t);
  }

  lemma {:induction false} BaseTableCount(m: Mutation)
    ensures multiset(BaseTable())[m] == Weight(m, false)
  {
    var t1 := Repeat(ByteReplace, 1000);
    RepeatCount(ByteReplace, 1000, m);
    CountAppendRun(t1, BitFlip, 1000, m);
    var t2 := t1 + Repeat(BitFlip, 1000);
    CountAppendRun(t2, MagicNum, 200, m);
    var t3 := t2 + Repeat(MagicNum, 200);
    CountAppendRun(t3, SimpleArithmetic, 500, m);
    var t4 := t3 + Repeat(SimpleArithmetic, 500);
    CountAppendRun(t4, RemoveBlock, 30, m);
    var t5 := t4 + Repeat(RemoveBlock, 30);
    CountAppendRun(t5, DupBlock, 30, m);
    var t6 := t5 + Repeat(DupBlock, 30);
    CountAppendRun(t6, Resize, 10, m);
    assert BaseTable() == t6 + Repeat(Resize, 10);
  }

  lemma {:induction false} CountAppendRun(t: seq<Mutation>, x: Mutation, n: nat, m: Mutation)
    ensures multiset(t + Repeat(x, n))[m] == multiset(t)[m] + if x == m then n else 0
  {
    CountConcat(t, Repeat(x, n), m);
    RepeatCount(x, n, m);
  }

  lemma {:induction false} CountConcat(a: seq<Mutation>, b: seq<Mutation>, m: Mutation)
    ensures multiset(a + b)[m] == multiset(a)[m] + multiset(b)[m]
  {
  }

  /** What `next_u64` returns: two words, the first one low. */
  function NextU64Value(words: nat -> u32, d: nat): (v: u64)
  {
    words(d) + U32_LIMIT * words(d + 1)
  }

  /** The two halves of a 64-bit draw give back the two words. */
  lemma {:induction false} NextU64Halves(words: nat -> u32, d: nat)
    ensures NextU64Value(words, d) % U32_LIMIT == words(d)
    ensures NextU64Value(words, d) / U32_LIMIT == words(d + 1)
  {
    DivModUnique(NextU64Value(words, d), U32_LIMIT, words(d + 1), words(d));
  }

  /** The three strategies that edit single bytes in place. */
  datatype PointEdit = Replace | Flip | Arith

  /** The byte a step edits: `r2 % len` for a bit flip, `r1 % len` otherwise. */
  function StepIndex(kind: PointEdit, len: nat, r1: u32, r2: u32): (j: nat)
    requires len > 0
    ensures j < len
  {
    if kind == Flip then r2 % len else r1 % len
  }

  /** `b ^ (1 << k)`: flipping bit k of a byte. */
  function FlipBit(b: byte, k: nat): (v: byte)
    requires k < 8
  {
    BitXor(b, Pow2(k)) % 256
  }

  lemma {:induction false} FlipBitForm(b: byte, k: nat)
    requires k < 8
    ensures FlipBit(b, k) == BitXor(b, Pow2(k))
    ensures FlipBit(b, k) == if (b / Pow2(k)) % 2 == 1 then b - Pow2(k) else b + Pow2(k)
  {
    Pow2Constants();
    Pow2Monotone(k, 7);
    assert Pow2(7) == 128 by { assert Pow2(4) == 16; }
    BitXorBound(b, Pow2(k), 8);
    DivModUnique(BitXor(b, Pow2(k)), 256, 0, BitXor(b, Pow2(k)));
    BitXorSingle(b, k);
  }

  /** Flipping the same bit twice restores the byte. */
  lemma {:induction false} FlipBitInvolution(b: byte, k: nat)
    requires k < 8
    ensures FlipBit(FlipBit(b, k), k) == b
  {
    FlipBitForm(b, k);
    FlipBitForm(FlipBit(b, k), k);
    BitXorInvolution(b, Pow2(k));
  }

  /** `u8::wrapping_add` and `u8::wrapping_sub`. */
  function WrappingAdd(b: byte, a: byte): byte {
    (b + a) % 256
  }

  function WrappingSub(b: byte, a: byte): byte {
    (b - a) % 256
  }

  /** Wrapping subtraction undoes wrapping addition. */
  lemma {:induction false} WrappingSubAdd(b: byte, a: byte)
    ensures WrappingSub(WrappingAdd(b, a), a) == b
    ensures WrappingAdd(b, a) <= b <==> b + a >= 256 || a == 0
  {
    if b + a >= 256 {
      DivModUnique(b + a, 256, 1, b + a - 256);
      DivModUnique(b, 256, 0, b);
    } else {
      DivModUnique(b + a, 256, 0, b + a);
    }
  }

  /** The new value of the edited byte. Replacement stores the low byte of
      `r2`; a flip toggles bit `r1 % 8`; the arithmetic strategy adds
      `r2 % 32` on even loop counters and subtracts it on odd ones. */
  function StepValue(kind: PointEdit, b: byte, i: nat, r1: u32, r2: u32): byte {
    match kind
    case Replace => r2 % 256
    case Flip => FlipBit(b, r1 % 8)
    case Arith => if i % 2 == 0 then WrappingAdd(b, r2 % 32) else WrappingSub(b, r2 % 32)
  }

  /** An odd-counter step with the same words undoes the even-counter step
      before it. */
  lemma {:induction false} ArithStepsCancel(b: byte, i: nat, r1: u32, r2: u32)
    requires i % 2 == 0
    ensures StepValue(Arith, StepValue(Arith, b, i, r1, r2), i + 1, r1, r2) == b
  {
    WrappingSubAdd(b, r2 % 32);
  }

  /** The number of iterations of the Rust range `lo..hi`. */
  function StepCount(lo: nat, hi: nat): nat {
    if lo < hi then hi - lo else 0
  }

  lemma {:induction false} EditsStep(kind: PointEdit, s: seq<byte>, words: nat -> u32, d: nat, i: nat, hi: nat)
    requires |s| > 0 && i < hi
    ensures Edits(kind, s, words, d, i, hi) == Edits(kind, EditOnce(kind, s, words, d, i), words, d + 2, i + 1, hi)
  {
  }

  /** The loop range of the point strategies: `1..(r2 % 32)` for a small
      corruption (95 in 1000), `64..(64 + r2 % 64)` for a large one. */
  function EditRange(r1: u32, r2: u32): (lh: (nat, nat))
    ensures r1 % 1000 < 950 ==> lh.0 == 1 && StepCount(lh.0, lh.1) <= 30
    ensures r1 % 1000 >= 950 ==> lh.0 == 64 && StepCount(lh.0, lh.1) == r2 % 64
  {
    if r1 % 1000 < 950 then (1, r2 % 32) else (64, 64 + r2 % 64)
  }

  /** The loop iterations i, i+1, ..., hi-1 of a point strategy, the first one
      drawing words d and d+1. */
  function Edits(kind: PointEdit, s: seq<byte>, words: nat -> u32, d: nat, i: nat, hi: nat): (r: seq<byte>)
    requires |s| > 0
    ensures |r| == |s|
    decreases hi - i
  {
    if i >= hi then s
    else Edits(kind, EditOnce(kind, s, words, d, i), words, d + 2, i + 1, hi)
  }

  /** Iteration i of the loop: two words pick the index and the new value. */
  function EditOnce(kind: PointEdit, s: seq<byte>, words: nat -> u32, d: nat, i: nat): (r: seq<byte>)
    requires |s| > 0
    ensures |r| == |s|
  {
    var r1, r2 := words(d), words(d + 1);
    var j := StepIndex(kind, |s|, r1, r2);
    s[j := StepValue(kind, s[j], i, r1, r2)]
  }

  /** The indices those iterations write. */
  function Visited(kind: PointEdit, len: nat, words: nat -> u32, d: nat, i: nat, hi: nat): set<nat>
    requires len > 0
    decreases hi - i
  {
    if i >= hi then {}
    else {StepIndex(kind, len, words(d), words(d + 1))} + Visited(kind, len, words, d + 2, i + 1, hi)
  }

  /** The iterations write only indices within the input, at most one per
      iteration, and every other byte keeps its value. */
  lemma {:induction false} EditsOnlyVisited(kind: PointEdit, s: seq<byte>, words: nat -> u32, d: nat, i: nat, hi: nat)
    requires |s| > 0
    ensures forall j :: j in Visited(kind, |s|, words, d, i, hi) ==> j < |s|
    ensures |Visited(kind, |s|, words, d, i, hi)| <= StepCount(i, hi)
    ensures forall j :: 0 <= j < |s| && j !in Visited(kind, |s|, words, d, i, hi) ==>
      Edits(kind, s, words, d, i, hi)[j] == s[j]
    decreases hi - i
  {
    if i < hi {
      var r1, r2 := words(d), words(d + 1);
      var j0 := StepIndex(kind, |s|, r1, r2);
      var s' := EditOnce(kind, s, words, d, i);
      assert s' == s[j0 := StepValue(kind, s[j0], i, r1, r2)];
      EditsOnlyVisited(kind, s', words, d + 2, i + 1, hi);
      var v' := Visited(kind, |s|, words, d + 2, i + 1, hi);
      assert Visited(kind, |s|, words, d, i, hi) == {j0} + v';
      assert |{j0} + v'| <= 1 + |v'|;
    }
  }

  /** What a strategy did: whether it reported success, the input it left and
      how many random words it drew. */
  datatype Step = Step(ok: bool, bytes: seq<byte>, used: nat)

  /** `byte_replace`, `bit_flip` and `simple_arithmetic`: inputs shorter than
      4 bytes are refused; otherwise one draw picks the loop range and each
      iteration draws again to edit one byte. */
  function PointMutation(kind: PointEdit, s: seq<byte>, words: nat -> u32, d: nat): (st: Step)
    ensures |st.bytes| == |s|
    ensures st.ok <==> |s| >= 4
    ensures !st.ok ==> st.bytes == s && st.used == 0
    ensures st.ok ==> 2 <= st.used <= 128 && st.used % 2 == 0
  {
    if |s| < 4 then Step(false, s, 0)
    else
      var (lo, hi) := EditRange(words(d), words(d + 1));
      Step(true, Edits(kind, s, words, d + 2, lo, hi), 2 + 2 * StepCount(lo, hi))
  }

  /** A point strategy changes at most 63 bytes, and only at the indices its
      iterations picked. */
  lemma {:induction false} PointMutationLocal(kind: PointEdit, s: seq<byte>, words: nat -> u32, d: nat)
    requires |s| >= 4
    ensures var (lo, hi) := EditRange(words(d), words(d + 1));
      var v := Visited(kind, |s|, words, d + 2, lo, hi);
      |v| <= 63 &&
      forall j :: 0 <= j < |s| && j !in v ==> PointMutation(kind, s, words, d).bytes[j] == s[j]
  {
    var (lo, hi) := EditRange(words(d), words(d + 1));
    EditsOnlyVisited(kind, s, words, d + 2, lo, hi);
  }

  /** The thirteen values `magic_nums` splices in. */
  const MAGIC: seq<seq<byte>> := [
    [0x00], [0x00, 0x00], [0x00, 0x00, 0x00, 0x00], [0x00, 0x00, 0x00, 0x00, 0x00, 0x00, 0x00, 0x00],
    [0xff], [0xff, 0xff], [0xff, 0xff, 0xff, 0xff], [0xff, 0xff, 0xff, 0xff, 0xff, 0xff, 0xff, 0xff],
    [0x7f], [0x7f, 0xff], [0x7f, 0xff, 0xff, 0xff], [0x7f, 0xff, 0xff, 0xff, 0xff, 0xff, 0xff, 0xff],
    [0x01, 0x00, 0x00]
  ]

  /** `magic_nums`: inputs shorter than 32 bytes are refused; otherwise the
      whole tail from a random start is replaced by one magic value, so the
      input never grows. */
  function MagicSplice(s: seq<byte>, words: nat -> u32, d: nat): (st: Step)
    ensures st.ok <==> |s| >= 32
    ensures !st.ok ==> st.bytes == s && st.used == 0
    ensures st.ok ==> (st.used == 2 &&
      var start := words(d) % (|s| - 8);
      start < |st.bytes| < |s| && st.bytes[..start] == s[..start] && st.bytes[start..] in MAGIC)
  {
    if |s| < 32 then Step(false, s, 0)
    else
      var start := words(d) % (|s| - 8);
      var magic := MAGIC[words(d + 1) % |MAGIC|];
      Step(true, s[..start] + magic, 2)
  }

  /** `remove_block`: cut at most 511 bytes from a random start, refusing
      inputs shorter than 32 bytes and cuts that would leave fewer than 32. */
  function RemoveBlockSpec(s: seq<byte>, words: nat -> u32, d: nat): (st: Step)
    ensures |s| < 32 ==> st == Step(false, s, 0)
    ensures |s| >= 32 ==> st.used == 2
    ensures |s| >= 32 ==> (st.ok <==> |s| - Min(|s| - words(d) % |s|, words(d + 1) % 512) >= 32)
    ensures !st.ok ==> st.bytes == s
    ensures st.ok ==> (32 <= |st.bytes| <= |s| &&
      var start, removed := words(d) % |s|, |s| - |st.bytes|;
      removed < 512 && start + removed <= |s| && st.bytes == s[..start] + s[start + removed..])
  {
    if |s| < 32 then Step(false, s, 0)
    else
      var start := words(d) % |s|;
      var end := start + Min(|s| - start, words(d + 1) % 512);
      if |s| - (end - start) < 32 then Step(false, s, 2)
      else Step(true, s[..start] + s[end..], 2)
  }

  /** `duplicate_block`: copy a block of at most 127 bytes from a random
      start and insert the copy at a random index, refusing inputs shorter
      than 32 bytes. */
  function DuplicateBlockSpec(s: seq<byte>, words: nat -> u32, d: nat): (st: Step)
    ensures st.ok <==> |s| >= 32
    ensures !st.ok ==> st.bytes == s && st.used == 0
    ensures st.ok ==> (st.used == 3 && |s| <= |st.bytes| < |s| + 128 &&
      var n, start, idx := |st.bytes| - |s|, words(d) % |s|, words(d + 2) % |s|;
      start + n <= |s| && st.bytes == s[..idx] + s[start..start + n] + s[idx..])
  {
    if |s| < 32 then Step(false, s, 0)
    else
      var start := words(d) % |s|;
      var end := start + Min(|s| - start, words(d + 1) % 128);
      var idx := words(d + 2) % |s|;
      Step(true, s[..idx] + s[start..end] + s[idx..], 3)
  }

  /** n 64-bit draws starting at word d, as bytes (least significant byte
      first). */
  function RandomBytes(words: nat -> u32, d: nat, n: nat): (r: seq<byte>)
    ensures |r| == 8 * n
  {
    if n == 0 then [] else RandomBytes(words, d, n - 1) + Le(NextU64Value(words, d + 2 * (n - 1)), 8)
  }

  /** `resize`: an even first word truncates, an odd one appends random
      bytes. */
  function ResizeSpec(s: seq<byte>, words: nat -> u32, d: nat): Step
  {
    var r1, r2 := words(d), words(d + 1);
    if r1 % 2 == 0 then
      if |s| < 32 then Step(false, s, 2)
      else
        var t := (r2 % (|s| / 2)) % 512;
        if t < 32 then Step(false, s, 2) else Step(true, s[..t], 2)
    else
      var size := if |s| < 32 then 32 else (r2 % (|s| / 2)) % 512;
      Step(true, s + RandomBytes(words, d + 2, size / 8), 2 + 2 * (size / 8))
  }

  /** Truncation is refused for inputs shorter than 32 bytes and for new
      lengths below 32; otherwise the input keeps exactly its first
      `(r2 % (len / 2)) % 512` bytes, at least 32 and fewer than half its
      length and 512. */
  lemma {:induction false} ResizeTruncates(s: seq<byte>, words: nat -> u32, d: nat)
    requires words(d) % 2 == 0
    ensures var st := ResizeSpec(s, words, d);
      st.used == 2 &&
      (st.ok <==> |s| >= 32 && (words(d + 1) % (|s| / 2)) % 512 >= 32) &&
      (!st.ok ==> st.bytes == s) &&
      (st.ok ==> |st.bytes| == (words(d + 1) % (|s| / 2)) % 512 && st.bytes == s[..|st.bytes|]) &&
      (st.ok ==> 32 <= |st.bytes| < Min(|s| / 2, 512))
  {
  }

  /** Growing always succeeds and appends `size / 8` whole 64-bit draws,
      where size is 32 for an input shorter than 32 bytes and
      `(r2 % (len / 2)) % 512` otherwise: 32 bytes, or fewer than 512. */
  lemma {:induction false} ResizeGrows(s: seq<byte>, words: nat -> u32, d: nat)
    requires words(d) % 2 == 1
    ensures var st := ResizeSpec(s, words, d);
      var size := if |s| < 32 then 32 else (words(d + 1) % (|s| / 2)) % 512;
      st.ok && |s| <= |st.bytes| && st.bytes[..|s|] == s &&
      |st.bytes| == |s| + 8 * (size / 8) && st.used == 2 + 2 * (size / 8) &&
      (|st.bytes| - |s|) % 8 == 0 &&
      (if |s| < 32 then |st.bytes| == |s| + 32 else |st.bytes| < |s| + 512)
  {
    var size := if |s| < 32 then 32 else (words(d + 1) % (|s| / 2)) % 512;
    var added := RandomBytes(words, d + 2, size / 8);
    MulMod(8, size / 8);
    assert (s + added)[..|s|] == s;
  }

  /** `dict_replace`: overwrite the input with a random dictionary entry at a
      random index, refusing inputs no longer than the entry. Without a
      dictionary the `unwrap` fails, and an empty one makes the index
      computation divide by zero. */
  function DictReplaceSpec(dict: Option<seq<seq<byte>>>, s: seq<byte>, words: nat -> u32, d: nat): (r: Outcome<Step>)
    ensures dict.None? ==> r == Panic(MissingDictionary)
    ensures dict == Some([]) ==> r == Panic(EmptyDictionary)
    ensures r.Panic? ==> dict.None? || dict.value == []
    ensures r.Return? ==> |r.value.bytes| == |s| && (r.value.used == if r.value.ok then 3 else 1)
    ensures r.Return? && !r.value.ok ==> r.value.bytes == s
    ensures r.Return? ==> (r.value.ok <==> |s| > |dict.value[words(d) % |dict.value|]|)
  {
    if dict.None? then Panic(MissingDictionary)
    else if |dict.value| == 0 then Panic(EmptyDictionary)
    else
      var entry := dict.value[words(d) % |dict.value|];
      if |s| <= |entry| then Return(Step(false, s, 1))
      else
        var idx := NextU64Value(words, d + 1) % (|s| - |entry|);
        Return(Step(true, s[..idx] + entry + s[idx + |entry|..], 3))
  }

  /** A successful replacement writes the entry at an index below
      `len - |entry|` and leaves every other byte as it was. */
  lemma {:induction false} DictReplaceWrites(dict: Option<seq<seq<byte>>>, s: seq<byte>, words: nat -> u32, d: nat)
    requires DictReplaceSpec(dict, s, words, d).Return? && DictReplaceSpec(dict, s, words, d).value.ok
    ensures var entry := dict.value[words(d) % |dict.value|];
      var idx := NextU64Value(words, d + 1) % (|s| - |entry|);
      var r := DictReplaceSpec(dict, s, words, d).value.bytes;
      idx < |s| - |entry| && r[idx..idx + |entry|] == entry &&
      forall j :: 0 <= j < |s| && !(idx <= j < idx + |entry|) ==> r[j] == s[j]
  {
    var entry := dict.value[words(d) % |dict.value|];
    var idx := NextU64Value(words, d + 1) % (|s| - |entry|);
    var r := DictReplaceSpec(dict, s, words, d).value.bytes;
    assert r == s[..idx] + entry + s[idx + |entry|..];
    assert r[idx..idx + |entry|] == entry;
  }

  /** A sequence that agrees with the entry on the window at idx and with s
      elsewhere is s with that window replaced. */
  lemma {:induction false} Overwritten(s: seq<byte>, entry: seq<byte>, idx: nat, r: seq<byte>)
    requires idx + |entry| <= |s| && |r| == |s|
    requires forall j :: 0 <= j < |s| ==> r[j] == if idx <= j < idx + |entry| then entry[j - idx] else s[j]
    ensures r == s[..idx] + entry + s[idx + |entry|..]
  {
    var t := s[..idx] + entry + s[idx + |entry|..];
    assert |t| == |r|;
    forall j | 0 <= j < |r|
      ensures r[j] == t[j]
    {
      if j < idx {
      } else if j < idx + |entry| {
        assert t[j] == entry[j - idx];
      } else {
        assert t[j] == s[idx + |entry|..][j - idx - |entry|];
      }
    }
  }

  /** One strategy applied to the input. */
  function Apply(m: Mutation, dict: Option<seq<seq<byte>>>, s: seq<byte>, words: nat -> u32, d: nat): (r: Outcome<Step>)
    ensures r.Panic? ==> m == Dictionary && (dict.None? || dict.value == [])
    ensures r.Return? && !r.value.ok ==> r.value.bytes == s
  {
    match m
    case ByteReplace => Return(PointMutation(Replace, s, words, d))
    case BitFlip => Return(PointMutation(Flip, s, words, d))
    case MagicNum => Return(MagicSplice(s, words, d))
    case SimpleArithmetic => Return(PointMutation(Arith, s, words, d))
    case RemoveBlock => Return(RemoveBlockSpec(s, words, d))
    case DupBlock => Return(DuplicateBlockSpec(s, words, d))
    case Resize => Return(ResizeSpec(s, words, d))
    case Dictionary => DictReplaceSpec(dict, s, words, d)
  }

  /** A strategy drawn from the table fails fatally only when a dictionary
      was given and it is empty: without one, `Dictionary` is not in the
      table. */
  lemma {:induction false} DrawnApplyPanics(m: Mutation, dict: Option<seq<seq<byte>>>, s: seq<byte>, words: nat -> u32, d: nat)
    requires m in StrategyTable(dict.Some?)
    ensures Apply(m, dict, s, words, d).Panic? ==> dict == Some([]) && Apply(m, dict, s, words, d).fault == EmptyDictionary
  {
    if Apply(m, dict, s, words, d).Panic? {
      StrategyWeights(dict.Some?, Dictionary);
    }
  }

  /** The havoc counter after n calls of `mutate` on a fresh mutator. */
  function HavocCounter(n: nat): nat {
    if n == 0 then 0
    else if HavocCounter(n - 1) + 1 == 100 then 0
    else HavocCounter(n - 1) + 1
  }

  /** The counter is the number of calls modulo 100, so havoc mode runs on
      exactly every hundredth call. */
  lemma {:induction false} HavocEveryHundred(n: nat)
    ensures HavocCounter(n) == n % 100
    ensures n > 0 ==> (HavocCounter(n - 1) + 1 == 100 <==> n % 100 == 0)
  {
    if n > 0 {
      HavocEveryHundred(n - 1);
    }
  }

  /** The input vector a strategy edits in place. */
  class ByteVec {
    var bytes: seq<byte>

    constructor (init: seq<byte>)
      ensures bytes == init
    {
      bytes := init;
    }
  }

  class Mutator {
    const words: nat -> u32
    var drawn: nat
    const mutationStrats: seq<Mutation>
    var havocCounter: nat
    const dictionary: Option<seq<seq<byte>>>

    ghost predicate Valid()
      reads this
    {
      mutationStrats == StrategyTable(dictionary.Some?) && havocCounter < 100
    }

    /** `Mutator::new`, given the generator's output and the parsed
        dictionary. */
    constructor (words: nat -> u32, dictionary: Option<seq<seq<byte>>>)
      ensures this.words == words && this.dictionary == dictionary
      ensures drawn == 0 && havocCounter == 0
      ensures mutationStrats == StrategyTable(dictionary.Some?)
      ensures Valid()
    {
      this.words := words;
      this.dictionary := dictionary;
      drawn := 0;
      havocCounter := 0;
      mutationStrats := StrategyTable(dictionary.Some?);
    }

    method NextU32() returns (w: u32)
      modifies this`drawn
      ensures w == words(old(drawn)) && drawn == old(drawn) + 1
    {
      w := words(drawn);
      drawn := drawn + 1;
    }

    method NextU64() returns (w: u64)
      modifies this`drawn
      ensures w == NextU64Value(words, old(drawn)) && drawn == old(drawn) + 2
    {
      var lo := NextU32();
      var hi := NextU32();
      w := hi * U32_LIMIT + lo;
    }

    /** `get2_rand`: the low and the high half of one 64-bit draw. */
    method Get2Rand() returns (r1: u32, r2: u32)
      modifies this`drawn
      ensures r1 == words(old(drawn)) && r2 == words(old(drawn) + 1)
      ensures drawn == old(drawn) + 2
    {
      var tmp := NextU64();
      Pow2Constants();
      BitAndLowBits(tmp, 32);
      NextU64Halves(words, old(drawn));
      r1 := BitAnd(tmp, 0xffffffff);
      r2 := tmp / U32_LIMIT;
    }

    /** Iteration i of the point strategies' loop over `lo..hi`: it performs
        the first of the remaining iterations i..hi. */
    method EditStep(kind: PointEdit, input: ByteVec, i: nat, hi: nat)
      requires |input.bytes| > 0 && i < hi
      modifies input, this`drawn
      ensures input.bytes == EditOnce(kind, old(input.bytes), words, old(drawn), i)
      ensures Edits(kind, old(input.bytes), words, old(drawn), i, hi) == Edits(kind, input.bytes, words, drawn, i + 1, hi)
      ensures drawn == old(drawn) + 2
    {
      EditsStep(kind, input.bytes, words, drawn, i, hi);
      var r1, r2 := Get2Rand();
      var j := StepIndex(kind, |input.bytes|, r1, r2);
      input.bytes := input.bytes[j := StepValue(kind, input.bytes[j], i, r1, r2)];
    }

    /** The loop shared by the three point strategies. */
    method PointEdits(kind: PointEdit, input: ByteVec, lo: nat, hi: nat)
      requires |input.bytes| > 0
      modifies input, this`drawn
      ensures input.bytes == Edits(kind, old(input.bytes), words, old(drawn), lo, hi)
      ensures drawn == old(drawn) + 2 * StepCount(lo, hi)
    {
      ghost var s0, d0 := input.bytes, drawn;
      ghost var target := Edits(kind, s0, words, d0, lo, hi);
      if hi <= lo {
        return;
      }
      var i := lo;
      while i < hi
        invariant lo <= i <= hi
        invariant |input.bytes| == |s0|
        invariant target == Edits(kind, input.bytes, words, drawn, i, hi)
        invariant drawn == d0 + 2 * (i - lo)
        decreases hi - i
      {
        EditStep(kind, input, i, hi);
        i := i + 1;
      }
    }

    method PointStrategy(kind: PointEdit, input: ByteVec) returns (ok: bool)
      modifies input, this`drawn
      ensures var st := PointMutation(kind, old(input.bytes), words, old(drawn));
        ok == st.ok && input.bytes == st.bytes && drawn == old(drawn) + st.used
    {
      if |input.bytes| < 4 {
        return false;
      }
      var r1, r2 := Get2Rand();
      var (lo, hi) := EditRange(r1, r2);
      PointEdits(kind, input, lo, hi);
      ok := true;
    }

    /** `byte_replace`. */
    method ByteReplace(input: ByteVec) returns (ok: bool)
      modifies input, this`drawn
      ensures var st := PointMutation(Replace, old(input.bytes), words, old(drawn));
        ok == st.ok && input.bytes == st.bytes && drawn == old(drawn) + st.used
    {
      ok := PointStrategy(Replace, input);
    }

    /** `bit_flip`. */
    method BitFlip(input: ByteVec) returns (ok: bool)
      modifies input, this`drawn
      ensures var st := PointMutation(Flip, old(input.bytes), words, old(drawn));
        ok == st.ok && input.bytes == st.bytes && drawn == old(drawn) + st.used
    {
      ok := PointStrategy(Flip, input);
    }

    /** `simple_arithmetic`. */
    method SimpleArithmetic(input: ByteVec) returns (ok: bool)
      modifies input, this`drawn
      ensures var st := PointMutation(Arith, old(input.bytes), words, old(drawn));
        ok == st.ok && input.bytes == st.bytes && drawn == old(drawn) + st.used
    {
      ok := PointStrategy(Arith, input);
    }

    /** `magic_nums`. */
    method MagicNums(input: ByteVec) returns (ok: bool)
      modifies input, this`drawn
      ensures var st := MagicSplice(old(input.bytes), words, old(drawn));
        ok == st.ok && input.bytes == st.bytes && drawn == old(drawn) + st.used
    {
      if |input.bytes| < 32 {
        return false;
      }
      var r1, r2 := Get2Rand();
      var start := r1 % (|input.bytes| - 8);
      input.bytes := input.bytes[..start] + MAGIC[r2 % |MAGIC|];
      ok := true;
    }

    /** `remove_block`. */
    method RemoveBlock(input: ByteVec) returns (ok: bool)
      modifies input, this`drawn
      ensures var st := RemoveBlockSpec(old(input.bytes), words, old(drawn));
        ok == st.ok && input.bytes == st.bytes && drawn == old(drawn) + st.used
    {
      var len := |input.bytes|;
      if len < 32 {
        return false;
      }
      var r1, r2 := Get2Rand();
      var start := r1 % len;
      var end := start + Min(len - start, r2 % 512);
      if len - (end - start) < 32 {
        return false;
      }
      input.bytes := input.bytes[..start] + input.bytes[end..];
      ok := true;
    }

    /** `duplicate_block`. */
    method DuplicateBlock(input: ByteVec) returns (ok: bool)
      modifies input, this`drawn
      ensures var st := DuplicateBlockSpec(old(input.bytes), words, old(drawn));
        ok == st.ok && input.bytes == st.bytes && drawn == old(drawn) + st.used
    {
      var len := |input.bytes|;
      if len < 32 {
        return false;
      }
      var r1, r2 := Get2Rand();
      var start := r1 % len;
      var end := start + Min(len - start, r2 % 128);
      var w := NextU32();
      var idx := w % len;
      var v := input.bytes[start..end];
      var p2 := input.bytes[idx..];
      input.bytes := input.bytes[..idx] + v + p2;
      ok := true;
    }

    /** `resize`. */
    method Resize(input: ByteVec) returns (ok: bool)
      modifies input, this`drawn
      ensures var st := ResizeSpec(old(input.bytes), words, old(drawn));
        ok == st.ok && input.bytes == st.bytes && drawn == old(drawn) + st.used
    {
      var len := |input.bytes|;
      var r1, r2 := Get2Rand();
      if r1 % 2 == 0 {
        if len < 32 {
          return false;
        }
        var truncVal := (r2 % (len / 2)) % 512;
        if truncVal < 32 {
          return false;
        }
        input.bytes := input.bytes[..truncVal];
      } else {
        var size := if len < 32 then 32 else (r2 % (len / 2)) % 512;
        var d0 := drawn;
        var randBytes: seq<byte> := [];
        var k := 0;
        while k < size / 8
          invariant 0 <= k <= size / 8
          invariant randBytes == RandomBytes(words, d0, k)
          invariant drawn == d0 + 2 * k
          invariant input.bytes == old(input.bytes)
        {
          var x := NextU64();
          randBytes := randBytes + Le(x, 8);
          k := k + 1;
        }
        input.bytes := input.bytes + randBytes;
      }
      ok := true;
    }

    /** `dict_replace`. */
    method DictReplace(input: ByteVec) returns (r: Outcome<bool>)
      modifies input, this`drawn
      ensures var st := DictReplaceSpec(dictionary, old(input.bytes), words, old(drawn));
        (st.Panic? ==> r == Panic(st.fault)) &&
        (st.Return? ==> r == Return(st.value.ok) && input.bytes == st.value.bytes && drawn == old(drawn) + st.value.used)
    {
      var w := NextU32();
      if dictionary.None? {
        return Panic(MissingDictionary);
      }
      var dict := dictionary.value;
      if |dict| == 0 {
        return Panic(EmptyDictionary);
      }
      var entry := dict[w % |dict|];
      if |input.bytes| <= |entry| {
        return Return(false);
      }
      var x := NextU64();
      var idx := x % (|input.bytes| - |entry|);
      ghost var s0 := input.bytes;
      var k := 0;
      while k < |entry|
        invariant 0 <= k <= |entry|
        invariant |input.bytes| == |s0| && drawn == old(drawn) + 3
        invariant forall j :: 0 <= j < |s0| ==> input.bytes[j] == if idx <= j < idx + k then entry[j - idx] else s0[j]
      {
        input.bytes := input.bytes[idx + k := entry[k]];
        k := k + 1;
      }
      Overwritten(s0, entry, idx, input.bytes);
      r := Return(true);
    }

    /** `chose_mut`: one table slot, chosen by one draw. */
    method ChoseMut() returns (m: Mutation)
      requires Valid()
      modifies this`drawn
      ensures m == mutationStrats[words(old(drawn)) % |mutationStrats|] && m in mutationStrats
      ensures drawn == old(drawn) + 1
    {
      var w := NextU32();
      m := mutationStrats[w % |mutationStrats|];
    }

    /** The dispatch of `mutate`'s inner loop. */
    method ApplyMutation(m: Mutation, input: ByteVec) returns (r: Outcome<bool>)
      modifies input, this`drawn
      ensures var st := Apply(m, dictionary, old(input.bytes), words, old(drawn));
        (st.Panic? ==> r == Panic(st.fault)) &&
        (st.Return? ==> r == Return(st.value.ok) && input.bytes == st.value.bytes && drawn == old(drawn) + st.value.used)
    {
      match m {
        case ByteReplace =>
          var ok := ByteReplace(input);
          r := Return(ok);
        case BitFlip =>
          var ok := BitFlip(input);
          r := Return(ok);
        case MagicNum =>
          var ok := MagicNums(input);
          r := Return(ok);
        case SimpleArithmetic =>
          var ok := SimpleArithmetic(input);
          r := Return(ok);
        case RemoveBlock =>
          var ok := RemoveBlock(input);
          r := Return(ok);
        case DupBlock =>
          var ok := DuplicateBlock(input);
          r := Return(ok);
        case Resize =>
          var ok := Resize(input);
          r := Return(ok);
        case Dictionary =>
          r := DictReplace(input);
      }
    }

    /** The first half of `mutate`: advance the havoc counter and queue one
        mutation, or, on reaching 100, reset it and queue `w % 8 - 1` of them
        (none when `w % 8` is 0). */
    method QueueMutations() returns (muts: seq<Mutation>)
      requires Valid()
      modifies this`drawn, this`havocCounter
      ensures Valid()
      ensures havocCounter == (old(havocCounter) + 1) % 100
      ensures old(havocCounter) + 1 < 100 ==> |muts| == 1
      ensures old(havocCounter) + 1 == 100 ==>
        |muts| == (if words(old(drawn)) % 8 == 0 then 0 else words(old(drawn)) % 8 - 1) && |muts| <= 6
      ensures forall i :: 0 <= i < |muts| ==> muts[i] in mutationStrats
    {
      havocCounter := havocCounter + 1;
      muts := [];
      if havocCounter == 100 {
        havocCounter := 0;
        var w := NextU32();
        var n := w % 8;
        var k := 1;
        while k < n
          invariant 1 <= k && (k <= n || k == 1)
          invariant |muts| == k - 1
          invariant havocCounter == 0 && Valid()
          invariant forall i :: 0 <= i < |muts| ==> muts[i] in mutationStrats
        {
          var m := ChoseMut();
          muts := muts + [m];
          k := k + 1;
        }
      } else {
        var m := ChoseMut();
        muts := [m];
      }
    }

    /** `mutate`. Each queued strategy is retried with a freshly chosen one
        until a strategy succeeds; `fuel` bounds the number of retries, and
        running out of it gives Return(false). Only a configured but empty
        dictionary can make a call fatal: without a dictionary the table has
        no dictionary slots. */
    method Mutate(input: ByteVec, fuel: nat) returns (r: Outcome<bool>)
      requires Valid()
      modifies input, this`drawn, this`havocCounter
      ensures Valid()
      ensures havocCounter == (old(havocCounter) + 1) % 100
      ensures r.Panic? ==> dictionary == Some([]) && r.fault == EmptyDictionary
    {
      var muts := QueueMutations();
      ghost var counter := havocCounter;
      var budget := fuel;
      var i := 0;
      while i < |muts|
        invariant 0 <= i <= |muts|
        invariant havocCounter == counter && Valid()
      {
        var res;
        res, budget := Retry(muts[i], input, budget);
        if res.Panic? || !res.value {
          return res;
        }
        i := i + 1;
      }
      r := Return(true);
    }

    /** The retry loop of `mutate` for one queued strategy m: apply it, and
        while it fails draw another strategy from the table and apply that.
        Return(false) means the retry budget ran out. */
    method Retry(m: Mutation, input: ByteVec, budget: nat) returns (r: Outcome<bool>, left: nat)
      requires Valid() && m in mutationStrats
      modifies input, this`drawn
      ensures Valid()
      ensures left <= budget
      ensures r == Return(false) ==> left == 0
      ensures r.Panic? ==> dictionary == Some([]) && r.fault == EmptyDictionary
    {
      var cur := m;
      left := budget;
      while true
        invariant Valid() && cur in mutationStrats && left <= budget
        decreases left
      {
        DrawnApplyPanics(cur, dictionary, input.bytes, words, drawn);
        var res := ApplyMutation(cur, input);
        if res.Panic? {
          return res, left;
        }
        if res.value {
          return Return(true), left;
        }
        if left == 0 {
          return Return(false), left;
        }
        left := left - 1;
        cur := ChoseMut();
      }
    }
  }
}
