/** Types and arithmetic shared by every module of the model: the machine's
    fixed-width integers, the byte, the outcome of a Rust call that may panic,
    and the bit operations the source writes with `&` and `!`. */
module Common {

  const U32_LIMIT: int := 0x1_0000_0000
  const U64_LIMIT: int := 0x1_0000_0000_0000_0000
  const I64_MAX: int := 0x7fff_ffff_ffff_ffff

  type u32 = x: int | 0 <= x < U32_LIMIT
  type u64 = x: int | 0 <= x < U64_LIMIT
  type byte = x: int | 0 <= x < 256

  /** `!0` on a 64-bit register: the all-ones word the handlers return as an error. */
  const ALL_ONES: u64 := U64_LIMIT - 1

  datatype Option<T> = None | Some(value: T)

  /** The errors the CPU emulator reports (a subset of Unicorn's `uc_error`). */
  datatype UcError = ErrArg | ErrNoMem | ErrMap | ErrReadUnmapped | ErrWriteUnmapped

  /** `Result<T, uc_error>`. */
  datatype UcResult<T> = Ok(value: T) | Err(error: UcError)

  /** Why the process stops abruptly: a `panic!`, an `unwrap`/`expect` on an error,
      an `unreachable!`, an arithmetic overflow caught by Rust's checks, or `error_exit`. */
  datatype Fault =
    | InvalidFree(addr: int)
    | UnallocatedFree(addr: int)
    | OutOfMemory
    | UnsupportedWrite
    | EchoReadFailed
    | BrkUnsupported
    | FstatOther
    | FuzzInputCopyFailed
    | MissingCursor
    | UnimplementedSyscall(number: int)
    | UnsupportedInterrupt(number: int)
    | Unwrapped(error: UcError)
    | ArithmeticOverflow
    | SliceOutOfRange
    | AlignmentMismatch
    | ElfRejected
    | EmptyDictionary
    | MissingDictionary
    | MissingTarget
    | MissingPlaceholder

  /** A Rust call either returns a value or panics. */
  datatype Outcome<T> = Return(value: T) | Panic(fault: Fault)

  /** A handler of type `fn(..) -> Result<(), uc_error>`, which may also panic. */
  type Status = Outcome<UcResult<()>>

  const DONE: Status := Return(Ok(()))

  function Min(a: int, b: int): (m: int)
    ensures m <= a && m <= b
    ensures m == a || m == b
  {
    if a <= b then a else b
  }

  function Pow2(k: nat): (p: nat)
    ensures p >= 1
  {
    if k == 0 then 1 else 2 * Pow2(k - 1)
  }

  /** Bitwise `&` of two naturals, bit by bit from the least significant one. */
  function BitAnd(x: nat, y: nat): nat
    decreases x
  {
    if x == 0 || y == 0 then 0
    else 2 * BitAnd(x / 2, y / 2) + (if x % 2 == 1 && y % 2 == 1 then 1 else 0)
  }

  /** Bitwise `^` of two naturals. */
  function BitXor(x: nat, y: nat): nat
    decreases x + y
  {
    if x == 0 && y == 0 then 0
    else 2 * BitXor(x / 2, y / 2) + (x % 2 + y % 2) % 2
  }

  /** Bitwise `!` on a 64-bit word. */
  function Not64(m: u64): u64 {
    U64_LIMIT - 1 - m
  }

  lemma {:induction false} Pow2Add(a: nat, b: nat)
    ensures Pow2(a + b) == Pow2(a) * Pow2(b)
  {
    if a > 0 {
      Pow2Add(a - 1, b);
    }
  }

  lemma {:induction false} Pow2Constants()
    ensures Pow2(0) == 1 && Pow2(1) == 2 && Pow2(2) == 4
    ensures Pow2(8) == 256 && Pow2(12) == 0x1000
    ensures Pow2(32) == U32_LIMIT
    ensures Pow2(64) == U64_LIMIT
  {
    assert Pow2(1) == 2;
    Pow2Add(1, 1);
    assert Pow2(2) == 4;
    Pow2Add(2, 2);
    assert Pow2(4) == 16;
    Pow2Add(4, 4);
    assert Pow2(8) == 256;
    Pow2Add(8, 4);
    assert Pow2(12) == 0x1000;
    Pow2Add(8, 8);
    assert Pow2(16) == 0x1_0000;
    Pow2Add(16, 16);
    assert Pow2(32) == 0x1_0000_0000;
    Pow2Add(32, 32);
    assert Pow2(64) == 0x1_0000_0000 * 0x1_0000_0000;
  }

  /** Splitting off the lowest bit: x / 2m and x % 2m in terms of x / 2. */
  lemma {:induction false} DivModHalf(x: nat, m: nat)
    requires m > 0
    ensures x / (2 * m) == (x / 2) / m
    ensures x % (2 * m) == 2 * ((x / 2) % m) + x % 2
  {
    var q, r := (x / 2) / m, (x / 2) % m;
    assert x / 2 == q * m + r;
    assert x == q * (2 * m) + (2 * r + x % 2);
    assert 0 <= 2 * r + x % 2 < 2 * m;
    DivModUnique(x, 2 * m, q, 2 * r + x % 2);
  }

  lemma {:induction false} DivModUnique(x: int, d: int, q: int, r: int)
    requires d > 0 && 0 <= r < d && x == q * d + r
    ensures x / d == q && x % d == r
  {
    var q', r' := x / d, x % d;
    assert x == q' * d + r';
    assert (q - q') * d == r' - r by {
      assert (q - q') * d == q * d - q' * d;
    }
    if q - q' >= 1 {
      MulAtLeast(q - q', d);
    } else if q' - q >= 1 {
      assert (q' - q) * d == r - r';
      MulAtLeast(q' - q, d);
    }
  }

  lemma {:induction false} MulAtLeast(a: int, d: int)
    requires a >= 1 && d > 0
    ensures a * d >= d
  {
    assert a * d == d + (a - 1) * d;
  }

  lemma {:induction false} Pow2Monotone(k: nat, n: nat)
    requires k <= n
    ensures Pow2(k) <= Pow2(n)
  {
    if k < n {
      Pow2Monotone(k, n - 1);
    }
  }

  /** An all-ones mask keeps every bit below it. */
  lemma {:induction false} BitAndAllOnes(x: nat, n: nat)
    requires x < Pow2(n)
    ensures BitAnd(x, Pow2(n) - 1) == x
  {
    if n > 0 && x > 0 {
      assert (Pow2(n) - 1) / 2 == Pow2(n - 1) - 1;
      BitAndAllOnes(x / 2, n - 1);
    }
  }

  /** A mask of the low n bits keeps the value modulo 2^n. */
  lemma {:induction false} BitAndLowBits(x: nat, n: nat)
    ensures BitAnd(x, Pow2(n) - 1) == x % Pow2(n)
  {
    if n == 0 {
      assert Pow2(n) - 1 == 0;
    } else if x == 0 {
      assert BitAnd(x, Pow2(n) - 1) == 0;
    } else {
      BitAndLowBits(x / 2, n - 1);
      LowBitsStep(x, n);
    }
  }

  lemma {:induction false} LowBitsStep(x: nat, n: nat)
    requires x > 0 && n > 0 && BitAnd(x / 2, Pow2(n - 1) - 1) == (x / 2) % Pow2(n - 1)
    ensures BitAnd(x, Pow2(n) - 1) == x % Pow2(n)
  {
    var p := Pow2(n - 1);
    var m := Pow2(n) - 1;
    assert m == 2 * p - 1;
    assert m % 2 == 1 && m / 2 == p - 1;
    BitAndOdd(x, m);
    DivModHalf(x, p);
  }

  lemma {:induction false} BitAndOdd(x: nat, m: nat)
    requires x > 0 && m % 2 == 1
    ensures BitAnd(x, m) == 2 * BitAnd(x / 2, m / 2) + x % 2
  {
  }

  /** A mask with the low k bits clear rounds down to a multiple of 2^k. */
  lemma {:induction false} BitAndClearLow(x: nat, n: nat, k: nat)
    requires k <= n && x < Pow2(n)
    ensures Pow2(k) <= Pow2(n)
    ensures BitAnd(x, Pow2(n) - Pow2(k)) == Pow2(k) * (x / Pow2(k))
  {
    Pow2Monotone(k, n);
    if k == 0 {
      BitAndAllOnes(x, n);
      assert Pow2(k) * (x / Pow2(k)) == x;
    } else if n == k {
      var d := Pow2(k);
      assert x / d == 0 by {
        DivModUnique(x, d, 0, x);
      }
      assert BitAnd(x, 0) == 0;
      MulZero(d);
    } else if x > 0 {
      assert x / 2 < Pow2(n - 1);
      BitAndClearLow(x / 2, n - 1, k - 1);
      ClearLowStep(x, n, k);
    } else {
      assert BitAnd(0, Pow2(n) - Pow2(k)) == 0;
      assert 0 / Pow2(k) == 0;
      MulZero(Pow2(k));
    }
  }

  lemma {:induction false} MulZero(d: int)
    ensures d * 0 == 0
  {
  }

  /** One step of BitAndClearLow: from the bits above the lowest to the whole word. */
  lemma {:induction false} ClearLowStep(x: nat, n: nat, k: nat)
    requires 0 < k < n && x > 0
    requires Pow2(k - 1) <= Pow2(n - 1)
    requires BitAnd(x / 2, Pow2(n - 1) - Pow2(k - 1)) == Pow2(k - 1) * ((x / 2) / Pow2(k - 1))
    ensures Pow2(k) <= Pow2(n)
    ensures BitAnd(x, Pow2(n) - Pow2(k)) == Pow2(k) * (x / Pow2(k))
  {
    var p, q := Pow2(k - 1), Pow2(n - 1);
    Pow2Monotone(k, n - 1);
    assert Pow2(n) == 2 * q && Pow2(k) == 2 * p;
    var h, b := BitAnd(x / 2, q - p), BitAnd(x, 2 * q - 2 * p);
    MaskStep(x, q, p);
    var z, w := (x / 2) / p, x / (2 * p);
    assert w == z by {
      DivModHalf(x, p);
    }
    Combine(b, h, p, z, w);
  }

  lemma {:induction false} MaskStep(x: nat, q: nat, p: nat)
    requires 0 < p < q && x > 0
    ensures BitAnd(x, 2 * q - 2 * p) == 2 * BitAnd(x / 2, q - p)
  {
    HalfMask(x, q, p);
    BitAndEven(x, 2 * q - 2 * p);
  }

  lemma {:induction false} Combine(b: int, h: int, p: int, z: int, w: int)
    requires b == 2 * h && h == p * z && w == z
    ensures b == (2 * p) * w
  {
  }

  lemma {:induction false} HalfMask(x: nat, q: nat, p: nat)
    requires p < q
    ensures 2 * q - 2 * p > 0 && (2 * q - 2 * p) % 2 == 0 && (2 * q - 2 * p) / 2 == q - p
  {
    DivModUnique(2 * q - 2 * p, 2, q - p, 0);
  }

  lemma {:induction false} BitAndEven(x: nat, y: nat)
    requires x > 0 && y > 0 && y % 2 == 0
    ensures BitAnd(x, y) == 2 * BitAnd(x / 2, y / 2)
  {
  }

  /** The same rounding written with the remainder. */
  lemma {:induction false} RoundDownIsMinusRemainder(x: nat, d: nat)
    requires d > 0
    ensures d * (x / d) == x - x % d
  {
  }

  /** Rounding down to a multiple of d gives a multiple of d less than d below x. */
  lemma {:induction false} RoundDownBounds(x: nat, d: nat)
    requires d > 0
    ensures (d * (x / d)) % d == 0
    ensures x - d < d * (x / d) <= x
  {
    RoundDownIsMinusRemainder(x, d);
    MulMod(d, x / d);
  }

  lemma {:induction false} MulMod(d: nat, q: nat)
    requires d > 0
    ensures (d * q) % d == 0
  {
    DivModUnique(d * q, d, q, 0);
  }

  /** `x & 2^k != 0` tests bit k. */
  lemma {:induction false} BitAndSingle(x: nat, k: nat)
    ensures (BitAnd(x, Pow2(k)) != 0) == ((x / Pow2(k)) % 2 == 1)
  {
    if x == 0 {
      assert BitAnd(x, Pow2(k)) == 0;
    } else if k == 0 {
      assert BitAnd(x / 2, 0) == 0;
    } else {
      var p := Pow2(k - 1);
      assert Pow2(k) == 2 * p;
      DivModUnique(2 * p, 2, p, 0);
      BitAndEven(x, 2 * p);
      BitAndSingle(x / 2, k - 1);
      DivModHalf(x, p);
    }
  }

  /** `x & y` never exceeds x. */
  lemma {:induction false} BitAndAtMost(x: nat, y: nat)
    ensures BitAnd(x, y) <= x
  {
    if x > 0 && y > 0 {
      BitAndAtMost(x / 2, y / 2);
    }
  }

  /** `vec![0; n]`. */
  function Zeros(n: nat): (r: seq<byte>)
    ensures |r| == n
    ensures forall i :: 0 <= i < n ==> r[i] == 0
  {
    if n == 0 then [] else [0] + Zeros(n - 1)
  }

  lemma {:induction false} BitXorZero(x: nat)
    ensures BitXor(x, 0) == x
  {
    if x > 0 {
      BitXorZero(x / 2);
    }
  }

  /** Xor with the same value twice restores the original. */
  lemma {:induction false} BitXorInvolution(x: nat, y: nat)
    ensures BitXor(BitXor(x, y), y) == x
    decreases x + y
  {
    if y == 0 {
      BitXorZero(x);
      BitXorZero(x);
    } else {
      var h, bit := BitXor(x / 2, y / 2), (x % 2 + y % 2) % 2;
      BitXorStep(x, y);
      var z := BitXor(x, y);
      DivModUnique(z, 2, h, bit);
      BitXorInvolution(x / 2, y / 2);
      BitXorStep(z, y);
      XorBit(x % 2, y % 2);
    }
  }

  /** One unfolding of `BitXor`. */
  lemma {:induction false} BitXorStep(x: nat, y: nat)
    requires x > 0 || y > 0
    ensures BitXor(x, y) == 2 * BitXor(x / 2, y / 2) + (x % 2 + y % 2) % 2
  {
  }

  lemma {:induction false} XorBit(a: nat, b: nat)
    requires a < 2 && b < 2
    ensures ((a + b) % 2 + b) % 2 == a
  {
  }

  /** Xor with 2^k flips bit k: it subtracts 2^k when the bit is set and adds
      it otherwise. */
  lemma {:induction false} BitXorSingle(x: nat, k: nat)
    ensures BitXor(x, Pow2(k)) == if (x / Pow2(k)) % 2 == 1 then x - Pow2(k) else x + Pow2(k)
  {
    if k == 0 {
      BitXorZero(x / 2);
      BitXorStep(x, 1);
      DivModUnique(x, 1, x, 0);
      DivModUnique(x, 2, x / 2, x % 2);
    } else {
      var p, h := Pow2(k - 1), x / 2;
      assert Pow2(k) == 2 * p;
      DivModUnique(2 * p, 2, p, 0);
      BitXorEven(x, 2 * p);
      BitXorSingle(h, k - 1);
      DivModHalf(x, p);
      var q := h / p;
      assert x / Pow2(k) == q;
      assert x == 2 * h + x % 2;
      if q % 2 == 1 {
        assert BitXor(x, Pow2(k)) == 2 * (h - p) + x % 2;
      } else {
        assert BitXor(x, Pow2(k)) == 2 * (h + p) + x % 2;
      }
    }
  }

  lemma {:induction false} BitXorEven(x: nat, y: nat)
    requires y > 0 && y % 2 == 0
    ensures BitXor(x, y) == 2 * BitXor(x / 2, y / 2) + x % 2
  {
    var b := x % 2;
    assert BitXor(x, y) == 2 * BitXor(x / 2, y / 2) + (b + y % 2) % 2;
    DivModUnique(b, 2, 0, b);
  }

  /** Xor of two k-bit numbers is a k-bit number. */
  lemma {:induction false} BitXorBound(x: nat, y: nat, n: nat)
    requires x < Pow2(n) && y < Pow2(n)
    ensures BitXor(x, y) < Pow2(n)
  {
    if n > 0 && (x > 0 || y > 0) {
      BitXorBound(x / 2, y / 2, n - 1);
    }
  }

  /** The little-endian encoding of v in n bytes (the low n bytes of v). */
  function Le(v: nat, n: nat): (r: seq<byte>)
    ensures |r| == n
  {
    if n == 0 then [] else [v % 256] + Le(v / 256, n - 1)
  }

  /** The value a little-endian byte string denotes. */
  function LeValue(s: seq<byte>): nat {
    if s == [] then 0 else s[0] + 256 * LeValue(s[1..])
  }

  /** Decoding an encoding gives back the value, reduced to n bytes. */
  lemma {:induction false} LeRoundTrip(v: nat, n: nat)
    ensures LeValue(Le(v, n)) == v % Pow2(8 * n)
  {
    if n == 0 {
    } else {
      var r := Le(v, n);
      assert r[1..] == Le(v / 256, n - 1);
      LeRoundTrip(v / 256, n - 1);
      Pow2Add(8, 8 * (n - 1));
      assert Pow2(8) == 256 by { Pow2Constants(); assert Pow2(8) == 2 * 2 * 2 * 2 * Pow2(4); }
      DivMod256(v, Pow2(8 * (n - 1)));
    }
  }

  lemma {:induction false} DivMod256(v: nat, m: nat)
    requires m > 0
    ensures v % (256 * m) == v % 256 + 256 * ((v / 256) % m)
  {
    var q, r := (v / 256) / m, (v / 256) % m;
    assert v == q * (256 * m) + (v % 256 + 256 * r);
    DivModUnique(v, 256 * m, q, v % 256 + 256 * r);
  }
}
