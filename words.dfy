/**
 * 32-bit words and the logical functions of SHA-256: right rotation,
 * Ch, Maj, Sigma0, Sigma1, sigma0 and sigma1, as the program defines
 * them over `uint32_t`.
 *
 * A word is kept as its numeric value, 0 <= x < 2^32, so the program's
 * wrap-around `+` is written out as addition modulo 2^32. The bitwise
 * operators are defined bit by bit (halving and doubling), and every
 * logical function comes with a lemma saying what each bit of its
 * result is.
 */
module Words {

  /** 2^32: `uint32_t` arithmetic is arithmetic modulo this number. */
  const WORD_MOD: int := 0x1_0000_0000

  /** A `uint32_t`, as its numeric value. */
  type Word = x: int | 0 <= x < 0x1_0000_0000

  /** A `uint8_t`, as its numeric value. */
  type Byte = x: int | 0 <= x < 0x100

  /** 2^n. `Padding.Pow256` and `Hex.Pow16` are this function at 8n and 4n. */
  function Pow2(n: nat): (r: nat)
    ensures r > 0
  {
    if n == 0 then 1 else 2 * Pow2(n - 1)
  }

  lemma Pow2Plus8(n: nat)
    ensures Pow2(n + 8) == 256 * Pow2(n)
  {
    calc {
      Pow2(n + 8);
      2 * Pow2(n + 7);
      4 * Pow2(n + 6);
      8 * Pow2(n + 5);
      16 * Pow2(n + 4);
      32 * Pow2(n + 3);
      64 * Pow2(n + 2);
      128 * Pow2(n + 1);
      256 * Pow2(n);
    }
  }

  lemma Pow2Word()
    ensures Pow2(32) == WORD_MOD
  {
    Pow2Plus8(0);
    Pow2Plus8(8);
    Pow2Plus8(16);
    Pow2Plus8(24);
  }

  /** Bit `k` of `x`, bit 0 being the least significant one. */
  predicate Bit(x: nat, k: nat)
  {
    if k == 0 then x % 2 == 1 else Bit(x / 2, k - 1)
  }

  lemma {:induction false} BitOfZero(k: nat)
    ensures !Bit(0, k)
  {
    if k > 0 {
      BitOfZero(k - 1);
    }
  }

  /** A number below 2^n has no bit set at position n or above. */
  lemma {:induction false} BitAboveWidth(x: nat, n: nat, k: nat)
    requires x < Pow2(n) && n <= k
    ensures !Bit(x, k)
  {
    if n == 0 {
      BitOfZero(k);
    } else {
      BitAboveWidth(x / 2, n - 1, k - 1);
    }
  }

  /** Two numbers below 2^n with the same n low bits are equal. */
  lemma {:induction false} BitsDetermine(x: nat, y: nat, n: nat)
    requires x < Pow2(n) && y < Pow2(n)
    requires forall k :: 0 <= k < n ==> Bit(x, k) == Bit(y, k)
    ensures x == y
  {
    if n > 0 {
      forall k | 0 <= k < n - 1
        ensures Bit(x / 2, k) == Bit(y / 2, k)
      {
        assert Bit(x, k + 1) == Bit(y, k + 1);
      }
      BitsDetermine(x / 2, y / 2, n - 1);
      assert Bit(x, 0) == Bit(y, 0);
    }
  }

  /** `x + y` on `uint32_t`: the sum wraps around modulo 2^32. */
  function Add(x: Word, y: Word): Word
  {
    (x + y) % WORD_MOD
  }

  /** Subtraction modulo 2^32, the inverse of `Add`. */
  function Sub(x: Word, y: Word): Word
  {
    (x - y) % WORD_MOD
  }

  lemma SubAdd(x: Word, y: Word)
    ensures Sub(Add(x, y), y) == x
  {
  }

  lemma AddSub(x: Word, y: Word)
    ensures Add(Sub(x, y), y) == x
  {
  }

  /** A number below 2^m placed under a multiple of 2^m keeps its own bits. */
  lemma {:induction false} BitLowHigh(a: nat, b: nat, m: nat, k: nat)
    requires b < Pow2(m)
    ensures Bit(a * Pow2(m) + b, k) == if k < m then Bit(b, k) else Bit(a, k - m)
  {
    if m > 0 {
      var t := a * Pow2(m - 1);
      assert a * Pow2(m) == 2 * t;
      if k > 0 {
        assert (a * Pow2(m) + b) / 2 == t + b / 2;
        BitLowHigh(a, b / 2, m - 1, k - 1);
      }
    }
  }

  /** The three bitwise operators `&`, `|` and `^`. */
  datatype BitOp = AndOp | OrOp | XorOp

  predicate Apply(op: BitOp, p: bool, q: bool)
  {
    match op
    case AndOp => p && q
    case OrOp => p || q
    case XorOp => p != q
  }

  /** The operator `op` applied to the `n` low bits of `x` and `y`. */
  function Bitwise(op: BitOp, x: nat, y: nat, n: nat): nat
  {
    if n == 0 then 0
    else 2 * Bitwise(op, x / 2, y / 2, n - 1) + (if Apply(op, x % 2 == 1, y % 2 == 1) then 1 else 0)
  }

  lemma {:induction false} BitwiseBound(op: BitOp, x: nat, y: nat, n: nat)
    ensures Bitwise(op, x, y, n) < Pow2(n)
  {
    if n > 0 {
      BitwiseBound(op, x / 2, y / 2, n - 1);
    }
  }

  lemma {:induction false} BitwiseBit(op: BitOp, x: nat, y: nat, n: nat, k: nat)
    ensures Bit(Bitwise(op, x, y, n), k) == (k < n && Apply(op, Bit(x, k), Bit(y, k)))
  {
    if n == 0 {
      BitOfZero(k);
    } else if k > 0 {
      BitwiseBit(op, x / 2, y / 2, n - 1, k - 1);
    }
  }

  function And(x: Word, y: Word): Word
  {
    Pow2Word();
    BitwiseBound(AndOp, x, y, 32);
    Bitwise(AndOp, x, y, 32)
  }

  function Or(x: Word, y: Word): Word
  {
    Pow2Word();
    BitwiseBound(OrOp, x, y, 32);
    Bitwise(OrOp, x, y, 32)
  }

  function Xor(x: Word, y: Word): Word
  {
    Pow2Word();
    BitwiseBound(XorOp, x, y, 32);
    Bitwise(XorOp, x, y, 32)
  }

  /** `~x` on `uint32_t`. */
  function Not(x: Word): Word
  {
    WORD_MOD - 1 - x
  }

  /** `x >> s` on `uint32_t`: `s` halvings, dropping the low bit each time. */
  function Shr(x: nat, s: nat): nat
  {
    if s == 0 then x else Shr(x / 2, s - 1)
  }

  /** Shifting right by a then by b is shifting right by a + b. */
  lemma {:induction false} ShrShr(x: nat, a: nat, b: nat)
    ensures Shr(Shr(x, a), b) == Shr(x, a + b)
  {
    if a > 0 {
      ShrShr(x / 2, a - 1, b);
    }
  }

  /** A right shift by 8 drops the low byte. */
  lemma ShrByte(x: nat)
    ensures Shr(x, 8) == x / 256
  {
    calc {
      Shr(x, 8);
      Shr(x / 2, 7);
      Shr(x / 2 / 2, 6);
      Shr(x / 2 / 2 / 2, 5);
      Shr(x / 2 / 2 / 2 / 2, 4);
      Shr(x / 2 / 2 / 2 / 2 / 2, 3);
      Shr(x / 2 / 2 / 2 / 2 / 2 / 2, 2);
      Shr(x / 2 / 2 / 2 / 2 / 2 / 2 / 2, 1);
      x / 2 / 2 / 2 / 2 / 2 / 2 / 2 / 2;
      x / 256;
    }
  }

  /** `x << s` kept to the `n` low bits: `s` doublings, truncated to n bits. */
  function ShlBits(x: nat, s: nat, n: nat): nat
  {
    if n == 0 then 0
    else if s == 0 then Bitwise(OrOp, x, 0, n)
    else 2 * ShlBits(x, s - 1, n - 1)
  }

  /** `x << s` on `uint32_t`, for a shift amount below 32. */
  function Shl(x: Word, s: nat): Word
    requires s < 32
  {
    Pow2Word();
    ShlBitsBound(x, s, 32);
    ShlBits(x, s, 32)
  }

  lemma {:induction false} ShrBound(x: nat, s: nat)
    ensures Shr(x, s) <= x
  {
    if s > 0 {
      ShrBound(x / 2, s - 1);
    }
  }

  lemma {:induction false} ShlBitsBound(x: nat, s: nat, n: nat)
    ensures ShlBits(x, s, n) < Pow2(n)
  {
    if n > 0 && s == 0 {
      BitwiseBound(OrOp, x, 0, n);
    } else if n > 0 {
      ShlBitsBound(x, s - 1, n - 1);
    }
  }

  lemma {:induction false} ShrBit(x: nat, s: nat, k: nat)
    ensures Bit(Shr(x, s), k) == Bit(x, k + s)
  {
    if s > 0 {
      ShrBit(x / 2, s - 1, k);
    }
  }

  lemma {:induction false} ShlBitsBit(x: nat, s: nat, n: nat, k: nat)
    ensures Bit(ShlBits(x, s, n), k) == (s <= k < n && Bit(x, k - s))
  {
    if n == 0 {
      BitOfZero(k);
    } else if s == 0 {
      BitwiseBit(OrOp, x, 0, n, k);
      BitOfZero(k);
    } else if k > 0 {
      ShlBitsBit(x, s - 1, n - 1, k - 1);
    }
  }

  lemma {:induction false} NotBitsBit(x: nat, n: nat, k: nat)
    requires x < Pow2(n) && k < n
    ensures Bit(Pow2(n) - 1 - x, k) == !Bit(x, k)
  {
    var y := Pow2(n) - 1 - x;
    assert y % 2 == 1 - x % 2;
    if k > 0 {
      assert y / 2 == Pow2(n - 1) - 1 - x / 2;
      NotBitsBit(x / 2, n - 1, k - 1);
    }
  }

  lemma AndBit(x: Word, y: Word, k: nat)
    requires k < 32
    ensures Bit(And(x, y), k) == (Bit(x, k) && Bit(y, k))
  {
    BitwiseBit(AndOp, x, y, 32, k);
  }

  lemma OrBit(x: Word, y: Word, k: nat)
    requires k < 32
    ensures Bit(Or(x, y), k) == (Bit(x, k) || Bit(y, k))
  {
    BitwiseBit(OrOp, x, y, 32, k);
  }

  lemma XorBit(x: Word, y: Word, k: nat)
    requires k < 32
    ensures Bit(Xor(x, y), k) == (Bit(x, k) != Bit(y, k))
  {
    BitwiseBit(XorOp, x, y, 32, k);
  }

  lemma NotBit(x: Word, k: nat)
    requires k < 32
    ensures Bit(Not(x), k) == !Bit(x, k)
  {
    Pow2Word();
    NotBitsBit(x, 32, k);
  }

  /** Bit k of `x >> s` is bit k + s of x, and 0 once k + s passes bit 31. */
  lemma ShrWordBit(x: Word, s: nat, k: nat)
    requires s < 32 && k < 32
    ensures Bit(Shr(x, s), k) == (k + s < 32 && Bit(x, k + s))
  {
    ShrBit(x, s, k);
    if k + s >= 32 {
      Pow2Word();
      BitAboveWidth(x, 32, k + s);
    }
  }

  /** Bit k of `x << s` is bit k - s of x, and 0 below bit s. */
  lemma ShlBit(x: Word, s: nat, k: nat)
    requires s < 32 && k < 32
    ensures Bit(Shl(x, s), k) == (s <= k && Bit(x, k - s))
  {
    ShlBitsBit(x, s, 32, k);
  }

  /**
   * `rotr(x, n)`: `(x >> n) | (x << (32 - n))`. The shift by 32 - n is
   * only defined for 1 <= n <= 31; the program uses 2..25.
   */
  function RotR(x: Word, n: nat): Word
    requires 1 <= n <= 31
  {
    ShrBound(x, n);
    Or(Shr(x, n), Shl(x, 32 - n))
  }

  /** Rotation: bit k of `rotr(x, n)` is bit (k + n) mod 32 of x. */
  lemma RotRBit(x: Word, n: nat, k: nat)
    requires 1 <= n <= 31 && k < 32
    ensures Bit(RotR(x, n), k) == Bit(x, (k + n) % 32)
  {
    ShrBound(x, n);
    OrBit(Shr(x, n), Shl(x, 32 - n), k);
    ShrWordBit(x, n, k);
    ShlBit(x, 32 - n, k);
  }

  /** `Ch(x, y, z)`: `(x & y) ^ (~x & z)`. */
  function Ch(x: Word, y: Word, z: Word): Word
  {
    Xor(And(x, y), And(Not(x), z))
  }

  /** "Choose": each bit of x selects the bit of y (when set) or of z. */
  lemma ChBit(x: Word, y: Word, z: Word, k: nat)
    requires k < 32
    ensures Bit(Ch(x, y, z), k) == if Bit(x, k) then Bit(y, k) else Bit(z, k)
  {
    XorBit(And(x, y), And(Not(x), z), k);
    AndBit(x, y, k);
    AndBit(Not(x), z, k);
    NotBit(x, k);
  }

  /** `Maj(x, y, z)`: `(x & y) ^ (x & z) ^ (y & z)`. */
  function Maj(x: Word, y: Word, z: Word): Word
  {
    Xor(Xor(And(x, y), And(x, z)), And(y, z))
  }

  /** "Majority": a bit is set when it is set in at least two of the inputs. */
  lemma MajBit(x: Word, y: Word, z: Word, k: nat)
    requires k < 32
    ensures Bit(Maj(x, y, z), k) ==
      ((Bit(x, k) && Bit(y, k)) || (Bit(x, k) && Bit(z, k)) || (Bit(y, k) && Bit(z, k)))
  {
    XorBit(Xor(And(x, y), And(x, z)), And(y, z), k);
    XorBit(And(x, y), And(x, z), k);
    AndBit(x, y, k);
    AndBit(x, z, k);
    AndBit(y, z, k);
  }

  /** Upper-case `Sigma0(x)`: `rotr(x, 2) ^ rotr(x, 13) ^ rotr(x, 22)`. */
  function BigSigma0(x: Word): Word
  {
    Xor(Xor(RotR(x, 2), RotR(x, 13)), RotR(x, 22))
  }

  /** Upper-case `Sigma1(x)`: `rotr(x, 6) ^ rotr(x, 11) ^ rotr(x, 25)`. */
  function BigSigma1(x: Word): Word
  {
    Xor(Xor(RotR(x, 6), RotR(x, 11)), RotR(x, 25))
  }

  /** Lower-case `sigma0(x)`: `rotr(x, 7) ^ rotr(x, 18) ^ (x >> 3)`. */
  function SmallSigma0(x: Word): Word
  {
    ShrBound(x, 3);
    Xor(Xor(RotR(x, 7), RotR(x, 18)), Shr(x, 3))
  }

  /** Lower-case `sigma1(x)`: `rotr(x, 17) ^ rotr(x, 19) ^ (x >> 10)`. */
  function SmallSigma1(x: Word): Word
  {
    ShrBound(x, 10);
    Xor(Xor(RotR(x, 17), RotR(x, 19)), Shr(x, 10))
  }

  /** Bit k of an exclusive-or of two rotations and a third word. */
  lemma {:induction false} XorRotBit(x: Word, m: nat, n: nat, w: Word, k: nat)
    requires 1 <= m <= 31 && 1 <= n <= 31 && k < 32
    ensures Bit(Xor(Xor(RotR(x, m), RotR(x, n)), w), k) ==
      ((Bit(x, (k + m) % 32) != Bit(x, (k + n) % 32)) != Bit(w, k))
  {
    XorBit(Xor(RotR(x, m), RotR(x, n)), w, k);
    XorBit(RotR(x, m), RotR(x, n), k);
    RotRBit(x, m, k);
    RotRBit(x, n, k);
  }

  lemma BigSigma0Bit(x: Word, k: nat)
    requires k < 32
    ensures Bit(BigSigma0(x), k) ==
      ((Bit(x, (k + 2) % 32) != Bit(x, (k + 13) % 32)) != Bit(x, (k + 22) % 32))
  {
    XorRotBit(x, 2, 13, RotR(x, 22), k);
    RotRBit(x, 22, k);
  }

  lemma BigSigma1Bit(x: Word, k: nat)
    requires k < 32
    ensures Bit(BigSigma1(x), k) ==
      ((Bit(x, (k + 6) % 32) != Bit(x, (k + 11) % 32)) != Bit(x, (k + 25) % 32))
  {
    XorRotBit(x, 6, 11, RotR(x, 25), k);
    RotRBit(x, 25, k);
  }

  lemma SmallSigma0Bit(x: Word, k: nat)
    requires k < 32
    ensures Bit(SmallSigma0(x), k) ==
      ((Bit(x, (k + 7) % 32) != Bit(x, (k + 18) % 32)) != (k + 3 < 32 && Bit(x, k + 3)))
  {
    ShrBound(x, 3);
    XorRotBit(x, 7, 18, Shr(x, 3), k);
    ShrWordBit(x, 3, k);
  }

  lemma SmallSigma1Bit(x: Word, k: nat)
    requires k < 32
    ensures Bit(SmallSigma1(x), k) ==
      ((Bit(x, (k + 17) % 32) != Bit(x, (k + 19) % 32)) != (k + 10 < 32 && Bit(x, k + 10)))
  {
    ShrBound(x, 10);
    XorRotBit(x, 17, 19, Shr(x, 10), k);
    ShrWordBit(x, 10, k);
  }
}
