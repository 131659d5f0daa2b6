/**
 * The SHA-256 compression of one 64-byte chunk (`processChunk`) as
 * functions on values: the round constants K, the initial hash value,
 * the message schedule W, the 64 rounds over the eight working
 * registers a..h and the final addition into the hash value.
 *
 * The method that runs these steps in place on the hash array is
 * `Digest.Sha256Engine.ProcessChunk`; its contract is stated with the
 * functions here.
 */
module Compression {
  import opened Words
  import opened Padding

  /** The 64 round constants `K`. */
  const K: seq<Word> := [
    0x428a2f98, 0x71374491, 0xb5c0fbcf, 0xe9b5dba5, 0x3956c25b, 0x59f111f1, 0x923f82a4, 0xab1c5ed5,
    0xd807aa98, 0x12835b01, 0x243185be, 0x550c7dc3, 0x72be5d74, 0x80deb1fe, 0x9bdc06a7, 0xc19bf174,
    0xe49b69c1, 0xefbe4786, 0x0fc19dc6, 0x240ca1cc, 0x2de92c6f, 0x4a7484aa, 0x5cb0a9dc, 0x76f988da,
    0x983e5152, 0xa831c66d, 0xb00327c8, 0xbf597fc7, 0xc6e00bf3, 0xd5a79147, 0x06ca6351, 0x14292967,
    0x27b70a85, 0x2e1b2138, 0x4d2c6dfc, 0x53380d13, 0x650a7354, 0x766a0abb, 0x81c2c92e, 0x92722c85,
    0xa2bfe8a1, 0xa81a664b, 0xc24b8b70, 0xc76c51a3, 0xd192e819, 0xd6990624, 0xf40e3585, 0x106aa070,
    0x19a4c116, 0x1e376c08, 0x2748774c, 0x34b0bcb5, 0x391c0cb3, 0x4ed8aa4a, 0x5b9cca4f, 0x682e6ff3,
    0x748f82ee, 0x78a5636f, 0x84c87814, 0x8cc70208, 0x90befffa, 0xa4506ceb, 0xbef9a3f7, 0xc67178f2
  ]

  /** The initial hash value `H` holds before the first chunk. */
  const IV: seq<Word> := [
    0x6a09e667, 0xbb67ae85, 0x3c6ef372, 0xa54ff53a, 0x510e527f, 0x9b05688c, 0x1f83d9ab, 0x5be0cd19
  ]

  /**
   * Schedule word i < 16:
   * `(chunk[4i] << 24) | (chunk[4i+1] << 16) | (chunk[4i+2] << 8) | chunk[4i+3]`.
   */
  function MessageWord(chunk: seq<Byte>, i: nat): Word
    requires |chunk| == 64 && i < 16
  {
    Or(Or(Or(Shl(chunk[4 * i], 24), Shl(chunk[4 * i + 1], 16)), Shl(chunk[4 * i + 2], 8)), chunk[4 * i + 3])
  }

  /** Bit k of a big-endian byte string is bit k mod 8 of byte k / 8 counted from the end. */
  lemma {:induction false} FromBigEndianBit(s: seq<Byte>, k: nat)
    ensures Bit(FromBigEndian(s), k) == (k < 8 * |s| && Bit(s[|s| - 1 - k / 8], k % 8))
  {
    if |s| == 0 {
      BitOfZero(k);
    } else {
      var init := s[..|s| - 1];
      Pow2Plus8(0);
      BitLowHigh(FromBigEndian(init), s[|s| - 1], 8, k);
      if k >= 8 {
        FromBigEndianBit(init, k - 8);
      }
    }
  }

  /** Bit k of a byte shifted left by 8j, inside a word. */
  lemma ShiftedByteBit(b: Byte, j: nat, k: nat)
    requires j < 4 && k < 32
    ensures Bit(Shl(b, 8 * j), k) == (k / 8 == j && Bit(b, k % 8))
  {
    ShlBit(b, 8 * j, k);
    if k >= 8 * j + 8 {
      Pow2Plus8(0);
      BitAboveWidth(b, 8, k - 8 * j);
    }
  }

  /** Schedule word i < 16 is the big-endian number in bytes 4i..4i+3 of the chunk. */
  lemma MessageWordValue(chunk: seq<Byte>, i: nat)
    requires |chunk| == 64 && i < 16
    ensures MessageWord(chunk, i) == FromBigEndian(chunk[4 * i..4 * i + 4])
  {
    var s := chunk[4 * i..4 * i + 4];
    var b0, b1, b2, b3 := chunk[4 * i], chunk[4 * i + 1], chunk[4 * i + 2], chunk[4 * i + 3];
    forall k | 0 <= k < 32
      ensures Bit(MessageWord(chunk, i), k) == Bit(FromBigEndian(s), k)
    {
      OrBit(Or(Or(Shl(b0, 24), Shl(b1, 16)), Shl(b2, 8)), b3, k);
      OrBit(Or(Shl(b0, 24), Shl(b1, 16)), Shl(b2, 8), k);
      OrBit(Shl(b0, 24), Shl(b1, 16), k);
      ShiftedByteBit(b0, 3, k);
      ShiftedByteBit(b1, 2, k);
      ShiftedByteBit(b2, 1, k);
      ShlBit(b3, 0, k);
      ShiftedByteBit(b3, 0, k);
      FromBigEndianBit(s, k);
    }
    Pow2Word();
    Pow256Word();
    BitsDetermine(MessageWord(chunk, i), FromBigEndian(s), 32);
  }

  lemma Pow256Word()
    ensures Pow256(4) == WORD_MOD
  {
  }

  /**
   * The recurrence of the schedule:
   * `sigma1(W[i - 2]) + W[i - 7] + sigma0(W[i - 15]) + W[i - 16]`, modulo 2^32.
   */
  function Expand(w2: Word, w7: Word, w15: Word, w16: Word): Word
  {
    Add(Add(Add(SmallSigma1(w2), w7), SmallSigma0(w15)), w16)
  }

  /** Word i of the message schedule `W` of a chunk. */
  function ScheduleWord(chunk: seq<Byte>, i: nat): Word
    requires |chunk| == 64 && i < 64
    decreases i, 1
  {
    if i < 16 then MessageWord(chunk, i) else ExpandedWord(chunk, i)
  }

  /** Word i >= 16 of the message schedule, from the four earlier words the recurrence names. */
  function ExpandedWord(chunk: seq<Byte>, i: nat): Word
    requires |chunk| == 64 && 16 <= i < 64
    decreases i, 0
  {
    Expand(ScheduleWord(chunk, i - 2), ScheduleWord(chunk, i - 7),
           ScheduleWord(chunk, i - 15), ScheduleWord(chunk, i - 16))
  }

  /** The 64-word message schedule `W` of a chunk. */
  function Schedule(chunk: seq<Byte>): (w: seq<Word>)
    requires |chunk| == 64
    ensures |w| == 64
  {
    seq(64, i requires 0 <= i < 64 => ScheduleWord(chunk, i))
  }

  /** What a schedule of `chunk` is: the big-endian words of the chunk, then the recurrence. */
  predicate IsSchedule(chunk: seq<Byte>, w: seq<Word>)
    requires |chunk| == 64
  {
    && |w| == 64
    && (forall i :: 0 <= i < 16 ==> w[i] == FromBigEndian(chunk[4 * i..4 * i + 4]))
    && (forall i :: 16 <= i < 64 ==> Recurs(w, i))
  }

  /** Word i of w follows from the four earlier words by the recurrence. */
  predicate Recurs(w: seq<Word>, i: nat)
    requires 16 <= i < |w|
  {
    w[i] == Expand(w[i - 2], w[i - 7], w[i - 15], w[i - 16])
  }

  /** The schedule starts with the sixteen big-endian words of the chunk and continues with the recurrence. */
  lemma ScheduleIsSchedule(chunk: seq<Byte>)
    requires |chunk| == 64
    ensures IsSchedule(chunk, Schedule(chunk))
  {
    var s := Schedule(chunk);
    forall i | 0 <= i < 16
      ensures s[i] == FromBigEndian(chunk[4 * i..4 * i + 4])
    {
      MessageWordValue(chunk, i);
    }
    forall i | 16 <= i < 64
      ensures Recurs(s, i)
    {
      assert s[i] == ExpandedWord(chunk, i);
    }
  }

  /** The schedule is the only sequence that starts with the chunk's words and obeys the recurrence. */
  lemma ScheduleUnique(chunk: seq<Byte>, w: seq<Word>)
    requires |chunk| == 64 && IsSchedule(chunk, w)
    ensures w == Schedule(chunk)
  {
    forall i | 0 <= i < 64
      ensures w[i] == Schedule(chunk)[i]
    {
      ScheduleAgree(chunk, w, i);
    }
  }

  /** Any sequence obeying the recurrence has the schedule's word i. */
  lemma {:induction false} ScheduleAgree(chunk: seq<Byte>, w: seq<Word>, i: nat)
    requires |chunk| == 64 && i < 64 && IsSchedule(chunk, w)
    ensures w[i] == ScheduleWord(chunk, i)
    decreases i
  {
    if i < 16 {
      MessageWordValue(chunk, i);
    } else {
      assert Recurs(w, i);
      ScheduleAgree(chunk, w, i - 2);
      ScheduleAgree(chunk, w, i - 7);
      ScheduleAgree(chunk, w, i - 15);
      ScheduleAgree(chunk, w, i - 16);
    }
  }

  /** The eight working registers a..h. */
  datatype Regs = Regs(a: Word, b: Word, c: Word, d: Word, e: Word, f: Word, g: Word, h: Word)

  /** The registers loaded from the hash value: `a = H[0]`, ..., `h = H[7]`. */
  function FromHash(h: seq<Word>): (r: Regs)
    requires |h| == 8
    ensures AsSeq(r) == h
  {
    Regs(h[0], h[1], h[2], h[3], h[4], h[5], h[6], h[7])
  }

  function AsSeq(r: Regs): (s: seq<Word>)
    ensures |s| == 8
  {
    [r.a, r.b, r.c, r.d, r.e, r.f, r.g, r.h]
  }

  /** `T1 = h + Sigma1(e) + Ch(e, f, g) + K[i] + W[i]`, modulo 2^32. */
  function T1(r: Regs, k: Word, w: Word): Word
  {
    Add(Add(Add(Add(r.h, BigSigma1(r.e)), Ch(r.e, r.f, r.g)), k), w)
  }

  /** `T2 = Sigma0(a) + Maj(a, b, c)`, modulo 2^32. */
  function T2(r: Regs): Word
  {
    Add(BigSigma0(r.a), Maj(r.a, r.b, r.c))
  }

  /**
   * One round with round constant k and schedule word w: every register
   * moves one place down (h := g, ..., b := a), except that e becomes
   * d + T1 and a becomes T1 + T2.
   */
  function Round(r: Regs, k: Word, w: Word): Regs
  {
    var t1 := T1(r, k, w);
    Regs(Add(t1, T2(r)), r.a, r.b, r.c, Add(r.d, t1), r.e, r.f, r.g)
  }

  /** Undoes one round: recovers the registers before it from those after it. */
  function InverseRound(s: Regs, k: Word, w: Word): Regs
  {
    var t2 := Add(BigSigma0(s.b), Maj(s.b, s.c, s.d));
    var t1 := Sub(s.a, t2);
    var h := Sub(Sub(Sub(Sub(t1, w), k), Ch(s.f, s.g, s.h)), BigSigma1(s.f));
    Regs(s.b, s.c, s.d, Sub(s.e, t1), s.f, s.g, s.h, h)
  }

  /** Undoing a round gives back the registers it started from. */
  lemma InverseRoundRound(r: Regs, k: Word, w: Word)
    ensures InverseRound(Round(r, k, w), k, w) == r
  {
    var s1, ch := BigSigma1(r.e), Ch(r.e, r.f, r.g);
    var x1 := Add(r.h, s1);
    var x2 := Add(x1, ch);
    var x3 := Add(x2, k);
    var t1 := Add(x3, w);
    SubAdd(t1, T2(r));
    SubAdd(r.d, t1);
    SubAdd(x3, w);
    SubAdd(x2, k);
    SubAdd(x1, ch);
    SubAdd(r.h, s1);
  }

  /** Every register state is reached by exactly one state one round earlier. */
  lemma RoundInverseRound(s: Regs, k: Word, w: Word)
    ensures Round(InverseRound(s, k, w), k, w) == s
  {
    var r := InverseRound(s, k, w);
    var t2 := Add(BigSigma0(s.b), Maj(s.b, s.c, s.d));
    var t1 := Sub(s.a, t2);
    var y3 := Sub(t1, w);
    var y2 := Sub(y3, k);
    var y1 := Sub(y2, Ch(s.f, s.g, s.h));
    AddSub(y1, BigSigma1(s.f));
    AddSub(y2, Ch(s.f, s.g, s.h));
    AddSub(y3, k);
    AddSub(t1, w);
    assert T1(r, k, w) == t1;
    assert T2(r) == t2;
    AddSub(s.e, t1);
    AddSub(s.a, t2);
  }

  /** The registers after the first n of the rounds, on schedule w. */
  function Rounds(r: Regs, w: seq<Word>, n: nat): Regs
    requires n <= |w| <= 64
  {
    if n == 0 then r else Round(Rounds(r, w, n - 1), K[n - 1], w[n - 1])
  }

  /** Undoes the first n rounds, last round first. */
  function InverseRounds(s: Regs, w: seq<Word>, n: nat): Regs
    requires n <= |w| <= 64
    decreases n
  {
    if n == 0 then s else InverseRounds(InverseRound(s, K[n - 1], w[n - 1]), w, n - 1)
  }

  /** The registers at the start of the rounds can be recovered from those at the end. */
  lemma {:induction false} RoundsInverse(r: Regs, w: seq<Word>, n: nat)
    requires n <= |w| <= 64
    ensures InverseRounds(Rounds(r, w, n), w, n) == r
  {
    if n > 0 {
      InverseRoundRound(Rounds(r, w, n - 1), K[n - 1], w[n - 1]);
      RoundsInverse(r, w, n - 1);
    }
  }

  /**
   * The hash value after one chunk: each word of the hash value plus
   * the matching register after the 64 rounds, `H[j] += a`, ... modulo 2^32.
   */
  function Compress(h: seq<Word>, chunk: seq<Byte>): (r: seq<Word>)
    requires |h| == 8 && |chunk| == 64
    ensures |r| == 8
  {
    seq(8, j requires 0 <= j < 8 => Add(h[j], AsSeq(Rounds(FromHash(h), Schedule(chunk), 64))[j]))
  }

  /** The compression written out word by word, given the registers after the rounds. */
  lemma CompressWords(h: seq<Word>, chunk: seq<Byte>, r: Regs)
    requires |h| == 8 && |chunk| == 64
    requires r == Rounds(FromHash(h), Schedule(chunk), 64)
    ensures Compress(h, chunk) == [Add(h[0], r.a), Add(h[1], r.b), Add(h[2], r.c), Add(h[3], r.d),
                                   Add(h[4], r.e), Add(h[5], r.f), Add(h[6], r.g), Add(h[7], r.h)]
  {
  }
}
