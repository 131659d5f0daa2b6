/**
 * The program's hashing engine: the mutable hash value `H`, the in-place
 * chunk processing `processChunk` and the top-level `sha256`, which pads
 * the message, processes it chunk by chunk and writes `H` out in
 * hexadecimal.
 *
 * `H` is a single array that `sha256` reads and updates but never sets
 * back to the initial hash value; the contracts below are stated
 * relative to whatever `H` holds on entry.
 */
module Digest {
  import opened Words
  import opened Padding
  import opened Compression
  import opened Hex

  /**
   * The hash value after processing the 64-byte chunks of p in order,
   * starting from h. A padded message is a whole number of chunks
   * (`PadLength`); on other input the bytes after the last whole chunk
   * are not read.
   */
  function HashChunks(h: seq<Word>, p: seq<Byte>): (r: seq<Word>)
    requires |h| == 8
    ensures |r| == 8
    decreases |p|
  {
    if |p| < 64 then h else HashChunks(Compress(h, p[..64]), p[64..])
  }

  /** A whole number of chunks that is not empty starts with a whole chunk and continues with whole chunks. */
  lemma ChunkedTail(p: seq<Byte>)
    requires |p| % 64 == 0 && |p| > 0
    ensures |p| >= 64 && |p[64..]| % 64 == 0
  {
  }

  /**
   * Chaining: processing p and then q from the hash value reached is
   * processing p + q, when p is a whole number of chunks. The state is
   * threaded from chunk to chunk.
   */
  lemma {:induction false} HashChunksAppend(h: seq<Word>, p: seq<Byte>, q: seq<Byte>)
    requires |h| == 8 && |p| % 64 == 0
    ensures HashChunks(h, p + q) == HashChunks(HashChunks(h, p), q)
    decreases |p|
  {
    if |p| == 0 {
      assert p + q == q;
    } else {
      ChunkedTail(p);
      var h' := Compress(h, p[..64]);
      HashChunksAppend(h', p[64..], q);
      assert (p + q)[..64] == p[..64];
      assert (p + q)[64..] == p[64..] + q;
    }
  }

  /** The hash value after the whole padded message, starting from the initial hash value. */
  function FinalHash(message: seq<Byte>): (h: seq<Word>)
    ensures |h| == 8
  {
    HashChunks(IV, Pad(message))
  }

  /** The digest of a message when `H` starts from the initial hash value. */
  function Sha256Digest(message: seq<Byte>): (s: string)
    ensures |s| == 64
  {
    HexDigest(FinalHash(message))
  }

  /** The digest is 64 lower-case hexadecimal digits, eight per word of the final hash value. */
  lemma Sha256DigestForm(message: seq<Byte>)
    ensures forall i :: 0 <= i < |Sha256Digest(message)| ==> IsHexChar(Sha256Digest(message)[i])
    ensures forall j :: 0 <= j < 8 ==>
      Sha256Digest(message)[8 * j..8 * j + 8] == HexWord(FinalHash(message)[j])
  {
    var h := FinalHash(message);
    HexDigestChars(h);
    forall j | 0 <= j < 8
      ensures HexDigest(h)[8 * j..8 * j + 8] == HexWord(h[j])
    {
      HexDigestSlice(h, j);
    }
  }

  /** Different final hash values give different digests. */
  lemma Sha256DigestInjective(m: seq<Byte>, m': seq<Byte>)
    requires Sha256Digest(m) == Sha256Digest(m')
    ensures FinalHash(m) == FinalHash(m')
  {
    HexDigestInjective(FinalHash(m), FinalHash(m'));
  }

  /**
   * `H` is not reset between calls: a second `sha256` on the same state
   * continues from the first message's final hash value, as if the two
   * padded messages were one.
   */
  lemma SecondCallChains(m1: seq<Byte>, m2: seq<Byte>)
    ensures HashChunks(FinalHash(m1), Pad(m2)) == HashChunks(IV, Pad(m1) + Pad(m2))
  {
    PadLength(m1);
    HashChunksAppend(IV, Pad(m1), Pad(m2));
  }

  /** Loop step of `sha256`: the next chunk fits, and the index stays a multiple of 64. */
  lemma ChunkStep(i: nat, n: nat)
    requires i % 64 == 0 && n % 64 == 0 && i < n
    ensures i + 64 <= n && (i + 64) % 64 == 0
  {
  }

  /**
   * The first two loops of `processChunk`: the sixteen big-endian words
   * of the chunk, then the recurrence, into a new 64-word array `W`.
   */
  method MessageSchedule(chunk: seq<Byte>) returns (W: array<Word>)
    requires |chunk| == 64
    ensures fresh(W) && W[..] == Schedule(chunk)
  {
    W := new Word[64];
    for i := 0 to 16
      invariant forall j :: 0 <= j < i ==> W[j] == ScheduleWord(chunk, j)
    {
      W[i] := Or(Or(Or(Shl(chunk[i * 4], 24), Shl(chunk[i * 4 + 1], 16)), Shl(chunk[i * 4 + 2], 8)), chunk[i * 4 + 3]);
    }
    for i := 16 to 64
      invariant forall j :: 0 <= j < i ==> W[j] == ScheduleWord(chunk, j)
    {
      W[i] := Add(Add(Add(SmallSigma1(W[i - 2]), W[i - 7]), SmallSigma0(W[i - 15])), W[i - 16]);
    }
  }

  /**
   * The round loop of `processChunk`: the registers a..h start from the
   * hash value and take 64 rounds, round i consuming `K[i]` and `W[i]`.
   */
  method CompressionRounds(H: array<Word>, W: array<Word>) returns (r: Regs)
    requires H.Length == 8 && W.Length == 64
    ensures r == Rounds(FromHash(H[..]), W[..], 64)
  {
    var a, b, c, d := H[0], H[1], H[2], H[3];
    var e, f, g, h := H[4], H[5], H[6], H[7];
    ghost var start := FromHash(H[..]);
    for i := 0 to 64
      invariant Regs(a, b, c, d, e, f, g, h) == Rounds(start, W[..], i)
    {
      var T1 := Add(Add(Add(Add(h, BigSigma1(e)), Ch(e, f, g)), K[i]), W[i]);
      var T2 := Add(BigSigma0(a), Maj(a, b, c));
      h := g;
      g := f;
      f := e;
      e := Add(d, T1);
      d := c;
      c := b;
      b := a;
      a := Add(T1, T2);
    }
    r := Regs(a, b, c, d, e, f, g, h);
  }

  /** The engine: the hash value `H` that chunks are added into. */
  class Sha256Engine {
    const H: array<Word>

    /** `H` starts as the initial hash value. */
    constructor ()
      ensures H.Length == 8 && H[..] == IV
      ensures fresh(H)
    {
      H := new Word[8](i requires 0 <= i < 8 => IV[i]);
    }

    /**
     * `processChunk`: build the schedule W in a local array, run the 64
     * rounds on the registers a..h, then add them into `H`.
     */
    method ProcessChunk(chunk: seq<Byte>)
      requires H.Length == 8 && |chunk| == 64
      modifies H
      ensures H[..] == Compress(old(H[..]), chunk)
    {
      var W := MessageSchedule(chunk);
      var r := CompressionRounds(H, W);
      CompressWords(H[..], chunk, r);
      AddRegisters(r);
    }

    /** The last step of `processChunk`: `H[0] += a`, ..., `H[7] += h`, modulo 2^32. */
    method AddRegisters(r: Regs)
      requires H.Length == 8
      modifies H
      ensures H[..] == [Add(old(H[0]), r.a), Add(old(H[1]), r.b), Add(old(H[2]), r.c), Add(old(H[3]), r.d),
                        Add(old(H[4]), r.e), Add(old(H[5]), r.f), Add(old(H[6]), r.g), Add(old(H[7]), r.h)]
    {
      H[0] := Add(H[0], r.a);
      H[1] := Add(H[1], r.b);
      H[2] := Add(H[2], r.c);
      H[3] := Add(H[3], r.d);
      H[4] := Add(H[4], r.e);
      H[5] := Add(H[5], r.f);
      H[6] := Add(H[6], r.g);
      H[7] := Add(H[7], r.h);
    }

    /**
     * `sha256`: pad the message, process the padded message 64 bytes at
     * a time in order, then write the eight words of `H` in hexadecimal.
     * `H` is not reset first: the result is the digest of the message
     * only when `H` holds the initial hash value on entry.
     */
    method Sha256(message: seq<Byte>) returns (hash: string)
      requires H.Length == 8
      modifies H
      ensures H[..] == HashChunks(old(H[..]), Pad(message))
      ensures hash == HexDigest(H[..])
      ensures old(H[..]) == IV ==> hash == Sha256Digest(message)
    {
      var paddedMessage := PadMessage(message);
      PadLength(message);
      var i := 0;
      while i < |paddedMessage|
        invariant i % 64 == 0 && i <= |paddedMessage|
        invariant HashChunks(H[..], paddedMessage[i..]) == HashChunks(old(H[..]), paddedMessage)
      {
        ChunkStep(i, |paddedMessage|);
        var chunk := paddedMessage[i..i + 64];
        assert paddedMessage[i..][..64] == chunk;
        assert paddedMessage[i..][64..] == paddedMessage[i + 64..];
        ProcessChunk(chunk);
        i := i + 64;
      }

      hash := "";
      for j := 0 to 8
        invariant hash == HexDigest(H[..j])
      {
        assert H[..j + 1][..j] == H[..j];
        hash := hash + HexWord(H[j]);
      }
      assert H[..8] == H[..];
    }

    /**
     * `sha256` with `H` first set back to the initial hash value, so that
     * every call returns the digest of its own message.
     */
    method Digest(message: seq<Byte>) returns (hash: string)
      requires H.Length == 8
      modifies H
      ensures hash == Sha256Digest(message)
      ensures H[..] == FinalHash(message)
    {
      forall i | 0 <= i < 8 {
        H[i] := IV[i];
      }
      assert H[..] == IV;
      hash := Sha256(message);
    }
  }
}
