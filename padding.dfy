/**
 * Message padding (`padMessage`): the message, the byte 0x80, zero
 * bytes up to 56 modulo 64, and the message length in bits as a 64-bit
 * big-endian number, so that the result is a whole number of 64-byte
 * chunks.
 */
module Padding {
  import opened Words

  /** 2^64: the length field is a `uint64_t`. */
  const LENGTH_MOD: int := 0x1_0000_0000_0000_0000

  /** `message.size() * 8`, computed and stored in 64 bits. */
  function BitLength(size: nat): (r: nat)
    ensures r < LENGTH_MOD
    ensures size < LENGTH_MOD / 8 ==> r == size * 8
  {
    (size * 8) % LENGTH_MOD
  }

  /** 256^n, the range of n bytes; the same number as `Pow2(8 * n)` (`Pow256Pow2`). */
  function Pow256(n: nat): (r: nat)
    ensures r > 0
  {
    if n == 0 then 1 else 256 * Pow256(n - 1)
  }

  lemma {:induction false} Pow256Pow2(n: nat)
    ensures Pow256(n) == Pow2(8 * n)
  {
    if n > 0 {
      Pow256Pow2(n - 1);
      Pow2Plus8(8 * (n - 1));
    }
  }

  lemma Pow256Length()
    ensures Pow256(8) == LENGTH_MOD
  {
    calc {
      Pow256(8);
      256 * Pow256(7);
      65536 * Pow256(6);
      0x100_0000 * Pow256(5);
      0x1_0000_0000 * Pow256(4);
      0x100_0000_0000 * Pow256(3);
      0x1_0000_0000_0000 * Pow256(2);
      0x100_0000_0000_0000 * Pow256(1);
      LENGTH_MOD;
    }
  }

  /** The `n` low bytes of `v`, most significant first. */
  function BigEndian(v: nat, n: nat): (r: seq<Byte>)
    ensures |r| == n
  {
    if n == 0 then [] else BigEndian(v / 256, n - 1) + [v % 256]
  }

  /** The number a big-endian byte string denotes. */
  function FromBigEndian(s: seq<Byte>): (v: nat)
    ensures v < Pow256(|s|)
  {
    if |s| == 0 then 0 else FromBigEndian(s[..|s| - 1]) * 256 + s[|s| - 1]
  }

  lemma {:induction false} FromBigEndianBigEndian(v: nat, n: nat)
    requires v < Pow256(n)
    ensures FromBigEndian(BigEndian(v, n)) == v
  {
    if n > 0 {
      var s := BigEndian(v, n);
      assert s[..n - 1] == BigEndian(v / 256, n - 1);
      FromBigEndianBigEndian(v / 256, n - 1);
    }
  }

  lemma {:induction false} BigEndianFromBigEndian(s: seq<Byte>)
    ensures BigEndian(FromBigEndian(s), |s|) == s
  {
    if |s| > 0 {
      var v := FromBigEndian(s);
      assert v / 256 == FromBigEndian(s[..|s| - 1]);
      BigEndianFromBigEndian(s[..|s| - 1]);
      assert s == s[..|s| - 1] + [s[|s| - 1]];
    }
  }

  /** Byte j of the big-endian encoding is `(v >> 8 * (n - 1 - j)) & 0xFF`. */
  lemma {:induction false} BigEndianByte(v: nat, n: nat, j: nat)
    requires j < n
    ensures BigEndian(v, n)[j] == Shr(v, 8 * (n - 1 - j)) % 256
  {
    if j < n - 1 {
      BigEndianByte(v / 256, n - 1, j);
      ShrShr(v, 8, 8 * (n - 2 - j));
      ShrByte(v);
    }
  }

  /** Zero bytes appended after 0x80: |message| + 1 + count is 56 modulo 64. */
  function ZeroCount(size: nat): nat
  {
    (55 - size) % 64
  }

  function Zeros(n: nat): (r: seq<Byte>)
    ensures |r| == n && forall i :: 0 <= i < n ==> r[i] == 0
  {
    seq(n, _ => 0)
  }

  lemma ZerosPlusOne(n: nat)
    ensures Zeros(n) + [0] == Zeros(n + 1)
  {
  }

  /** The padded message `padMessage` builds. */
  function Pad(message: seq<Byte>): seq<Byte>
  {
    message + [0x80] + Zeros(ZeroCount(|message|)) + BigEndian(BitLength(|message|), 8)
  }

  /** The padded length is the least multiple of 64 that is at least |message| + 9. */
  lemma PadLength(message: seq<Byte>)
    ensures |Pad(message)| % 64 == 0
    ensures |message| + 9 <= |Pad(message)| < |message| + 9 + 64
  {
    var n := |message|;
    var k := (55 - n) / 64;
    assert 55 - n == 64 * k + ZeroCount(n);
    assert |Pad(message)| == 64 * (1 - k);
  }

  /**
   * The padded message starts with the message itself, then 0x80, then
   * only zero bytes, and ends with the 8-byte big-endian bit length.
   */
  lemma PadLayout(message: seq<Byte>)
    ensures Pad(message)[..|message|] == message
    ensures Pad(message)[|message|] == 0x80
    ensures forall i :: |message| < i < |Pad(message)| - 8 ==> Pad(message)[i] == 0
    ensures FromBigEndian(Pad(message)[|Pad(message)| - 8..]) == BitLength(|message|)
  {
    var p := Pad(message);
    var z := ZeroCount(|message|);
    assert p[|p| - 8..] == BigEndian(BitLength(|message|), 8);
    forall i | |message| < i < |p| - 8
      ensures p[i] == 0
    {
      assert p[i] == Zeros(z)[i - |message| - 1];
    }
    Pow256Length();
    FromBigEndianBigEndian(BitLength(|message|), 8);
  }

  /** The only multiple of 64 in [size + 9, size + 73) leaves room for exactly `ZeroCount(size)` zeros. */
  lemma ZeroCountFits(size: nat, len: nat)
    requires len % 64 == 0 && size + 9 <= len < size + 9 + 64
    ensures len - size - 9 == ZeroCount(size)
  {
  }

  /** The layout of `PadLayout` and the length of `PadLength` determine the padded message. */
  lemma PadUnique(message: seq<Byte>, p: seq<Byte>)
    requires |p| % 64 == 0 && |message| + 9 <= |p| < |message| + 9 + 64
    requires p[..|message|] == message && p[|message|] == 0x80
    requires forall i :: |message| < i < |p| - 8 ==> p[i] == 0
    requires FromBigEndian(p[|p| - 8..]) == BitLength(|message|)
    ensures p == Pad(message)
  {
    ZeroCountFits(|message|, |p|);
    LayoutDetermines(message, p, |p| - |message| - 9);
  }

  /** A sequence laid out as the message, 0x80, z zeros and the length field is that concatenation. */
  lemma LayoutDetermines(message: seq<Byte>, p: seq<Byte>, z: nat)
    requires |p| == |message| + 9 + z
    requires p[..|message|] == message && p[|message|] == 0x80
    requires forall i :: |message| < i < |p| - 8 ==> p[i] == 0
    requires FromBigEndian(p[|p| - 8..]) == BitLength(|message|)
    ensures p == message + [0x80] + Zeros(z) + BigEndian(BitLength(|message|), 8)
  {
    var n := |message|;
    var zeros := p[n + 1..|p| - 8];
    assert zeros == Zeros(z) by {
      forall i | 0 <= i < z
        ensures zeros[i] == 0
      {
        assert zeros[i] == p[n + 1 + i];
      }
    }
    BigEndianFromBigEndian(p[|p| - 8..]);
    assert p[..n + 1] == message + [0x80];
    assert p[..|p| - 8] == p[..n + 1] + zeros;
    assert p == p[..|p| - 8] + p[|p| - 8..];
  }

  /** The zero-padding loop stops exactly when `ZeroCount(size)` zeros have been pushed. */
  lemma ZeroCountStop(size: nat, zeros: nat)
    requires zeros <= ZeroCount(size)
    ensures (size + 1 + zeros) % 64 == 56 <==> zeros == ZeroCount(size)
  {
    var k := (55 - size) / 64;
    assert 55 - size == 64 * k + ZeroCount(size);
  }

  /**
   * `padMessage`: copy the message, push 0x80, push zeros while the
   * size is not 56 modulo 64, then push the eight length bytes from the
   * most significant down.
   */
  method PadMessage(message: seq<Byte>) returns (padded: seq<Byte>)
    ensures padded == Pad(message)
  {
    var messageLen := BitLength(|message|);
    padded := message;
    padded := padded + [0x80];
    var zeros := 0;
    while |padded| % 64 != 56
      invariant zeros <= ZeroCount(|message|) && |padded| == |message| + 1 + zeros
      invariant padded == message + [0x80] + Zeros(zeros)
      decreases ZeroCount(|message|) - zeros
    {
      ZeroCountStop(|message|, zeros);
      ZerosPlusOne(zeros);
      padded := padded + [0];
      zeros := zeros + 1;
    }
    ZeroCountStop(|message|, zeros);
    var prefix := padded;
    for i := 8 downto 0
      invariant padded == prefix + BigEndian(messageLen, 8)[..8 - i]
    {
      BigEndianByte(messageLen, 8, 7 - i);
      assert BigEndian(messageLen, 8)[..8 - i] == BigEndian(messageLen, 8)[..7 - i] + [Shr(messageLen, i * 8) % 256];
      padded := padded + [Shr(messageLen, i * 8) % 256];
    }
    assert BigEndian(messageLen, 8)[..8] == BigEndian(messageLen, 8);
  }
}
