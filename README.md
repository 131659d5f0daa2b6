# SHA-256 in Dafny

A model of a small single-file C++ SHA-256 program (`adityanewfinal.cpp`).
The program pads a message, compresses it in 64-byte chunks into a global
eight-word hash value `H`, and writes `H` as 64 lower-case hexadecimal
digits.

The model follows the program's structure, module by module:

- `Words` (words.dfy): 32-bit words kept as numbers in `[0, 2^32)`. It
  holds `+` modulo 2^32 and the bitwise operators, defined bit by bit. It
  also holds `rotr`, `Ch`, `Maj`, `Sigma0`, `Sigma1`, `sigma0` and
  `sigma1`, each with a lemma that says what every bit of its result is.
- `Padding` (padding.dfy): `padMessage`. `PadMessage` is a method with the
  program's two loops, proved equal to the function `Pad`. Lemmas give
  the length of the padded message and its layout, and show that this
  layout determines it.
- `Compression` (compression.dfy): `processChunk` as functions on values:
  - the round constants `K` and the initial hash value;
  - the message schedule `W`, with its recurrence and its uniqueness;
  - the 64 rounds and their inverse;
  - the final addition into the hash value.
- `Hex` (hex.dfy): `hex << setw(8) << setfill('0')`. Each word is written
  as exactly eight lower-case digits, and reading them back gives the word.
- `Digest` (digest.dfy): the program's mutable state. Class `Sha256Engine`
  holds the array `H`. `ProcessChunk` updates `H` in place through three
  steps:
  - `MessageSchedule`, the two loops that fill `W`;
  - `CompressionRounds`, the round loop over the registers a..h;
  - `AddRegisters`, `H[j] += ...`.

  `Sha256` runs the chunk loop and the hex loop.

`H` is a global that `sha256` reads and updates but never sets back to the
initial hash value. `Sha256` is therefore specified relative to the `H` it
finds on entry:
- its result is `HexDigest(HashChunks(old H, Pad(message)))`;
- it is the digest of the message when `H` holds the initial hash value
  on entry, as it does on the program's only call, from `main`.

## Model

| member | source | states |
|---|---|---|
| Words.RotRBit | adityanewfinal.cpp:29-31 | `(x >> n) \| (x << (32 - n))` is a rotation: bit k of the result is bit (k + n) mod 32 of x, for 1 <= n <= 31 |
| Words.ChBit | adityanewfinal.cpp:34-36 | each bit of `Ch(x, y, z)` is the bit of y where x has a 1 and the bit of z where x has a 0 |
| Words.MajBit | adityanewfinal.cpp:38-40 | each bit of `Maj(x, y, z)` is set exactly when it is set in at least two of x, y, z |
| Words.BigSigma0Bit | adityanewfinal.cpp:42-44 | bit k of `Sigma0(x)` is the exclusive-or of bits k+2, k+13 and k+22 (mod 32) of x |
| Words.BigSigma1Bit | adityanewfinal.cpp:46-48 | bit k of `Sigma1(x)` is the exclusive-or of bits k+6, k+11 and k+25 (mod 32) of x |
| Words.SmallSigma0Bit | adityanewfinal.cpp:50-52 | bit k of `sigma0(x)` is the exclusive-or of bits k+7 and k+18 (mod 32) of x with bit k+3 of x, which is 0 past bit 31 because `>>` shifts in zeros |
| Words.SmallSigma1Bit | adityanewfinal.cpp:54-56 | bit k of `sigma1(x)` is the exclusive-or of bits k+17 and k+19 (mod 32) of x with bit k+10 of x, which is 0 past bit 31 |
| Padding.BitLength | adityanewfinal.cpp:60 | the `uint64_t` length field is below 2^64 and is 8 times the byte count when that product fits |
| Padding.PadMessage | adityanewfinal.cpp:59-77 | the byte string the program's loops build is exactly `Pad(message)` |
| Padding.PadLength | adityanewfinal.cpp:66-69 | the padded length is a multiple of 64 and lies in [size + 9, size + 73), so it is the least multiple of 64 that holds the message, 0x80 and 8 length bytes |
| Padding.PadLayout | adityanewfinal.cpp:61-74 | the padded message starts with the message, then 0x80, then only zero bytes, and its last 8 bytes read big-endian give the bit length |
| Padding.PadUnique | adityanewfinal.cpp:59-77 | a byte string with that length and that layout is the padded message: the layout determines it |
| Padding.BigEndianByte | adityanewfinal.cpp:72-74 | byte j of the 8-byte length field is `(len >> 8 * (7 - j)) & 0xFF`, the byte the loop pushes at step j |
| Padding.FromBigEndianBigEndian | adityanewfinal.cpp:72-74 | reading the length field back gives the length when it is below 256^8 |
| Padding.BigEndianFromBigEndian | adityanewfinal.cpp:72-74 | a byte string is the big-endian encoding of the number it denotes |
| Compression.MessageWordValue | adityanewfinal.cpp:84-86 | schedule word i < 16, built with shifts and or, is the big-endian number in bytes 4i..4i+3 of the chunk |
| Compression.ScheduleIsSchedule | adityanewfinal.cpp:84-91 | the schedule starts with the chunk's sixteen big-endian words, and every later word i is `sigma1(W[i-2]) + W[i-7] + sigma0(W[i-15]) + W[i-16]` modulo 2^32 |
| Compression.ScheduleUnique | adityanewfinal.cpp:84-91 | any 64 words with those first sixteen words and that recurrence are the schedule |
| Compression.ScheduleAgree | adityanewfinal.cpp:88-91 | word by word: a sequence obeying the recurrence agrees with the schedule at every index below 64 |
| Compression.InverseRoundRound | adityanewfinal.cpp:98-109 | one round (`T1`, `T2`, the register shift h := g ... b := a, e := d + T1, a := T1 + T2) is undone by `InverseRound`: distinct register states stay distinct |
| Compression.RoundInverseRound | adityanewfinal.cpp:98-109 | every register state is the result of one round applied to `InverseRound` of it: a round is a bijection on register states |
| Compression.RoundsInverse | adityanewfinal.cpp:98-109 | the registers at the start of the 64 rounds are recovered from those at the end by undoing the rounds last first |
| Digest.MessageSchedule | adityanewfinal.cpp:81-91 | the two loops fill a fresh 64-word array with exactly the schedule of the chunk |
| Digest.CompressionRounds | adityanewfinal.cpp:93-109 | the round loop, starting from a..h = H[0..7], ends with the registers after the 64 rounds on that schedule |
| Digest.Sha256Engine.AddRegisters | adityanewfinal.cpp:111-119 | `H[0] += a` ... `H[7] += h`: each word of `H` becomes its old value plus its register modulo 2^32, and `H` keeps 8 words |
| Digest.Sha256Engine.ProcessChunk | adityanewfinal.cpp:80-120 | processing one chunk replaces `H` by the compression of its old value with that chunk |
| Digest.Sha256Engine.constructor | adityanewfinal.cpp:24-26 | `H` starts as the eight initial hash words |
| Digest.HashChunksAppend | adityanewfinal.cpp:128-131 | chunks are processed in order, with the state threaded: hashing p then q from the state reached equals hashing p + q, when p is whole chunks |
| Digest.Sha256Engine.Sha256 | adityanewfinal.cpp:123-140 | `sha256` leaves in `H` the chunks of the padded message hashed from the `H` found on entry, and returns `H` written as hex. When `H` held the initial hash value on entry, the result is the digest of the message |
| Digest.Sha256DigestForm | adityanewfinal.cpp:134-137 | the digest is 64 characters, all in 0-9a-f, and characters 8j..8j+7 are word j of the final hash value as eight zero-padded digits |
| Digest.Sha256DigestInjective | adityanewfinal.cpp:134-137 | equal digests come from equal final hash values: the hex text loses nothing |
| Digest.SecondCallChains | adityanewfinal.cpp:123-131 | because `H` is not reset, a second call on message m2 after a call on m1 hashes `Pad(m1) + Pad(m2)` from the initial value, not `Pad(m2)` |
| Digest.Sha256Engine.Digest | adityanewfinal.cpp:123-140 | with `H` first set back to the initial hash value, every call returns the digest of its own message, whatever state it starts in |
| Hex.HexValueHexDigits | adityanewfinal.cpp:136 | reading back the eight digits written for a word gives the word |
| Hex.HexDigitsLeadingZeros | adityanewfinal.cpp:136 | `setfill('0')`: a number below 16^k written in n >= k digits starts with n - k zeros |
| Hex.HexDigestInjective | adityanewfinal.cpp:134-137 | the concatenated hex text of the hash words determines the words |
| Hex.HexDigestSlice | adityanewfinal.cpp:134-137 | word j of the hash value is written at characters 8j..8j+7, in order |
| Hex.HexChar | adityanewfinal.cpp:136 | a digit below 16 is written as a lower-case hexadecimal character whose value is that digit |

## Left out

- `readFile` and `main` (lines 143-167): file input and console output.
  The model starts from the message bytes.
- The conversion from `std::string` characters to `uint8_t` (line 61).
  The message is modelled directly as bytes.
- `stringstream` itself (lines 134-139). Only the text it produces is
  modelled: `hex`, `setw(8)` and `setfill('0')` on values below 2^32.
- C++ integer promotion in the byte-to-word step (line 85). Each
  `uint8_t` is promoted to `int` before `<< 24`, and for bytes of 0x80 or
  more that overflows a signed `int`. The model takes the 32-bit result
  the expression evidently intends.
- `rotr` with n = 0 or n >= 32, where `x << 32` is undefined in C++. The
  model requires 1 <= n <= 31; the program only uses 2 to 25.
- Digest.HashChunks ignores bytes after the last whole chunk. A padded
  message is always whole chunks (`PadLength`), so the program never
  reaches that case.
- The length field wraps modulo 2^64, as the `uint64_t` does. Messages
  of 2^61 bytes or more are not otherwise modelled.
- Compression.RoundsInverse: only the direction "the rounds lose no
  information" is proved for all 64 rounds. The converse, that every end
  state is reached, is proved for a single round (`RoundInverseRound`).
- Cryptographic properties (collision or preimage resistance) and
  agreement with published test vectors.
- Concurrency: two threads calling `sha256` share `H`.

## Findings

| source | as written | input that shows it | evidently intended | confidence | as-written member | corrected member |
|---|---|---|---|---|---|---|
| adityanewfinal.cpp:123-131 | `sha256` compresses into the global `H` without first setting it back to the initial hash value | a second call `sha256(m2)` after `sha256(m1)` in the same process starts from the first message's final hash value and hashes `Pad(m1) + Pad(m2)` | every call returns the SHA-256 digest of its own message | medium: the program's only call, in `main`, starts from the initial value; not executed | Digest.SecondCallChains | Digest.Sha256Engine.Digest |
