/** SHA-256 as FIPS 180-4 defines it: the functions of section 4.1.2, the padding of 5.1.1 and the computation of 6.2.2. */
module Fips180 {
  import opened Words

  type Word = x: int | IsWord(x) witness 0
  type Byte = x: int | 0 <= x < 256 witness 0

  const K: seq<Word> := [
    0x428a2f98, 0x71374491, 0xb5c0fbcf, 0xe9b5dba5, 0x3956c25b, 0x59f111f1, 0x923f82a4, 0xab1c5ed5,
    0xd807aa98, 0x12835b01, 0x243185be, 0x550c7dc3, 0x72be5d74, 0x80deb1fe, 0x9bdc06a7, 0xc19bf174,
    0xe49b69c1, 0xefbe4786, 0x0fc19dc6, 0x240ca1cc, 0x2de92c6f, 0x4a7484aa, 0x5cb0a9dc, 0x76f988da,
    0x983e5152, 0xa831c66d, 0xb00327c8, 0xbf597fc7, 0xc6e00bf3, 0xd5a79147, 0x06ca6351, 0x14292967,
    0x27b70a85, 0x2e1b2138, 0x4d2c6dfc, 0x53380d13, 0x650a7354, 0x766a0abb, 0x81c2c92e, 0x92722c85,
    0xa2bfe8a1, 0xa81a664b, 0xc24b8b70, 0xc76c51a3, 0xd192e819, 0xd6990624, 0xf40e3585, 0x106aa070,
    0x19a4c116, 0x1e376c08, 0x2748774c, 0x34b0bcb5, 0x391c0cb3, 0x4ed8aa4a, 0x5b9cca4f, 0x682e6ff3,
    0x748f82ee, 0x78a5636f, 0x84c87814, 0x8cc70208, 0x90befffa, 0xa4506ceb, 0xbef9a3f7, 0xc67178f2]

  const H0: seq<Word> := [0x6a09e667, 0xbb67ae85, 0x3c6ef372, 0xa54ff53a, 0x510e527f, 0x9b05688c, 0x1f83d9ab, 0x5be0cd19]

  // ----- section 4.1.2

  function Rotr(n: nat, x: Word): Word
    requires n <= 32
  {
    Or(Shr(x, n), Shl(x, 32 - n))
  }

  function Ch(x: Word, y: Word, z: Word): Word {
    Xor(And(x, y), And(Not(x), z))
  }

  function Maj(x: Word, y: Word, z: Word): Word {
    Xor(Xor(And(x, y), And(x, z)), And(y, z))
  }

  function BigSigma0(x: Word): Word {
    Xor(Xor(Rotr(2, x), Rotr(13, x)), Rotr(22, x))
  }

  function BigSigma1(x: Word): Word {
    Xor(Xor(Rotr(6, x), Rotr(11, x)), Rotr(25, x))
  }

  function SmallSigma0(x: Word): Word {
    Xor(Xor(Rotr(7, x), Rotr(18, x)), Shr(x, 3))
  }

  function SmallSigma1(x: Word): Word {
    Xor(Xor(Rotr(17, x), Rotr(19, x)), Shr(x, 10))
  }

  // ----- section 5.1.1

  /** The least number of zero bytes after the 0x80 that leaves 8 bytes to a multiple of 64. */
  function ZeroCount(n: nat): (k: nat)
    ensures (n + 1 + k + 8) % 64 == 0 && k < 64
  {
    (119 - n % 64) % 64
  }

  function LowByte(x: int): Byte {
    x % 256
  }

  /** The four bytes of a word, the highest first. */
  function BigEndian(x: int): (r: seq<Byte>)
    requires IsWord(x)
    ensures |r| == 4
  {
    [LowByte(x / 0x100_0000), LowByte(x / 0x1_0000), LowByte(x / 0x100), LowByte(x)]
  }

  function Zeros(k: nat): seq<Byte> {
    seq(k, _ => 0)
  }

  /** The message, a 1 bit, zeros and the 64-bit length in bits. */
  function Pad(message: seq<Byte>): seq<Byte>
    requires |message| < 0x2000_0000_0000_0000
  {
    message + [0x80] + Zeros(ZeroCount(|message|)) + BigEndian(8 * |message| / M32) + BigEndian(8 * |message| % M32)
  }

  // ----- section 6.2.2

  /** The word of four bytes, the first the highest. */
  function WordAt(bytes: seq<Byte>, i: nat): Word
    requires i + 4 <= |bytes|
  {
    var a: int, b: int, c: int, d: int := bytes[i], bytes[i + 1], bytes[i + 2], bytes[i + 3];
    a * 0x100_0000 + b * 0x1_0000 + c * 0x100 + d
  }

  /** The message schedule of the block that starts at `offset`. */
  function Schedule(bytes: seq<Byte>, offset: nat, t: nat): Word
    requires offset + 64 <= |bytes| && t < 64
  {
    if t < 16 then WordAt(bytes, offset + 4 * t)
    else
      Add(Add(Add(Schedule(bytes, offset, t - 16), SmallSigma0(Schedule(bytes, offset, t - 15))), Schedule(bytes, offset, t - 7)),
          SmallSigma1(Schedule(bytes, offset, t - 2)))
  }

  datatype Registers = Registers(a: Word, b: Word, c: Word, d: Word, e: Word, f: Word, g: Word, h: Word)

  function T1(r: Registers, k: Word, w: Word): Word {
    Add(Add(Add(Add(r.h, BigSigma1(r.e)), Ch(r.e, r.f, r.g)), k), w)
  }

  function T2(r: Registers): Word {
    Add(BigSigma0(r.a), Maj(r.a, r.b, r.c))
  }

  function Round(r: Registers, k: Word, w: Word): Registers {
    Registers(Add(T1(r, k, w), T2(r)), r.a, r.b, r.c, Add(r.d, T1(r, k, w)), r.e, r.f, r.g)
  }

  /** The working variables after `t` rounds. */
  function Rounds(r: Registers, bytes: seq<Byte>, offset: nat, t: nat): Registers
    requires offset + 64 <= |bytes| && t <= 64
  {
    if t == 0 then r else Round(Rounds(r, bytes, offset, t - 1), K[t - 1], Schedule(bytes, offset, t - 1))
  }

  function RegistersOf(hash: seq<Word>): Registers
    requires |hash| == 8
  {
    Registers(hash[0], hash[1], hash[2], hash[3], hash[4], hash[5], hash[6], hash[7])
  }

  function Listed(r: Registers): seq<Word> {
    [r.a, r.b, r.c, r.d, r.e, r.f, r.g, r.h]
  }

  /** The hash value after the block that starts at `offset`. */
  function Compress(hash: seq<Word>, bytes: seq<Byte>, offset: nat): (r: seq<Word>)
    requires |hash| == 8 && offset + 64 <= |bytes|
    ensures |r| == 8
  {
    var end := Listed(Rounds(RegistersOf(hash), bytes, offset, 64));
    seq(8, i requires 0 <= i < 8 => Add(hash[i], end[i]))
  }

  /** The hash value after the first `n` blocks. */
  function Blocks(bytes: seq<Byte>, n: nat): (r: seq<Word>)
    requires 64 * n <= |bytes|
    ensures |r| == 8
  {
    if n == 0 then H0 else Compress(Blocks(bytes, n - 1), bytes, 64 * (n - 1))
  }

  function HashWords(message: seq<Byte>): (r: seq<Word>)
    requires |message| < 0x2000_0000_0000_0000
    ensures |r| == 8
  {
    Blocks(Pad(message), |Pad(message)| / 64)
  }

  const HEX: string := "0123456789abcdef"

  function HexDigits(x: int, n: nat): (s: string)
    requires IsWord(x)
    ensures |s| == n
  {
    if n == 0 then [] else HexDigits(x / 16, n - 1) + [HEX[x % 16]]
  }

  /** The hash in hexadecimal, eight digits a word. */
  function HexText(words: seq<Word>): string {
    if words == [] then [] else HexText(words[..|words| - 1]) + HexDigits(words[|words| - 1], 8)
  }

  function Hash(message: seq<Byte>): string
    requires |message| < 0x2000_0000_0000_0000
  {
    HexText(HashWords(message))
  }
}
