// The digest as FIPS 180-4 defines it: the 64-word message schedule, the eight
// working variables shifted on every round, and the padded message cut in blocks.
module Fips180 {

  const U32: nat := 0x1_0000_0000

  // Section 4.2.2, in rows of eight.
  function KRow(r: nat): (row: seq<nat>)
    requires r < 8
    ensures |row| == 8
  {
    if r == 0 then
      [0x428a2f98, 0x71374491, 0xb5c0fbcf, 0xe9b5dba5, 0x3956c25b, 0x59f111f1, 0x923f82a4, 0xab1c5ed5]
    else if r == 1 then
      [0xd807aa98, 0x12835b01, 0x243185be, 0x550c7dc3, 0x72be5d74, 0x80deb1fe, 0x9bdc06a7, 0xc19bf174]
    else if r == 2 then
      [0xe49b69c1, 0xefbe4786, 0x0fc19dc6, 0x240ca1cc, 0x2de92c6f, 0x4a7484aa, 0x5cb0a9dc, 0x76f988da]
    else if r == 3 then
      [0x983e5152, 0xa831c66d, 0xb00327c8, 0xbf597fc7, 0xc6e00bf3, 0xd5a79147, 0x06ca6351, 0x14292967]
    else if r == 4 then
      [0x27b70a85, 0x2e1b2138, 0x4d2c6dfc, 0x53380d13, 0x650a7354, 0x766a0abb, 0x81c2c92e, 0x92722c85]
    else if r == 5 then
      [0xa2bfe8a1, 0xa81a664b, 0xc24b8b70, 0xc76c51a3, 0xd192e819, 0xd6990624, 0xf40e3585, 0x106aa070]
    else if r == 6 then
      [0x19a4c116, 0x1e376c08, 0x2748774c, 0x34b0bcb5, 0x391c0cb3, 0x4ed8aa4a, 0x5b9cca4f, 0x682e6ff3]
    else
      [0x748f82ee, 0x78a5636f, 0x84c87814, 0x8cc70208, 0x90befffa, 0xa4506ceb, 0xbef9a3f7, 0xc67178f2]
  }

  function K(t: nat): bv32
    requires t < 64
  {
    WordOf(KRow(t / 8)[t % 8])
  }

  // Section 5.3.3.
  function H0Row(): (row: seq<nat>)
    ensures |row| == 8
  {
    [0x6a09e667, 0xbb67ae85, 0x3c6ef372, 0xa54ff53a, 0x510e527f, 0x9b05688c, 0x1f83d9ab, 0x5be0cd19]
  }

  function H0(): (h: seq<bv32>)
    ensures |h| == 8
  {
    seq(8, i requires 0 <= i < 8 => WordOf(H0Row()[i]))
  }

  function BigSigma0(x: bv32): bv32 { x.RotateRight(2) ^ x.RotateRight(13) ^ x.RotateRight(22) }

  function BigSigma1(x: bv32): bv32 { x.RotateRight(6) ^ x.RotateRight(11) ^ x.RotateRight(25) }

  function SmallSigma0(x: bv32): bv32 { x.RotateRight(7) ^ x.RotateRight(18) ^ (x >> 3) }

  function SmallSigma1(x: bv32): bv32 { x.RotateRight(17) ^ x.RotateRight(19) ^ (x >> 10) }

  function Ch(x: bv32, y: bv32, z: bv32): bv32 { (x & y) ^ (!x & z) }

  function Maj(x: bv32, y: bv32, z: bv32): bv32 { (x & y) ^ (x & z) ^ (y & z) }

  // Addition modulo 2^32, of two, four and five words.

  function Add2(x: bv32, y: bv32): bv32 { x + y }

  function Add4(x: bv32, y: bv32, z: bv32, u: bv32): bv32 { x + y + z + u }

  function Add5(x: bv32, y: bv32, z: bv32, u: bv32, v: bv32): bv32 { x + y + z + u + v }

  // W_t of section 6.2.2, step 1.
  function Schedule(block: seq<bv32>, t: nat): bv32
    requires |block| == 16
  {
    if t < 16 then
      block[t]
    else
      NextWord(Schedule(block, t - 2), Schedule(block, t - 7), Schedule(block, t - 15), Schedule(block, t - 16))
  }

  function T1(e: bv32, f: bv32, g: bv32, h: bv32, k: bv32, w: bv32): bv32 {
    Add5(h, BigSigma1(e), Ch(e, f, g), k, w)
  }

  function T2(a: bv32, b: bv32, c: bv32): bv32 { Add2(BigSigma0(a), Maj(a, b, c)) }

  function NextWord(w2: bv32, w7: bv32, w15: bv32, w16: bv32): bv32 {
    Add4(SmallSigma1(w2), w7, SmallSigma0(w15), w16)
  }

  // One pass of step 3: the variables a to h move down one place.
  function Round(s: seq<bv32>, k: bv32, w: bv32): (r: seq<bv32>)
    requires |s| == 8
    ensures |r| == 8
  {
    var t1 := T1(s[4], s[5], s[6], s[7], k, w);
    var t2 := T2(s[0], s[1], s[2]);
    [Add2(t1, t2), s[0], s[1], s[2], Add2(s[3], t1), s[4], s[5], s[6]]
  }

  function Rounds(h: seq<bv32>, block: seq<bv32>, t: nat): (r: seq<bv32>)
    requires |h| == 8 && |block| == 16 && t <= 64
    ensures |r| == 8
  {
    if t == 0 then h else Round(Rounds(h, block, t - 1), K(t - 1), Schedule(block, t - 1))
  }

  // Step 4.
  function Compress(h: seq<bv32>, block: seq<bv32>): (r: seq<bv32>)
    requires |h| == 8 && |block| == 16
    ensures |r| == 8
  {
    var s := Rounds(h, block, 64);
    seq(8, i requires 0 <= i < 8 => Add2(h[i], s[i]))
  }

  // Section 3.1: the first byte of a word is its most significant one.
  function BigEndian(b0: bv8, b1: bv8, b2: bv8, b3: bv8): bv32 {
    ((b0 as bv32) << 24) | ((b1 as bv32) << 16) | ((b2 as bv32) << 8) | (b3 as bv32)
  }

  function Words(bytes: seq<bv8>): (w: seq<bv32>)
    ensures |w| == |bytes| / 4
  {
    seq(|bytes| / 4, i requires 0 <= i < |bytes| / 4 =>
      BigEndian(bytes[4 * i], bytes[4 * i + 1], bytes[4 * i + 2], bytes[4 * i + 3]))
  }

  function WordOf(n: nat): bv32 { (n % U32) as bv32 }

  // Section 5.1.1: a one bit, the fewest zero bits that leave room for the length
  // in the last eight bytes of a block, and the length in bits in two words.
  function Padding(n: nat): (z: nat)
    ensures z < 64 && (n + 1 + z) % 64 == 56 && n + 1 + z == 64 * ((n + 8) / 64) + 56
  {
    64 * ((n + 8) / 64) + 55 - n
  }

  function PaddedBytes(msg: seq<bv8>): (b: seq<bv8>)
    ensures |b| == 64 * ((|msg| + 8) / 64) + 56
  {
    msg + [0x80] + seq(Padding(|msg|), _ => 0 as bv8)
  }

  function Padded(msg: seq<bv8>): (w: seq<bv32>)
    ensures |w| == 16 * ((|msg| + 8) / 64) + 16
  {
    PaddedWith(msg, 8 * |msg|)
  }

  // The padding with any number in the place of the length.
  function PaddedWith(msg: seq<bv8>, bits: nat): (w: seq<bv32>)
    ensures |w| == 16 * ((|msg| + 8) / 64) + 16
  {
    Words(PaddedBytes(msg)) + [WordOf(bits / U32), WordOf(bits)]
  }

  // The hash value after the first n blocks.
  function HashBlocks(words: seq<bv32>, n: nat): (h: seq<bv32>)
    requires 16 * n <= |words|
    ensures |h| == 8
  {
    if n == 0 then H0() else Compress(HashBlocks(words, n - 1), words[16 * (n - 1)..16 * n])
  }

  function ByteOf(w: bv32, k: nat): bv8
    requires k < 4
  {
    if k == 0 then (w >> 24) as bv8
    else if k == 1 then ((w >> 16) & 0xff) as bv8
    else if k == 2 then ((w >> 8) & 0xff) as bv8
    else (w & 0xff) as bv8
  }

  function Digest(msg: seq<bv8>): (d: seq<bv8>)
    ensures |d| == 32
  {
    DigestOf(Padded(msg))
  }

  function DigestOf(words: seq<bv32>): (d: seq<bv8>)
    ensures |d| == 32
  {
    var h := HashBlocks(words, |words| / 16);
    seq(32, i requires 0 <= i < 32 => ByteOf(h[i / 4], i % 4))
  }
}
