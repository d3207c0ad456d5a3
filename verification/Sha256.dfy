// The incremental SHA-256 of the base library, on a little-endian machine: the
// working variables stay in place and are renumbered on every round, the message
// schedule lives in the sixteen words of the input buffer, and the input arrives in
// pieces of any length.
module Sha256 {
  import opened Fips180

  // The tables of the code. Its round constants are octal, here digit by digit.

  function Octal(a: nat, b: nat, c: nat, d: nat, e: nat, f: nat, g: nat, h: nat, i: nat, j: nat, k: nat): nat {
    ((((((((((a * 8 + b) * 8 + c) * 8 + d) * 8 + e) * 8 + f) * 8 + g) * 8 + h) * 8 + i) * 8 + j) * 8) + k
  }

  function K256(r: nat): (row: seq<nat>)
    requires r < 8
    ensures |row| == 8
  {
    if r == 0 then
      [Octal(1, 0, 2, 4, 2, 4, 2, 7, 6, 3, 0), Octal(1, 6, 1, 1, 5, 6, 4, 2, 2, 2, 1),
       Octal(2, 6, 5, 6, 0, 1, 7, 5, 7, 1, 7), Octal(3, 5, 1, 5, 5, 3, 5, 5, 6, 4, 5),
       Octal(0, 7, 1, 2, 5, 5, 4, 1, 1, 3, 3), Octal(1, 3, 1, 7, 4, 2, 1, 0, 7, 6, 1),
       Octal(2, 2, 2, 1, 7, 7, 0, 1, 2, 4, 4), Octal(2, 5, 3, 0, 7, 0, 5, 7, 3, 2, 5)]
    else if r == 1 then
      [Octal(3, 3, 0, 0, 1, 7, 2, 5, 2, 3, 0), Octal(0, 2, 2, 4, 0, 6, 5, 5, 4, 0, 1),
       Octal(0, 4, 4, 1, 4, 3, 0, 2, 6, 7, 6), Octal(1, 2, 5, 0, 3, 0, 7, 6, 7, 0, 3),
       Octal(1, 6, 2, 5, 7, 4, 5, 6, 5, 6, 4), Octal(2, 0, 0, 6, 7, 5, 3, 0, 7, 7, 6),
       Octal(2, 3, 3, 6, 7, 0, 0, 3, 2, 4, 7), Octal(3, 0, 1, 4, 6, 7, 7, 0, 5, 6, 4)]
    else if r == 2 then
      [Octal(3, 4, 4, 4, 6, 6, 6, 4, 7, 0, 1), Octal(3, 5, 7, 5, 7, 4, 4, 3, 6, 0, 6),
       Octal(0, 1, 7, 6, 0, 3, 1, 6, 7, 0, 6), Octal(0, 4, 4, 0, 3, 1, 2, 0, 7, 1, 4),
       Octal(0, 5, 5, 7, 2, 2, 2, 6, 1, 5, 7), Octal(1, 1, 2, 3, 5, 1, 0, 2, 2, 5, 2),
       Octal(1, 3, 4, 5, 4, 1, 2, 4, 7, 3, 4), Octal(1, 6, 6, 7, 6, 3, 0, 4, 3, 3, 2)]
    else if r == 3 then
      [Octal(2, 3, 0, 1, 7, 4, 5, 0, 5, 2, 2), Octal(2, 5, 0, 1, 4, 3, 4, 3, 1, 5, 5),
       Octal(2, 6, 0, 0, 0, 6, 2, 3, 7, 1, 0), Octal(2, 7, 7, 2, 6, 2, 7, 7, 7, 0, 7),
       Octal(3, 0, 6, 7, 0, 0, 0, 5, 7, 6, 3), Octal(3, 2, 5, 5, 1, 7, 1, 0, 5, 0, 7),
       Octal(0, 0, 6, 6, 2, 4, 6, 1, 5, 2, 1), Octal(0, 2, 4, 1, 2, 2, 2, 4, 5, 4, 7)]
    else if r == 4 then
      [Octal(0, 4, 7, 5, 5, 6, 0, 5, 2, 0, 5), Octal(0, 5, 6, 0, 6, 6, 2, 0, 4, 7, 0),
       Octal(1, 1, 5, 1, 3, 0, 6, 6, 7, 7, 4), Octal(1, 2, 3, 1, 6, 0, 0, 6, 4, 2, 3),
       Octal(1, 4, 5, 0, 2, 4, 7, 1, 5, 2, 4), Octal(1, 6, 6, 3, 2, 4, 0, 5, 2, 7, 3),
       Octal(2, 0, 1, 6, 0, 5, 4, 4, 4, 5, 6), Octal(2, 2, 2, 3, 4, 4, 2, 6, 2, 0, 5)]
    else if r == 5 then
      [Octal(2, 4, 2, 5, 7, 7, 6, 4, 2, 4, 1), Octal(2, 5, 0, 0, 6, 4, 6, 3, 1, 1, 3),
       Octal(3, 0, 2, 2, 2, 7, 0, 5, 5, 6, 0), Octal(3, 0, 7, 3, 3, 0, 5, 0, 6, 4, 3),
       Octal(3, 2, 1, 4, 4, 5, 6, 4, 0, 3, 1), Octal(3, 2, 6, 4, 6, 2, 0, 3, 0, 4, 4),
       Octal(3, 6, 4, 0, 3, 4, 3, 2, 6, 0, 5), Octal(0, 2, 0, 3, 2, 5, 2, 0, 1, 6, 0)]
    else if r == 6 then
      [Octal(0, 3, 1, 5, 1, 1, 4, 0, 4, 2, 6), Octal(0, 3, 6, 1, 5, 6, 6, 6, 0, 1, 0),
       Octal(0, 4, 7, 2, 2, 0, 7, 3, 5, 1, 4), Octal(0, 6, 4, 5, 4, 1, 3, 6, 2, 6, 5),
       Octal(0, 7, 1, 0, 7, 0, 0, 6, 2, 6, 3), Octal(1, 1, 6, 6, 6, 1, 2, 5, 1, 1, 2),
       Octal(1, 3, 3, 4, 7, 1, 4, 5, 1, 1, 7), Octal(1, 5, 0, 1, 3, 4, 6, 7, 7, 6, 3)]
    else
      [Octal(1, 6, 4, 4, 3, 7, 0, 1, 3, 5, 6), Octal(1, 7, 0, 5, 1, 2, 6, 1, 5, 5, 7),
       Octal(2, 0, 4, 6, 2, 0, 7, 4, 0, 2, 4), Octal(2, 1, 4, 6, 1, 6, 0, 1, 0, 1, 0),
       Octal(2, 2, 0, 5, 7, 5, 7, 7, 7, 7, 2), Octal(2, 4, 4, 2, 4, 0, 6, 6, 3, 5, 3),
       Octal(2, 7, 6, 7, 6, 3, 2, 1, 7, 6, 7), Octal(3, 0, 6, 3, 4, 2, 7, 4, 3, 6, 2)]
  }

  function G256(): (row: seq<nat>)
    ensures |row| == 8
  {
    [0x6A09E667, 0xBB67AE85, 0x3C6EF372, 0xA54FF53A, 0x510E527F, 0x9B05688C, 0x1F83D9AB, 0x5BE0CD19]
  }

  lemma TablesAgree(r: nat)
    requires r < 8
    ensures K256(r) == KRow(r) && G256() == H0Row()
  {
    hide Octal;
    match r
    case 0 => Octals0();
    case 1 => Octals1();
    case 2 => Octals2();
    case 3 => Octals3();
    case 4 => Octals4();
    case 5 => Octals5();
    case 6 => Octals6();
    case _ => Octals7();
  }

  lemma Octals0()
    ensures Octal(1, 0, 2, 4, 2, 4, 2, 7, 6, 3, 0) == 0x428a2f98
    ensures Octal(1, 6, 1, 1, 5, 6, 4, 2, 2, 2, 1) == 0x71374491
    ensures Octal(2, 6, 5, 6, 0, 1, 7, 5, 7, 1, 7) == 0xb5c0fbcf
    ensures Octal(3, 5, 1, 5, 5, 3, 5, 5, 6, 4, 5) == 0xe9b5dba5
    ensures Octal(0, 7, 1, 2, 5, 5, 4, 1, 1, 3, 3) == 0x3956c25b
    ensures Octal(1, 3, 1, 7, 4, 2, 1, 0, 7, 6, 1) == 0x59f111f1
    ensures Octal(2, 2, 2, 1, 7, 7, 0, 1, 2, 4, 4) == 0x923f82a4
    ensures Octal(2, 5, 3, 0, 7, 0, 5, 7, 3, 2, 5) == 0xab1c5ed5
  {
  }

  lemma Octals1()
    ensures Octal(3, 3, 0, 0, 1, 7, 2, 5, 2, 3, 0) == 0xd807aa98
    ensures Octal(0, 2, 2, 4, 0, 6, 5, 5, 4, 0, 1) == 0x12835b01
    ensures Octal(0, 4, 4, 1, 4, 3, 0, 2, 6, 7, 6) == 0x243185be
    ensures Octal(1, 2, 5, 0, 3, 0, 7, 6, 7, 0, 3) == 0x550c7dc3
    ensures Octal(1, 6, 2, 5, 7, 4, 5, 6, 5, 6, 4) == 0x72be5d74
    ensures Octal(2, 0, 0, 6, 7, 5, 3, 0, 7, 7, 6) == 0x80deb1fe
    ensures Octal(2, 3, 3, 6, 7, 0, 0, 3, 2, 4, 7) == 0x9bdc06a7
    ensures Octal(3, 0, 1, 4, 6, 7, 7, 0, 5, 6, 4) == 0xc19bf174
  {
  }

  lemma Octals2()
    ensures Octal(3, 4, 4, 4, 6, 6, 6, 4, 7, 0, 1) == 0xe49b69c1
    ensures Octal(3, 5, 7, 5, 7, 4, 4, 3, 6, 0, 6) == 0xefbe4786
    ensures Octal(0, 1, 7, 6, 0, 3, 1, 6, 7, 0, 6) == 0x0fc19dc6
    ensures Octal(0, 4, 4, 0, 3, 1, 2, 0, 7, 1, 4) == 0x240ca1cc
    ensures Octal(0, 5, 5, 7, 2, 2, 2, 6, 1, 5, 7) == 0x2de92c6f
    ensures Octal(1, 1, 2, 3, 5, 1, 0, 2, 2, 5, 2) == 0x4a7484aa
    ensures Octal(1, 3, 4, 5, 4, 1, 2, 4, 7, 3, 4) == 0x5cb0a9dc
    ensures Octal(1, 6, 6, 7, 6, 3, 0, 4, 3, 3, 2) == 0x76f988da
  {
  }

  lemma Octals3()
    ensures Octal(2, 3, 0, 1, 7, 4, 5, 0, 5, 2, 2) == 0x983e5152
    ensures Octal(2, 5, 0, 1, 4, 3, 4, 3, 1, 5, 5) == 0xa831c66d
    ensures Octal(2, 6, 0, 0, 0, 6, 2, 3, 7, 1, 0) == 0xb00327c8
    ensures Octal(2, 7, 7, 2, 6, 2, 7, 7, 7, 0, 7) == 0xbf597fc7
    ensures Octal(3, 0, 6, 7, 0, 0, 0, 5, 7, 6, 3) == 0xc6e00bf3
    ensures Octal(3, 2, 5, 5, 1, 7, 1, 0, 5, 0, 7) == 0xd5a79147
    ensures Octal(0, 0, 6, 6, 2, 4, 6, 1, 5, 2, 1) == 0x06ca6351
    ensures Octal(0, 2, 4, 1, 2, 2, 2, 4, 5, 4, 7) == 0x14292967
  {
  }

  lemma Octals4()
    ensures Octal(0, 4, 7, 5, 5, 6, 0, 5, 2, 0, 5) == 0x27b70a85
    ensures Octal(0, 5, 6, 0, 6, 6, 2, 0, 4, 7, 0) == 0x2e1b2138
    ensures Octal(1, 1, 5, 1, 3, 0, 6, 6, 7, 7, 4) == 0x4d2c6dfc
    ensures Octal(1, 2, 3, 1, 6, 0, 0, 6, 4, 2, 3) == 0x53380d13
    ensures Octal(1, 4, 5, 0, 2, 4, 7, 1, 5, 2, 4) == 0x650a7354
    ensures Octal(1, 6, 6, 3, 2, 4, 0, 5, 2, 7, 3) == 0x766a0abb
    ensures Octal(2, 0, 1, 6, 0, 5, 4, 4, 4, 5, 6) == 0x81c2c92e
    ensures Octal(2, 2, 2, 3, 4, 4, 2, 6, 2, 0, 5) == 0x92722c85
  {
  }

  lemma Octals5()
    ensures Octal(2, 4, 2, 5, 7, 7, 6, 4, 2, 4, 1) == 0xa2bfe8a1
    ensures Octal(2, 5, 0, 0, 6, 4, 6, 3, 1, 1, 3) == 0xa81a664b
    ensures Octal(3, 0, 2, 2, 2, 7, 0, 5, 5, 6, 0) == 0xc24b8b70
    ensures Octal(3, 0, 7, 3, 3, 0, 5, 0, 6, 4, 3) == 0xc76c51a3
    ensures Octal(3, 2, 1, 4, 4, 5, 6, 4, 0, 3, 1) == 0xd192e819
    ensures Octal(3, 2, 6, 4, 6, 2, 0, 3, 0, 4, 4) == 0xd6990624
    ensures Octal(3, 6, 4, 0, 3, 4, 3, 2, 6, 0, 5) == 0xf40e3585
    ensures Octal(0, 2, 0, 3, 2, 5, 2, 0, 1, 6, 0) == 0x106aa070
  {
  }

  lemma Octals6()
    ensures Octal(0, 3, 1, 5, 1, 1, 4, 0, 4, 2, 6) == 0x19a4c116
    ensures Octal(0, 3, 6, 1, 5, 6, 6, 6, 0, 1, 0) == 0x1e376c08
    ensures Octal(0, 4, 7, 2, 2, 0, 7, 3, 5, 1, 4) == 0x2748774c
    ensures Octal(0, 6, 4, 5, 4, 1, 3, 6, 2, 6, 5) == 0x34b0bcb5
    ensures Octal(0, 7, 1, 0, 7, 0, 0, 6, 2, 6, 3) == 0x391c0cb3
    ensures Octal(1, 1, 6, 6, 6, 1, 2, 5, 1, 1, 2) == 0x4ed8aa4a
    ensures Octal(1, 3, 3, 4, 7, 1, 4, 5, 1, 1, 7) == 0x5b9cca4f
    ensures Octal(1, 5, 0, 1, 3, 4, 6, 7, 7, 6, 3) == 0x682e6ff3
  {
  }

  lemma Octals7()
    ensures Octal(1, 6, 4, 4, 3, 7, 0, 1, 3, 5, 6) == 0x748f82ee
    ensures Octal(1, 7, 0, 5, 1, 2, 6, 1, 5, 5, 7) == 0x78a5636f
    ensures Octal(2, 0, 4, 6, 2, 0, 7, 4, 0, 2, 4) == 0x84c87814
    ensures Octal(2, 1, 4, 6, 1, 6, 0, 1, 0, 1, 0) == 0x8cc70208
    ensures Octal(2, 2, 0, 5, 7, 5, 7, 7, 7, 7, 2) == 0x90befffa
    ensures Octal(2, 4, 4, 2, 4, 0, 6, 6, 3, 5, 3) == 0xa4506ceb
    ensures Octal(2, 7, 6, 7, 6, 3, 2, 1, 7, 6, 7) == 0xbef9a3f7
    ensures Octal(3, 0, 6, 3, 4, 2, 7, 4, 3, 6, 2) == 0xc67178f2
  {
  }

  lemma TablesFit(r: nat, i: nat)
    requires r < 8 && i < 8
    ensures KRow(r)[i] < U32 && H0Row()[i] < U32
  {
  }

  function Constant(t: nat): bv32
    requires t < 64
  {
    TablesAgree(t / 8);
    TablesFit(t / 8, t % 8);
    K256(t / 8)[t % 8] as bv32
  }

  function Initial(i: nat): bv32
    requires i < 8
  {
    TablesAgree(0);
    TablesFit(0, i);
    G256()[i] as bv32
  }

  // They are the constants of the standard.
  lemma ConstantsAgree(t: nat)
    requires t < 64
    ensures Constant(t) == K(t)
  {
    hide K256, KRow;
    TablesAgree(t / 8);
    TablesFit(t / 8, t % 8);
  }

  lemma InitialAgrees(i: nat)
    requires i < 8
    ensures Initial(i) == H0()[i]
  {
    hide K256, KRow, G256, H0Row;
    TablesAgree(0);
    TablesFit(0, i);
  }

  // The macros of the round transformation.

  function S0(x: bv32): bv32 {
    ((x >> 2) | (x << 30)) ^ ((x >> 13) | (x << 19)) ^ ((x >> 22) | (x << 10))
  }

  function S1(x: bv32): bv32 {
    ((x >> 6) | (x << 26)) ^ ((x >> 11) | (x << 21)) ^ ((x >> 25) | (x << 7))
  }

  function G0(x: bv32): bv32 { ((x >> 7) | (x << 25)) ^ ((x >> 18) | (x << 14)) ^ (x >> 3) }

  function G1(x: bv32): bv32 { ((x >> 17) | (x << 15)) ^ ((x >> 19) | (x << 13)) ^ (x >> 10) }

  function Choose(a: bv32, b: bv32, c: bv32): bv32 { c ^ (a & (b ^ c)) }

  function Majority(a: bv32, b: bv32, c: bv32): bv32 { (a & b) | (c & (a ^ b)) }

  function SwapBytes(x: bv32): bv32 {
    (((x >> 24) | (x << 8)) & 0x00ff00ff) | (((x >> 8) | (x << 24)) & 0xff00ff00)
  }

  lemma SigmasAgree(x: bv32)
    ensures S0(x) == BigSigma0(x) && S1(x) == BigSigma1(x)
    ensures G0(x) == SmallSigma0(x) && G1(x) == SmallSigma1(x)
  {
  }

  lemma ChooseAgrees(a: bv32, b: bv32, c: bv32)
    ensures Choose(a, b, c) == Ch(a, b, c)
  {
    ChooseBits(a, b, c);
  }

  lemma ChooseBits(a: bv32, b: bv32, c: bv32)
    ensures c ^ (a & (b ^ c)) == (a & b) ^ (!a & c)
  {
  }

  lemma MajorityAgrees(a: bv32, b: bv32, c: bv32)
    ensures Majority(a, b, c) == Maj(a, b, c)
  {
    MajorityBits(a, b, c);
  }

  lemma MajorityBits(a: bv32, b: bv32, c: bv32)
    ensures (a & b) | (c & (a ^ b)) == (a & b) ^ (a & c) ^ (b & c)
  {
  }

  // The sums of v_cycle and hf, in the order the macros add.

  function Sum2(x: bv32, y: bv32): bv32 { x + y }

  lemma Sum2Adds(x: bv32, y: bv32)
    ensures Sum2(x, y) == Add2(x, y)
  {
  }

  function Sum5(h: bv32, w: bv32, k: bv32, s: bv32, c: bv32): bv32 { h + (w + k + s + c) }

  function Sum4(w: bv32, x: bv32, y: bv32, z: bv32): bv32 { w + (x + y + z) }

  lemma Sum5Order(h: bv32, w: bv32, k: bv32, s: bv32, c: bv32)
    ensures Sum5(h, w, k, s, c) == Add5(h, s, c, k, w)
  {
  }

  lemma Sum4Order(w: bv32, x: bv32, y: bv32, z: bv32)
    ensures Sum4(w, x, y, z) == Add4(x, y, z, w)
  {
  }

  function Mixed1(e: bv32, f: bv32, g: bv32, h: bv32, k: bv32, w: bv32): bv32 {
    Sum5(h, w, k, S1(e), Choose(e, f, g))
  }

  function Mixed2(a: bv32, b: bv32, c: bv32): bv32 { Sum2(S0(a), Majority(a, b, c)) }

  function Fed(w2: bv32, w7: bv32, w15: bv32, w16: bv32): bv32 { Sum4(w16, G1(w2), w7, G0(w15)) }

  lemma Mixed1Agrees(e: bv32, f: bv32, g: bv32, h: bv32, k: bv32, w: bv32)
    ensures Mixed1(e, f, g, h, k, w) == T1(e, f, g, h, k, w)
  {
    hide S1, BigSigma1, Choose, Ch, Sum5, Add5;
    SigmasAgree(e);
    ChooseAgrees(e, f, g);
    Sum5Order(h, w, k, S1(e), Choose(e, f, g));
  }

  lemma Mixed2Agrees(a: bv32, b: bv32, c: bv32)
    ensures Mixed2(a, b, c) == T2(a, b, c)
  {
    hide S0, BigSigma0, Majority, Maj, Sum2, Add2;
    SigmasAgree(a);
    Sum2Adds(S0(a), Majority(a, b, c));
    MajorityAgrees(a, b, c);
  }

  lemma FedAgrees(w2: bv32, w7: bv32, w15: bv32, w16: bv32)
    ensures Fed(w2, w7, w15, w16) == NextWord(w2, w7, w15, w16)
  {
    hide G0, G1, SmallSigma0, SmallSigma1, Sum4, Add4;
    SigmasAgree(w2);
    SigmasAgree(w15);
    Sum4Order(w16, G1(w2), w7, G0(w15));
  }

  // vf(r, t): where working variable r of FIPS 180-4 is kept in round t.
  function Reg(r: int, t: int): (i: nat)
    ensures i < 8
  {
    (r - t) % 8
  }

  lemma RegApart(r: int, q: int, t: int)
    requires 0 <= r < 8 && 0 <= q < 8 && r != q
    ensures Reg(r, t) != Reg(q, t)
  {
    var n := (r - t) / 8;
    var m := (q - t) / 8;
    assert r - t == 8 * n + Reg(r, t) && q - t == 8 * m + Reg(q, t);
  }

  lemma RegMoves(r: int, t: int)
    ensures Reg(r, t + 1) == Reg(r - 1, t) && Reg(0, t + 1) == Reg(7, t)
  {
  }

  predicate Renumbered(v: seq<bv32>, s: seq<bv32>, t: int) {
    && |v| == 8 && |s| == 8
    && forall r | 0 <= r < 8 :: v[Reg(r, t)] == s[r]
  }

  // The variables after v_cycle in round t.
  function Cycled(v: seq<bv32>, t: int, k: bv32, w: bv32): (r: seq<bv32>)
    requires |v| == 8
    ensures |r| == 8
  {
    var a, b, c := v[Reg(0, t)], v[Reg(1, t)], v[Reg(2, t)];
    var e, f, g := v[Reg(4, t)], v[Reg(5, t)], v[Reg(6, t)];
    var h := Mixed1(e, f, g, v[Reg(7, t)], k, w);
    v[Reg(3, t) := Add2(v[Reg(3, t)], h)][Reg(7, t) := Add2(h, Mixed2(a, b, c))]
  }

  lemma CycledRound(v: seq<bv32>, s: seq<bv32>, t: int, k: bv32, w: bv32)
    requires Renumbered(v, s, t)
    ensures Renumbered(Cycled(v, t, k, w), Round(s, k, w), t + 1)
  {
    hide Cycled, Round, Reg;
    forall r | 0 <= r < 8
      ensures Cycled(v, t, k, w)[Reg(r, t + 1)] == Round(s, k, w)[r]
    {
      RegMoves(r, t);
      if r == 0 || r == 4 {
        CycledMixes(v, s, t, k, w);
      } else {
        CycledKeeps(v, s, t, k, w, r);
      }
    }
  }

  lemma CycledMixes(v: seq<bv32>, s: seq<bv32>, t: int, k: bv32, w: bv32)
    requires Renumbered(v, s, t)
    ensures Cycled(v, t, k, w)[Reg(7, t)] == Round(s, k, w)[0]
    ensures Cycled(v, t, k, w)[Reg(3, t)] == Round(s, k, w)[4]
  {
    hide Mixed1, Mixed2, T1, T2, Add2, Reg;
    Mixed1Agrees(s[4], s[5], s[6], s[7], k, w);
    Mixed2Agrees(s[0], s[1], s[2]);
    RegApart(3, 7, t);
  }

  lemma CycledKeeps(v: seq<bv32>, s: seq<bv32>, t: int, k: bv32, w: bv32, r: nat)
    requires Renumbered(v, s, t) && r < 8 && r != 0 && r != 4
    ensures Cycled(v, t, k, w)[Reg(r - 1, t)] == Round(s, k, w)[r]
  {
    hide Mixed1, Mixed2, T1, T2, Add2, Reg;
    RegApart(r - 1, 3, t);
    RegApart(r - 1, 7, t);
  }

  // The three assignments of v_cycle, one after the other.
  lemma CycledInPlace(v0: seq<bv32>, v1: seq<bv32>, v2: seq<bv32>, v3: seq<bv32>, t: int, k: bv32, w: bv32)
    requires |v0| == 8
    requires v1 == v0[Reg(7, t) := Mixed1(v0[Reg(4, t)], v0[Reg(5, t)], v0[Reg(6, t)], v0[Reg(7, t)], k, w)]
    requires v2 == v1[Reg(3, t) := Add2(v1[Reg(3, t)], v1[Reg(7, t)])]
    requires v3 == v2[Reg(7, t) := Add2(v2[Reg(7, t)], Mixed2(v2[Reg(0, t)], v2[Reg(1, t)], v2[Reg(2, t)]))]
    ensures v3 == Cycled(v0, t, k, w)
  {
    hide Mixed1, Mixed2, Add2, Reg;
    RegApart(3, 7, t);
    RegApart(0, 3, t);
    RegApart(0, 7, t);
    RegApart(1, 3, t);
    RegApart(1, 7, t);
    RegApart(2, 3, t);
    RegApart(2, 7, t);
  }

  // The registers come back to their places every eight rounds.
  lemma SameCycle(v: seq<bv32>, m: nat, n: nat, k: bv32, w: bv32)
    requires |v| == 8 && n % 16 == 0
    ensures Cycled(v, m + n, k, w) == Cycled(v, m, k, w)
  {
    hide Mixed1, Mixed2, Add2, Reg;
    SameReg(0, m, n);
    SameReg(1, m, n);
    SameReg(2, m, n);
    SameReg(3, m, n);
    SameReg(4, m, n);
    SameReg(5, m, n);
    SameReg(6, m, n);
    SameReg(7, m, n);
  }

  lemma SameReg(r: int, m: nat, n: nat)
    requires n % 16 == 0
    ensures Reg(r, m + n) == Reg(r, m)
  {
    var q := n / 16;
    var a := (r - m) / 8;
    assert r - m == 8 * a + Reg(r, m);
    assert r - (m + n) == 8 * (a - 2 * q) + Reg(r, m);
  }

  // The slot of schedule word x.
  function Slot(x: int): (i: nat)
    ensures i < 16
  {
    x % 16
  }

  lemma SlotApart(x: int, y: int)
    requires x < y < x + 16
    ensures Slot(x) != Slot(y)
  {
    var n := x / 16;
    var m := y / 16;
    assert x == 16 * n + Slot(x) && y == 16 * m + Slot(y);
  }

  // The buffer holds the sixteen schedule words before word t.
  predicate Window(p: seq<bv32>, block: seq<bv32>, t: nat) {
    && |p| == 16 && |block| == 16 && 16 <= t
    && forall x | t - 16 <= x < t :: p[Slot(x)] == Schedule(block, x)
  }

  // The buffer after hf(t): the word of sixteen rounds ago makes way for word t.
  function Extended(p: seq<bv32>, t: nat): (r: seq<bv32>)
    requires |p| == 16
    ensures |r| == 16
  {
    p[Slot(t) := Fed(p[Slot(t + 14)], p[Slot(t + 9)], p[Slot(t + 1)], p[Slot(t)])]
  }

  lemma SameSlots(m: nat, n: nat)
    requires m < 16 && n % 16 == 0
    ensures Slot(m + n) == m && Slot(m + n + 14) == Slot(m + 14)
    ensures Slot(m + n + 9) == Slot(m + 9) && Slot(m + n + 1) == Slot(m + 1)
  {
    assert n == 16 * (n / 16);
  }

  lemma SlotWraps(x: int)
    ensures Slot(x) == Slot(x - 16)
  {
  }

  lemma ExtendedWindow(p: seq<bv32>, block: seq<bv32>, t: nat)
    requires Window(p, block, t)
    ensures Window(Extended(p, t), block, t + 1)
  {
    hide Fed, NextWord, Slot;
    SlotWraps(t);
    SlotWraps(t + 14);
    SlotWraps(t + 9);
    SlotWraps(t + 1);
    FedAgrees(Schedule(block, t - 2), Schedule(block, t - 7), Schedule(block, t - 15), Schedule(block, t - 16));
    assert Extended(p, t)[Slot(t)] == Schedule(block, t);
    forall x | t + 1 - 16 <= x < t
      ensures Extended(p, t)[Slot(x)] == Schedule(block, x)
    {
      SlotApart(x, t);
    }
  }

  // The buffer before round t: the block as it came, then the sliding window.
  predicate InStep(p: seq<bv32>, block: seq<bv32>, t: nat) {
    && |p| == 16 && |block| == 16
    && if t < 16 then p == block else Window(p, block, t)
  }

  lemma StartAligned(h: seq<bv32>, block: seq<bv32>)
    requires |h| == 8 && |block| == 16
    ensures Renumbered(h, Rounds(h, block, 0), 0) && InStep(block, block, 0)
  {
    hide Round;
    forall r | 0 <= r < 8
      ensures h[Reg(r, 0)] == h[r]
    {
      assert Reg(r, 0) == r;
    }
  }

  lemma AlignedAgain(v: seq<bv32>, s: seq<bv32>)
    requires Renumbered(v, s, 64)
    ensures v == s
  {
    forall r | 0 <= r < 8
      ensures v[r] == s[r]
    {
      assert Reg(r, 64) == r;
    }
  }

  // The word that round i + m takes from the buffer is W_{i + m}.
  lemma InStepNext(p: seq<bv32>, q: seq<bv32>, block: seq<bv32>, i: nat, m: nat)
    requires m < 16 && i % 16 == 0 && InStep(p, block, i + m)
    requires q == if i == 0 then p else Extended(p, m + i)
    ensures InStep(q, block, i + m + 1) && q[m] == Schedule(block, i + m)
  {
    hide Extended, Window, Slot;
    SameSlots(m, i);
    if i != 0 {
      ExtendedWindow(p, block, i + m);
      LastWord(q, block, i + m + 1);
    } else if m == 15 {
      FullWindow(block);
    }
  }

  lemma LastWord(p: seq<bv32>, block: seq<bv32>, t: nat)
    requires Window(p, block, t)
    ensures p[Slot(t - 1)] == Schedule(block, t - 1)
  {
    hide Slot, Schedule;
  }

  lemma FullWindow(block: seq<bv32>)
    requires |block| == 16
    ensures Window(block, block, 16)
  {
  }

  // Byte j of the buffer, in the little-endian order of memory.
  function Byte(p: seq<bv32>, j: nat): bv8
    requires j < 4 * |p|
  {
    Lane(p[j / 4], j % 4)
  }

  function Lane(w: bv32, k: nat): bv8
    requires k < 4
  {
    if k == 0 then (w & 0xff) as bv8
    else if k == 1 then ((w >> 8) & 0xff) as bv8
    else if k == 2 then ((w >> 16) & 0xff) as bv8
    else (w >> 24) as bv8
  }

  // Storing one byte of a word.
  function SetLane(w: bv32, k: nat, b: bv8): bv32
    requires k < 4
  {
    BigEndian(if k == 3 then b else Lane(w, 3), if k == 2 then b else Lane(w, 2),
              if k == 1 then b else Lane(w, 1), if k == 0 then b else Lane(w, 0))
  }

  lemma BigEndianReads(b0: bv8, b1: bv8, b2: bv8, b3: bv8)
    ensures Lane(BigEndian(b0, b1, b2, b3), 0) == b3 && Lane(BigEndian(b0, b1, b2, b3), 1) == b2
    ensures Lane(BigEndian(b0, b1, b2, b3), 2) == b1 && Lane(BigEndian(b0, b1, b2, b3), 3) == b0
  {
  }

  lemma SetLaneReads(w: bv32, k: nat, b: bv8, j: nat)
    requires k < 4 && j < 4
    ensures Lane(SetLane(w, k, b), j) == if j == k then b else Lane(w, j)
  {
    hide Lane, BigEndian;
    BigEndianReads(if k == 3 then b else Lane(w, 3), if k == 2 then b else Lane(w, 2),
                   if k == 1 then b else Lane(w, 1), if k == 0 then b else Lane(w, 0));
  }

  lemma SwapReads(w: bv32)
    ensures SwapBytes(w) == BigEndian(Lane(w, 0), Lane(w, 1), Lane(w, 2), Lane(w, 3))
  {
  }

  // The word with its first n bytes, the padding bit after them and zeros below.
  function Masked(x: bv32, n: nat): bv32
    requires n < 4
  {
    if n == 0 then (x & 0x80000000) | 0x80000000
    else if n == 1 then (x & 0xff800000) | 0x00800000
    else if n == 2 then (x & 0xffff8000) | 0x00008000
    else (x & 0xffffff80) | 0x00000080
  }

  lemma Masked1(b0: bv8, b1: bv8, b2: bv8, b3: bv8)
    ensures Masked(BigEndian(b0, b1, b2, b3), 1) == BigEndian(b0, 0x80, 0, 0)
  {
  }

  lemma Masked2(b0: bv8, b1: bv8, b2: bv8, b3: bv8)
    ensures Masked(BigEndian(b0, b1, b2, b3), 2) == BigEndian(b0, b1, 0x80, 0)
  {
  }

  lemma Masked3(b0: bv8, b1: bv8, b2: bv8, b3: bv8)
    ensures Masked(BigEndian(b0, b1, b2, b3), 3) == BigEndian(b0, b1, b2, 0x80)
  {
  }

  lemma Masked0(x: bv32)
    ensures Masked(x, 0) == BigEndian(0x80, 0, 0, 0)
  {
  }

  // The digest of the whole blocks of msg is in h and its last bytes are in p.
  ghost predicate Holds(h: seq<bv32>, p: seq<bv32>, msg: seq<bv8>) {
    var n := |msg| / 64;
    && |h| == 8 && |p| == 16
    && h == HashBlocks(Words(msg), n)
    && forall j | 0 <= j < |msg| % 64 :: Byte(p, j) == msg[64 * n + j]
  }

  lemma {:induction false} HashPrefix(w: seq<bv32>, u: seq<bv32>, n: nat)
    requires 16 * n <= |w| && 16 * n <= |u| && w[..16 * n] == u[..16 * n]
    ensures HashBlocks(w, n) == HashBlocks(u, n)
  {
    hide Compress;
    if n > 0 {
      assert w[..16 * (n - 1)] == w[..16 * n][..16 * (n - 1)] == u[..16 * (n - 1)];
      HashPrefix(w, u, n - 1);
      assert w[16 * (n - 1)..16 * n] == w[..16 * n][16 * (n - 1)..] == u[16 * (n - 1)..16 * n];
    }
  }

  // Words of a longer message agree on the whole words of its beginning.
  lemma WordsPrefix(a: seq<bv8>, b: seq<bv8>, n: nat)
    requires 4 * n <= |a| && 4 * n <= |b| && a[..4 * n] == b[..4 * n]
    ensures Words(a)[..n] == Words(b)[..n]
  {
    hide BigEndian;
    assert forall j | 0 <= j < 4 * n :: a[j] == a[..4 * n][j] && b[j] == b[..4 * n][j];
    forall i | 0 <= i < n
      ensures Words(a)[i] == Words(b)[i]
    {
    }
  }

  // q holds the bytes of p with the bytes of chunk from pos on.
  predicate Copied(p: seq<bv32>, q: seq<bv32>, pos: nat, chunk: seq<bv8>) {
    && |p| == 16 && |q| == 16 && pos + |chunk| <= 64
    && forall j | 0 <= j < 64 ::
         Byte(q, j) == if pos <= j < pos + |chunk| then chunk[j - pos] else Byte(p, j)
  }

  predicate Swapped(p: seq<bv32>, q: seq<bv32>, n: nat) {
    && |p| == 16 && |q| == 16
    && forall k | 0 <= k < 16 :: q[k] == if k < n then SwapBytes(p[k]) else p[k]
  }

  lemma PutByte(p: seq<bv32>, q: seq<bv32>, pos: nat, data: seq<bv8>, from: nat, i: nat)
    requires from + i < |data| && pos + i < 64 && Copied(p, q, pos, data[from..from + i])
    ensures var k := (pos + i) / 4;
            Copied(p, q[k := SetLane(q[k], (pos + i) % 4, data[from + i])], pos, data[from..from + i + 1])
  {
    hide SetLane, Lane;
    var k, l := (pos + i) / 4, (pos + i) % 4;
    var r := q[k := SetLane(q[k], l, data[from + i])];
    forall j | 0 <= j < 64
      ensures Byte(r, j) == if j == pos + i then data[from + i] else Byte(q, j)
    {
      if j / 4 == k {
        SetLaneReads(q[k], l, data[from + i], j % 4);
      }
    }
  }

  lemma CopiedNone(p: seq<bv32>, pos: nat, none: seq<bv8>)
    requires |p| == 16 && pos <= 64 && none == []
    ensures Copied(p, p, pos, none)
  {
  }

  lemma CountModulo(n: nat, count0: nat, len: nat)
    requires count0 == n % U32
    ensures count0 % 64 == n % 64 && (count0 + len) % U32 == (n + len) % U32
  {
    var q := n / U32;
    assert n == q * U32 + count0;
    assert n + len - (count0 + len) == q * U32;
  }

  // The carry test of Sha256_upd.
  function Carry(count0: nat, len: nat): nat { if (count0 + len) % U32 < len then 1 else 0 }

  // When adding one on the carry test gives the high word of the new count.
  lemma CountCarry(n: nat, count0: nat, len: nat)
    requires count0 == n % U32 && len < U32 * U32
    ensures (n / U32 % U32 + Carry(count0, len)) % U32 == (n + len) / U32 % U32 <==>
            len < U32 || count0 + len < 2 * U32
  {
    var q, d := n / U32, (count0 + len) / U32;
    CarryBound(n, count0, len);
    assert 0 <= d <= U32;
    SameHigh(q, Carry(count0, len), d);
  }

  lemma CarryTest(count0: nat, len: nat)
    ensures Carry(count0, len) == if (count0 + len) % U32 < len then 1 else 0
  {
  }

  // The test never adds more than it should.
  lemma CarryBound(n: nat, count0: nat, len: nat)
    requires count0 == n % U32
    ensures (n + len) / U32 == n / U32 + (count0 + len) / U32 && Carry(count0, len) <= (count0 + len) / U32
    ensures Carry(count0, len) == (count0 + len) / U32 <==> len < U32 || count0 + len < 2 * U32
  {
    var q := n / U32;
    assert n + len == q * U32 + (count0 + len);
    HighWord(q, count0 + len);
  }

  lemma HighWord(q: nat, x: nat)
    ensures (q * U32 + x) / U32 == q + x / U32
  {
  }

  lemma SameHigh(q: nat, c: nat, d: nat)
    requires c <= 1 && d <= U32
    ensures (q % U32 + c) % U32 == (q + d) % U32 <==> c == d || (c == 0 && d == U32)
  {
    var m := q / U32;
    assert q == m * U32 + q % U32;
  }

  lemma PieceJoined(msg: seq<bv8>, data: seq<bv8>, a: nat, b: nat)
    requires a <= b <= |data|
    ensures msg + data[..a] + data[a..b] == msg + data[..b] && data[..|data|] == data
    ensures |msg + data[..b]| == |msg| + b
  {
    assert data[..a] + data[a..b] == data[..b];
  }

  // Nothing pending is asked of the buffer after a whole block.
  lemma WholeHolds(h: seq<bv32>, p: seq<bv32>, msg: seq<bv8>)
    requires |p| == 16 && |msg| % 64 == 0 && h == HashBlocks(Words(msg), |msg| / 64)
    ensures Holds(h, p, msg)
  {
  }

  lemma CopiedHolds(h: seq<bv32>, p: seq<bv32>, q: seq<bv32>, msg: seq<bv8>, chunk: seq<bv8>)
    requires Holds(h, p, msg) && Copied(p, q, |msg| % 64, chunk) && |msg| % 64 + |chunk| < 64
    ensures Holds(h, q, msg + chunk)
  {
    hide HashBlocks, Byte;
    var n := |msg| / 64;
    assert |msg + chunk| / 64 == n;
    assert msg[..4 * (16 * n)] == (msg + chunk)[..4 * (16 * n)];
    WordsPrefix(msg, msg + chunk, 16 * n);
    HashPrefix(Words(msg), Words(msg + chunk), n);
  }

  // Word k of the buffer, once its bytes are swapped.
  lemma SwappedWord(p: seq<bv32>, k: nat)
    requires |p| == 16 && k < 16
    ensures SwapBytes(p[k]) == BigEndian(Byte(p, 4 * k), Byte(p, 4 * k + 1), Byte(p, 4 * k + 2), Byte(p, 4 * k + 3))
  {
    hide Lane, BigEndian, SwapBytes;
    SwapReads(p[k]);
  }

  lemma BlockHolds(h: seq<bv32>, p: seq<bv32>, q: seq<bv32>, r: seq<bv32>, msg: seq<bv8>, chunk: seq<bv8>)
    requires Holds(h, p, msg) && Copied(p, q, |msg| % 64, chunk) && |msg| % 64 + |chunk| == 64
    requires Swapped(q, r, 16)
    ensures Compress(h, r) == HashBlocks(Words(msg + chunk), |msg + chunk| / 64)
    ensures |msg + chunk| % 64 == 0
  {
    hide HashBlocks, Compress, Byte, SwapBytes, Copied, Swapped, Words;
    var n := |msg| / 64;
    var all := msg + chunk;
    assert |all| == 64 * (n + 1);
    assert msg[..4 * (16 * n)] == all[..4 * (16 * n)];
    WordsPrefix(msg, all, 16 * n);
    HashPrefix(Words(msg), Words(all), n);
    BlockWords(h, p, q, r, msg, chunk);
    HashStep(Words(all), n + 1);
  }

  lemma BlockWords(h: seq<bv32>, p: seq<bv32>, q: seq<bv32>, r: seq<bv32>, msg: seq<bv8>, chunk: seq<bv8>)
    requires Holds(h, p, msg) && Copied(p, q, |msg| % 64, chunk) && |msg| % 64 + |chunk| == 64
    requires Swapped(q, r, 16)
    ensures var n := |msg| / 64;
            16 * (n + 1) <= |Words(msg + chunk)| && Words(msg + chunk)[16 * n..16 * (n + 1)] == r
  {
    hide HashBlocks, Byte, BigEndian, SwapBytes;
    var n := |msg| / 64;
    var all := msg + chunk;
    assert |all| == 64 * (n + 1);
    BlockBytes(h, p, q, msg, chunk);
    forall k | 0 <= k < 16
      ensures Words(all)[16 * n + k] == r[k]
    {
      SwappedWord(q, k);
      assert forall j | 4 * k <= j < 4 * k + 4 :: Byte(q, j) == all[64 * n + j];
    }
  }

  lemma BlockBytes(h: seq<bv32>, p: seq<bv32>, q: seq<bv32>, msg: seq<bv8>, chunk: seq<bv8>)
    requires Holds(h, p, msg) && Copied(p, q, |msg| % 64, chunk) && |msg| % 64 + |chunk| == 64
    ensures |msg + chunk| == 64 * (|msg| / 64 + 1)
    ensures forall j | 0 <= j < 64 :: Byte(q, j) == (msg + chunk)[64 * (|msg| / 64) + j]
  {
    hide HashBlocks, Byte;
  }

  lemma HashStep(w: seq<bv32>, n: nat)
    requires 0 < n && 16 * n <= |w|
    ensures HashBlocks(w, n) == Compress(HashBlocks(w, n - 1), w[16 * (n - 1)..16 * n])
  {
  }

  // Byte j of the padded message.
  function PadByte(msg: seq<bv8>, j: nat): bv8 {
    if j < |msg| then msg[j] else if j == |msg| then 0x80 else 0
  }

  lemma PaddedAt(msg: seq<bv8>, k: nat)
    requires 4 * k < |PaddedBytes(msg)|
    ensures k < |Padded(msg)|
    ensures Padded(msg)[k] == BigEndian(PadByte(msg, 4 * k), PadByte(msg, 4 * k + 1),
                                        PadByte(msg, 4 * k + 2), PadByte(msg, 4 * k + 3))
  {
    hide BigEndian;
    assert forall j | 0 <= j < |PaddedBytes(msg)| :: PaddedBytes(msg)[j] == PadByte(msg, j);
  }

  // The buffer agrees with block n of the padded message on words from to upto - 1.
  predicate Filled(p: seq<bv32>, msg: seq<bv8>, n: nat, from: nat, upto: nat) {
    && |p| == 16 && upto <= 16 && 16 * n + 16 <= |Padded(msg)|
    && forall k | from <= k < upto :: p[k] == Padded(msg)[16 * n + k]
  }

  lemma PaddedLength(msg: seq<bv8>)
    ensures |Padded(msg)| == 16 * (|msg| / 64 + if |msg| % 64 > 55 then 2 else 1)
    ensures |PaddedBytes(msg)| == 4 * (|Padded(msg)| - 2)
  {
    var i, n := |msg| % 64, |msg| / 64;
    assert (|msg| + 8) / 64 == n + if i > 55 then 1 else 0;
  }

  // Byte j of the block that is open when msg ends.
  lemma OpenByte(h: seq<bv32>, p: seq<bv32>, msg: seq<bv8>, j: nat)
    requires Holds(h, p, msg) && j < 64
    ensures PadByte(msg, 64 * (|msg| / 64) + j) ==
            if j < |msg| % 64 then Byte(p, j) else if j == |msg| % 64 then 0x80 else 0
  {
    hide HashBlocks, Byte;
  }

  lemma OpenWord(h: seq<bv32>, p: seq<bv32>, msg: seq<bv8>, k: nat)
    requires Holds(h, p, msg) && k < 16
    requires 16 * (|msg| / 64) + k + 2 < |Padded(msg)|
    ensures var i := |msg| % 64 - 4 * k;
            Padded(msg)[16 * (|msg| / 64) + k] == BigEndian(
              if i > 0 then Byte(p, 4 * k) else if i == 0 then 0x80 else 0,
              if i > 1 then Byte(p, 4 * k + 1) else if i == 1 then 0x80 else 0,
              if i > 2 then Byte(p, 4 * k + 2) else if i == 2 then 0x80 else 0,
              if i > 3 then Byte(p, 4 * k + 3) else if i == 3 then 0x80 else 0)
  {
    hide Byte, BigEndian, Padded, PaddedBytes, PadByte, Holds;
    PaddedLength(msg);
    PaddedAt(msg, 16 * (|msg| / 64) + k);
    OpenByte(h, p, msg, 4 * k);
    OpenByte(h, p, msg, 4 * k + 1);
    OpenByte(h, p, msg, 4 * k + 2);
    OpenByte(h, p, msg, 4 * k + 3);
  }

  lemma MessageWord(h: seq<bv32>, p: seq<bv32>, msg: seq<bv8>, k: nat)
    requires Holds(h, p, msg) && 4 * k + 4 <= |msg| % 64
    ensures 16 * (|msg| / 64) + k < |Padded(msg)|
    ensures SwapBytes(p[k]) == Padded(msg)[16 * (|msg| / 64) + k]
  {
    hide Byte, BigEndian, SwapBytes, Padded, HashBlocks;
    PaddedLength(msg);
    SwappedWord(p, k);
    OpenWord(h, p, msg, k);
  }

  lemma MarkedWord(h: seq<bv32>, p: seq<bv32>, msg: seq<bv8>, x: bv32)
    requires Holds(h, p, msg)
    requires |msg| % 64 % 4 != 0 ==> x == SwapBytes(p[|msg| % 64 / 4])
    ensures 16 * (|msg| / 64) + |msg| % 64 / 4 < |Padded(msg)|
    ensures Masked(x, |msg| % 64 % 4) == Padded(msg)[16 * (|msg| / 64) + |msg| % 64 / 4]
  {
    hide Byte, BigEndian, SwapBytes, Padded, HashBlocks, Masked;
    var i := |msg| % 64;
    var k := i / 4;
    PaddedLength(msg);
    SwappedWord(p, k);
    OpenWord(h, p, msg, k);
    var b0, b1, b2, b3 := Byte(p, 4 * k), Byte(p, 4 * k + 1), Byte(p, 4 * k + 2), Byte(p, 4 * k + 3);
    if i % 4 == 0 {
      Masked0(x);
    } else if i % 4 == 1 {
      Masked1(b0, b1, b2, b3);
    } else if i % 4 == 2 {
      Masked2(b0, b1, b2, b3);
    } else {
      Masked3(b0, b1, b2, b3);
    }
  }

  // The words up to the one with the padding bit.
  lemma MarkedFilled(h: seq<bv32>, p: seq<bv32>, q: seq<bv32>, r: seq<bv32>, msg: seq<bv8>)
    requires Holds(h, p, msg) && Swapped(p, q, (|msg| % 64 + 3) / 4)
    requires r == q[|msg| % 64 / 4 := Masked(q[|msg| % 64 / 4], |msg| % 64 % 4)]
    ensures Filled(r, msg, |msg| / 64, 0, |msg| % 64 / 4 + 1)
  {
    hide SwapBytes, Padded, Masked, Holds;
    var n, i := |msg| / 64, |msg| % 64;
    PaddedLength(msg);
    forall k | 0 <= k < i / 4 + 1
      ensures r[k] == Padded(msg)[16 * n + k]
    {
      if k < i / 4 {
        MessageWord(h, p, msg, k);
      } else {
        MarkedWord(h, p, msg, q[k]);
      }
    }
  }

  lemma ZeroWord(msg: seq<bv8>, k: nat)
    requires |msg| < 4 * k && k + 2 < |Padded(msg)|
    ensures Padded(msg)[k] == 0
  {
    hide Padded, PaddedBytes;
    PaddedLength(msg);
    PaddedAt(msg, k);
  }

  // The whole blocks of the message are the first blocks of the padded message.
  lemma PaddedPrefix(h: seq<bv32>, p: seq<bv32>, msg: seq<bv8>)
    requires Holds(h, p, msg)
    ensures 16 * (|msg| / 64) <= |Padded(msg)|
    ensures h == HashBlocks(Padded(msg), |msg| / 64)
  {
    hide HashBlocks, Byte;
    var n := |msg| / 64;
    var b := PaddedBytes(msg);
    assert msg[..4 * (16 * n)] == b[..4 * (16 * n)];
    WordsPrefix(msg, b, 16 * n);
    assert Padded(msg)[..16 * n] == Words(b)[..16 * n];
    HashPrefix(Words(msg), Padded(msg), n);
  }

  lemma FilledHash(h: seq<bv32>, p: seq<bv32>, msg: seq<bv8>, b: nat)
    requires Filled(p, msg, b, 0, 16) && h == HashBlocks(Padded(msg), b)
    ensures Compress(h, p) == HashBlocks(Padded(msg), b + 1)
  {
    hide HashBlocks, Compress, Padded;
    assert p == Padded(msg)[16 * b..16 * (b + 1)];
    HashStep(Padded(msg), b + 1);
  }

  // Word k of block b lies between the padding bit and the length.
  lemma FilledZero(p: seq<bv32>, q: seq<bv32>, msg: seq<bv8>, b: nat, k: nat)
    requires Filled(p, msg, b, 0, k) && k < 16 && q == p[k := 0]
    requires |msg| < 4 * (16 * b + k) && 16 * b + k + 2 < |Padded(msg)|
    ensures Filled(q, msg, b, 0, k + 1)
  {
    hide Padded;
    ZeroWord(msg, 16 * b + k);
  }

  lemma FilledNone(p: seq<bv32>, msg: seq<bv8>, b: nat)
    requires |p| == 16 && 16 * b + 16 <= |Padded(msg)|
    ensures Filled(p, msg, b, 0, 0)
  {
  }

  // The two shifted counts are the two words of the length in bits.
  // The two words of the length as the code stores them.

  function LengthHigh(count0: nat, count1: nat): bv32
    requires count0 < U32
  {
    (count1 * 8 % U32 + count0 / 0x2000_0000) as bv32
  }

  function LengthLow(count0: nat): bv32 { (count0 * 8 % U32) as bv32 }

  lemma LengthFits(count0: nat, count1: nat)
    requires count0 < U32
    ensures LengthHigh(count0, count1) == WordOf(count1 * 8 % U32 + count0 / 0x2000_0000)
    ensures LengthLow(count0) == WordOf(count0 * 8)
  {
  }

  lemma LengthWords(count0: nat, count1: nat)
    requires count0 < U32
    ensures var bits := 8 * (count1 * U32 + count0);
            && WordOf(count1 * 8 % U32 + count0 / 0x2000_0000) == WordOf(bits / U32)
            && WordOf(count0 * 8) == WordOf(bits)
  {
    hide WordOf;
    var bits := 8 * (count1 * U32 + count0);
    LowBits(bits, 8 * count0, 8 * count1);
    HighWord(8 * count1, 8 * count0);
    assert 8 * count0 / U32 == count0 / 0x2000_0000;
    var m := count1 * 8 / U32;
    assert count1 * 8 == m * U32 + count1 * 8 % U32;
    LowBits(bits / U32, count1 * 8 % U32 + count0 / 0x2000_0000, m);
  }

  // Zeros and counts in the open block complete it, whatever the counts are.
  lemma CountsHash(h: seq<bv32>, p: seq<bv32>, msg: seq<bv8>, b: nat, bits: nat)
    requires |Padded(msg)| == 16 * (b + 1) && Filled(p, msg, b, 0, 14) && h == HashBlocks(Padded(msg), b)
    requires p[14] == WordOf(bits / U32) && p[15] == WordOf(bits)
    ensures |PaddedWith(msg, bits)| == 16 * (b + 1)
    ensures Compress(h, p) == HashBlocks(PaddedWith(msg, bits), b + 1)
  {
    hide HashBlocks, Compress, WordOf, Words, PaddedBytes;
    var w, u := Padded(msg), PaddedWith(msg, bits);
    assert w[..16 * b] == u[..16 * b];
    HashPrefix(w, u, b);
    assert p == u[16 * b..16 * (b + 1)];
    HashStep(u, b + 1);
  }

  lemma LowBits(bits: nat, low: nat, high: nat)
    requires bits == high * U32 + low
    ensures WordOf(bits) == WordOf(low)
  {
    hide WordOf;
    assert bits - low == high * U32;
    SameWord(bits, low);
  }

  lemma SameWord(a: nat, b: nat)
    requires (a - b) % U32 == 0
    ensures WordOf(a) == WordOf(b)
  {
    assert a % U32 == b % U32;
  }

  // SHA256_CTX.
  lemma HoldsNothing(h: seq<bv32>, p: seq<bv32>)
    requires h == H0() && |p| == 16
    ensures Holds(h, p, [])
  {
    hide H0;
  }

  class Context {
    var count0: nat
    var count1: nat
    const hash: array<bv32>
    const wbuf: array<bv32>
    // The message so far.
    ghost var msg: seq<bv8>

    ghost predicate Sized()
      reads this
    {
      hash.Length == 8 && wbuf.Length == 16 && hash != wbuf && count0 < U32 && count1 < U32
    }

    // Everything but the high word of the count.
    ghost predicate Absorbed()
      reads this, hash, wbuf
    {
      Sized() && count0 == |msg| % U32 && Holds(hash[..], wbuf[..], msg)
    }

    ghost predicate Counted()
      reads this
    {
      count1 == |msg| / U32 % U32
    }

    constructor ()
      ensures Sized() && fresh(hash) && fresh(wbuf)
    {
      count0, count1 := 0, 0;
      hash := new bv32[8];
      wbuf := new bv32[16];
      msg := [];
    }

    method Set()
      requires Sized()
      modifies this, hash
      ensures Absorbed() && Counted() && msg == []
    {
      hide H0, Initial, Holds;
      count0, count1 := 0, 0;
      for i := 0 to 8
        invariant Sized() && count0 == 0 && count1 == 0
        invariant forall k | 0 <= k < i :: hash[k] == H0()[k]
      {
        InitialAgrees(i);
        hash[i] := Initial(i);
      }
      msg := [];
      assert hash[..] == H0();
      HoldsNothing(hash[..], wbuf[..]);
    }

    // v_cycle(m, n)
    method Cycle(v: array<bv32>, m: nat, n: nat)
      requires Sized() && v.Length == 8 && v != hash && v != wbuf && m < 16 && n % 16 == 0 && m + n < 64
      modifies v, wbuf
      ensures wbuf[..] == if n == 0 then old(wbuf[..]) else Extended(old(wbuf[..]), m + n)
      ensures v[..] == Cycled(old(v[..]), m + n, K(m + n), wbuf[m])
    {
      hide Mixed1, Mixed2, Fed, Sum2, Add2, Cycled, Reg, Slot, K, Constant;
      SameSlots(m, n);
      ConstantsAgree(m + n);
      if n != 0 {
        wbuf[m] := Fed(wbuf[Slot(m + 14)], wbuf[Slot(m + 9)], wbuf[Slot(m + 1)], wbuf[m]);
      }
      ghost var v0 := v[..];
      v[Reg(7, m)] := Mixed1(v[Reg(4, m)], v[Reg(5, m)], v[Reg(6, m)], v[Reg(7, m)], Constant(m + n), wbuf[m]);
      ghost var v1 := v[..];
      Sum2Adds(v[Reg(3, m)], v[Reg(7, m)]);
      v[Reg(3, m)] := Sum2(v[Reg(3, m)], v[Reg(7, m)]);
      ghost var v2 := v[..];
      Sum2Adds(v[Reg(7, m)], Mixed2(v[Reg(0, m)], v[Reg(1, m)], v[Reg(2, m)]));
      v[Reg(7, m)] := Sum2(v[Reg(7, m)], Mixed2(v[Reg(0, m)], v[Reg(1, m)], v[Reg(2, m)]));
      CycledInPlace(v0, v1, v2, v[..], m, K(m + n), wbuf[m]);
      SameCycle(v0, m, n, K(m + n), wbuf[m]);
    }

    // The 64 rounds of Sha256_compile__.
    method Mix(v: array<bv32>)
      requires Sized() && v.Length == 8 && v != hash && v != wbuf && v[..] == hash[..]
      modifies v, wbuf
      ensures v[..] == Rounds(hash[..], old(wbuf[..]), 64)
    {
      hide Round, Schedule, Cycled, Extended, Renumbered, Window, InStep, K;
      ghost var h, block := hash[..], wbuf[..];
      StartAligned(h, block);
      var i := 0;
      while i < 64
        invariant 0 <= i <= 64 && i % 16 == 0
        invariant Renumbered(v[..], Rounds(h, block, i), i) && InStep(wbuf[..], block, i)
      {
        for m := 0 to 16
          invariant Renumbered(v[..], Rounds(h, block, i + m), i + m) && InStep(wbuf[..], block, i + m)
        {
          ghost var p, u := wbuf[..], v[..];
          Cycle(v, m, i);
          InStepNext(p, wbuf[..], block, i, m);
          CycledRound(u, Rounds(h, block, i + m), i + m, K(i + m), wbuf[m]);
        }
        i := i + 16;
      }
      AlignedAgain(v[..], Rounds(h, block, 64));
    }

    // Sha256_compile__
    method Compile()
      requires Sized()
      modifies hash, wbuf
      ensures hash[..] == Compress(old(hash[..]), old(wbuf[..]))
    {
      hide Rounds, Sum2, Add2;
      ghost var h, block := hash[..], wbuf[..];
      var v := new bv32[8](i requires 0 <= i < hash.Length reads hash => hash[i]);
      assert v[..] == h;
      Mix(v);
      for r := 0 to 8
        invariant v[..] == Rounds(h, block, 64)
        invariant forall k | 0 <= k < 8 :: hash[k] == if k < r then Add2(h[k], v[k]) else h[k]
      {
        Sum2Adds(hash[r], v[r]);
        hash[r] := Sum2(hash[r], v[r]);
      }
    }

    // MEMCPY_S into the bytes of wbuf from pos on.
    method CopyIn(pos: nat, data: seq<bv8>, from: nat, n: nat)
      requires Sized() && pos + n <= 64 && from + n <= |data|
      modifies wbuf
      ensures Copied(old(wbuf[..]), wbuf[..], pos, data[from..from + n])
    {
      hide SetLane, Copied;
      ghost var p := wbuf[..];
      CopiedNone(p, pos, data[from..from]);
      for i := 0 to n
        invariant Copied(p, wbuf[..], pos, data[from..from + i])
      {
        PutByte(p, wbuf[..], pos, data, from, i);
        var k := (pos + i) / 4;
        wbuf[k] := SetLane(wbuf[k], (pos + i) % 4, data[from + i]);
      }
    }

    // bsw_32(wbuf, n)
    method Swap(n: nat)
      requires Sized() && n <= 16
      modifies wbuf
      ensures Swapped(old(wbuf[..]), wbuf[..], n)
    {
      hide SwapBytes;
      ghost var p := wbuf[..];
      var i := n;
      while i > 0
        invariant 0 <= i <= n
        invariant forall k | 0 <= k < 16 :: wbuf[k] == if i <= k < n then SwapBytes(p[k]) else p[k]
      {
        i := i - 1;
        wbuf[i] := SwapBytes(wbuf[i]);
      }
    }

    // One pass of the loop of Sha256_upd.
    method AbsorbBlock(pos: nat, data: seq<bv8>, from: nat, n: nat, ghost seen: seq<bv8>)
      requires Sized() && Holds(hash[..], wbuf[..], seen) && pos == |seen| % 64
      requires pos + n == 64 && from + n <= |data|
      modifies hash, wbuf
      ensures Holds(hash[..], wbuf[..], seen + data[from..from + n])
    {
      hide Holds, Copied, Swapped, Compress, HashBlocks;
      ghost var h, p := hash[..], wbuf[..];
      CopyIn(pos, data, from, n);
      ghost var q := wbuf[..];
      Swap(16);
      BlockHolds(h, p, q, wbuf[..], seen, data[from..from + n]);
      Compile();
      WholeHolds(hash[..], wbuf[..], seen + data[from..from + n]);
    }

    // The loop of Sha256_upd and the copy of the bytes left over.
    method Feed(data: seq<bv8>, first: nat)
      requires Sized() && Holds(hash[..], wbuf[..], msg) && first == |msg| % 64
      modifies hash, wbuf
      ensures Holds(hash[..], wbuf[..], msg + data)
    {
      hide Holds, Copied;
      var pos, capacity, sp := first, 64 - first, 0;
      assert msg + data[..0] == msg;
      while |data| - sp >= capacity
        invariant 0 <= sp <= |data| && pos == |msg + data[..sp]| % 64 && capacity == 64 - pos
        invariant Holds(hash[..], wbuf[..], msg + data[..sp])
      {
        AbsorbBlock(pos, data, sp, capacity, msg + data[..sp]);
        PieceJoined(msg, data, sp, sp + capacity);
        sp := sp + capacity;
        capacity := 64;
        pos := 0;
      }
      PieceJoined(msg, data, sp, |data|);
      if sp != |data| {
        ghost var p := wbuf[..];
        CopyIn(pos, data, sp, |data| - sp);
        CopiedHolds(hash[..], p, wbuf[..], msg + data[..sp], data[sp..|data|]);
      }
    }

    // Sha256_upd. The carry test looks at the low word only, so that the count stays
    // right for every piece under 2^32 bytes, and beyond that for a few lengths.
    method Update(data: seq<bv8>)
      requires Absorbed() && |data| < U32 * U32
      modifies this`count0, this`count1, this`msg, hash, wbuf
      ensures Absorbed() && msg == old(msg) + data
      ensures count1 == (old(count1) + Carry(old(count0), |data|)) % U32
      ensures old(Counted()) ==> (Counted() <==> |data| < U32 || old(count0) + |data| < 2 * U32)
    {
      hide Holds, Carry;
      CountModulo(|msg|, count0, |data|);
      CountCarry(|msg|, count0, |data|);
      var pos := count0 % 64;
      CarryTest(count0, |data|);
      count0 := (count0 + |data|) % U32;
      if count0 < |data| {
        count1 := (count1 + 1) % U32;
      }
      Feed(data, pos);
      msg := msg + data;
    }

    // The padding bit after the last byte of the message.
    method MarkEnd(i: nat)
      requires Absorbed() && i == |msg| % 64
      modifies wbuf
      ensures Filled(wbuf[..], msg, |msg| / 64, 0, i / 4 + 1)
    {
      hide Holds, Swapped, Masked, Filled, HashBlocks;
      ghost var p := wbuf[..];
      Swap((i + 3) / 4);
      ghost var q := wbuf[..];
      wbuf[i / 4] := Masked(wbuf[i / 4], i % 4);
      MarkedFilled(hash[..], p, q, wbuf[..], msg);
    }

    // The block of the padding bit is closed when it has no room for the length.
    method Mark() returns (i: nat, ghost b: nat)
      requires Absorbed()
      modifies hash, wbuf
      ensures i <= 14 && |Padded(msg)| == 16 * (b + 1) && |msg| < 4 * (16 * b + i)
      ensures hash[..] == HashBlocks(Padded(msg), b) && Filled(wbuf[..], msg, b, 0, i)
    {
      hide Holds, Filled, Padded, HashBlocks, Compress;
      i, b := count0 % 64, |msg| / 64;
      CountModulo(|msg|, count0, 0);
      PaddedLength(msg);
      PaddedPrefix(hash[..], wbuf[..], msg);
      MarkEnd(i);
      if i > 55 {
        if i < 60 {
          ghost var p := wbuf[..];
          wbuf[15] := 0;
          FilledZero(p, wbuf[..], msg, b, 15);
        }
        FilledHash(hash[..], wbuf[..], msg, b);
        Compile();
        i, b := 0, b + 1;
        FilledNone(wbuf[..], msg, b);
      } else {
        i := i / 4 + 1;
      }
    }

    // The length in bits as the counts have it.
    ghost function Bits(): nat
      reads this
    {
      8 * (count1 * U32 + count0)
    }

    // The zeros and the length that end the padding, in the last block.
    method CloseBlock(first: nat, ghost b: nat)
      requires Sized()
      requires first <= 14 && |Padded(msg)| == 16 * (b + 1) && |msg| < 4 * (16 * b + first)
      requires hash[..] == HashBlocks(Padded(msg), b) && Filled(wbuf[..], msg, b, 0, first)
      modifies hash, wbuf
      ensures |PaddedWith(msg, Bits())| == 16 * (b + 1)
      ensures hash[..] == HashBlocks(PaddedWith(msg, Bits()), b + 1)
    {
      hide Padded, PaddedWith, HashBlocks, Compress, WordOf, LengthHigh, LengthLow;
      var i := first;
      while i < 14
        invariant first <= i <= 14 && hash[..] == HashBlocks(Padded(msg), b) && Filled(wbuf[..], msg, b, 0, i)
      {
        ghost var p := wbuf[..];
        wbuf[i] := 0;
        FilledZero(p, wbuf[..], msg, b, i);
        i := i + 1;
      }
      LengthWords(count0, count1);
      LengthFits(count0, count1);
      wbuf[14] := LengthHigh(count0, count1);
      wbuf[15] := LengthLow(count0);
      CountsHash(hash[..], wbuf[..], msg, b, Bits());
      Compile();
    }

    // SHA_fin1: the digest of the message, with the length that was counted.
    method Finish(hlen: nat) returns (hval: seq<bv8>)
      requires Absorbed() && hlen <= 32
      modifies hash, wbuf
      ensures hval == DigestOf(PaddedWith(msg, Bits()))[..hlen]
      ensures Counted() && |msg| < U32 * U32 ==> hval == Digest(msg)[..hlen]
    {
      hide Holds, PaddedWith, HashBlocks, ByteOf, Filled;
      var i, b := Mark();
      CloseBlock(i, b);
      hval := Emit(hlen);
    }

    method Emit(hlen: nat) returns (hval: seq<bv8>)
      requires Sized() && hlen <= 32
      ensures |hval| == hlen && forall j | 0 <= j < hlen :: hval[j] == ByteOf(hash[j / 4], j % 4)
    {
      hide ByteOf, Out;
      hval := [];
      for k := 0 to hlen
        invariant |hval| == k && forall j | 0 <= j < k :: hval[j] == ByteOf(hash[j / 4], j % 4)
      {
        OutAgrees(hash[k / 4], k % 4);
        hval := hval + [Out(hash[k / 4], k % 4)];
      }
    }
  }

  // Byte k of a word, first byte first.
  function Out(w: bv32, k: nat): bv8
    requires k < 4
  {
    ((if k == 0 then w >> 24 else if k == 1 then w >> 16 else if k == 2 then w >> 8 else w) & 0xff) as bv8
  }

  lemma OutAgrees(w: bv32, k: nat)
    requires k < 4
    ensures Out(w, k) == ByteOf(w, k)
  {
  }

  // The bytes that are put out read back as the word.
  lemma OutReads(w: bv32)
    ensures BigEndian(Out(w, 0), Out(w, 1), Out(w, 2), Out(w, 3)) == w
  {
  }

  function Joined(pieces: seq<seq<bv8>>): seq<bv8> {
    if pieces == [] then [] else Joined(pieces[..|pieces| - 1]) + pieces[|pieces| - 1]
  }

  // The high word that the carry tests of all pieces add up to.
  function High(pieces: seq<seq<bv8>>): nat {
    if pieces == [] then 0
    else
      var init := pieces[..|pieces| - 1];
      High(init) + Carry(|Joined(init)| % U32, |pieces[|pieces| - 1]|)
  }

  // Piece i is short enough for its carry test.
  predicate PieceCounted(pieces: seq<seq<bv8>>, i: nat)
    requires i < |pieces|
  {
    |pieces[i]| < U32 || |Joined(pieces[..i])| % U32 + |pieces[i]| < 2 * U32
  }

  // A carry that is missed is never made up for.
  lemma {:induction false} HighCounted(pieces: seq<seq<bv8>>)
    ensures High(pieces) <= |Joined(pieces)| / U32
    ensures High(pieces) == |Joined(pieces)| / U32 <==> forall i | 0 <= i < |pieces| :: PieceCounted(pieces, i)
  {
    if pieces != [] {
      var n := |pieces| - 1;
      var init := pieces[..n];
      HighCounted(init);
      CarryBound(|Joined(init)|, |Joined(init)| % U32, |pieces[n]|);
      forall i | 0 <= i < n
        ensures PieceCounted(init, i) <==> PieceCounted(pieces, i)
      {
        assert init[..i] == pieces[..i];
      }
      assert PieceCounted(pieces, n) <==> High(pieces) - High(init) == (|Joined(init)| % U32 + |pieces[n]|) / U32;
      assert (forall i | 0 <= i < |pieces| :: PieceCounted(pieces, i)) <==>
             PieceCounted(pieces, n) && forall i | 0 <= i < n :: PieceCounted(pieces, i);
      assert (forall i | 0 <= i < n :: PieceCounted(pieces, i)) <==>
             forall i | 0 <= i < |init| :: PieceCounted(init, i);
    }
  }

  lemma LengthCounted(pieces: seq<seq<bv8>>)
    ensures var n := |Joined(pieces)|;
            High(pieces) * U32 + n % U32 == n <==> forall i | 0 <= i < |pieces| :: PieceCounted(pieces, i)
    ensures High(pieces) <= |Joined(pieces)| / U32
  {
    hide High, Joined, PieceCounted;
    HighCounted(pieces);
    var n := |Joined(pieces)|;
    assert n == n / U32 * U32 + n % U32;
  }

  // Sha256_set, and Sha256_upd for every piece in turn.
  method AbsorbPieces(pieces: seq<seq<bv8>>) returns (ctx: Context)
    requires |Joined(pieces)| < U32 * U32
    ensures fresh(ctx) && fresh(ctx.hash) && fresh(ctx.wbuf)
    ensures ctx.Absorbed() && ctx.count1 == High(pieces) && ctx.msg == Joined(pieces)
  {
    hide Carry, Holds, High, Joined;
    ctx := new Context();
    ctx.Set();
    NoPieces();
    assert pieces[..0] == [];
    for i := 0 to |pieces|
      invariant fresh(ctx) && fresh(ctx.hash) && fresh(ctx.wbuf)
      invariant ctx.Absorbed() && ctx.count1 == High(pieces[..i]) && ctx.msg == Joined(pieces[..i])
    {
      NextPiece(pieces, i);
      ctx.Update(pieces[i]);
    }
    assert pieces[..|pieces|] == pieces;
  }

  lemma NoPieces()
    ensures Joined([]) == [] && High([]) == 0
  {
  }

  lemma NextPiece(pieces: seq<seq<bv8>>, i: nat)
    requires i < |pieces| && |Joined(pieces)| < U32 * U32
    ensures Joined(pieces[..i + 1]) == Joined(pieces[..i]) + pieces[i] && |pieces[i]| < U32 * U32
    ensures High(pieces[..i + 1]) == High(pieces[..i]) + Carry(|Joined(pieces[..i])| % U32, |pieces[i]|) < U32
  {
    hide Carry;
    assert pieces[..i + 1][..i] == pieces[..i];
    JoinedPrefix(pieces, i + 1);
    HighCounted(pieces[..i + 1]);
  }

  // Sha256_set, Sha256_upd for every piece in turn, Sha256_fin: the digest of the joined
  // message with the length that was counted. That is the true length if and only if no
  // piece is too long for its carry test, and so whenever all are under 2^32 bytes.
  method HashPieces(pieces: seq<seq<bv8>>) returns (digest: seq<bv8>)
    requires |Joined(pieces)| < U32 * U32
    ensures var msg := Joined(pieces);
            && digest == DigestOf(PaddedWith(msg, 8 * (High(pieces) * U32 + |msg| % U32)))
            && (High(pieces) * U32 + |msg| % U32 == |msg| <==> forall i | 0 <= i < |pieces| :: PieceCounted(pieces, i))
    ensures (forall i | 0 <= i < |pieces| :: |pieces[i]| < U32) ==> digest == Digest(Joined(pieces))
  {
    hide DigestOf, PaddedWith, High, Joined, Holds;
    LengthCounted(pieces);
    var ctx := AbsorbPieces(pieces);
    digest := ctx.Finish(32);
    WholeDigest(PaddedWith(ctx.msg, ctx.Bits()));
  }

  lemma WholeDigest(words: seq<bv32>)
    ensures DigestOf(words)[..32] == DigestOf(words)
  {
  }

  lemma {:induction false} JoinedPrefix(pieces: seq<seq<bv8>>, i: nat)
    requires i <= |pieces|
    ensures |Joined(pieces[..i])| <= |Joined(pieces)|
  {
    if i < |pieces| {
      assert pieces[..|pieces| - 1][..i] == pieces[..i];
      JoinedPrefix(pieces[..|pieces| - 1], i);
    } else {
      assert pieces[..i] == pieces;
    }
  }

  // After a piece of 2^33 bytes the count is short of one carry.
  method LongPieceMiscounted(piece: seq<bv8>) returns (ctx: Context)
    requires |piece| == 2 * U32
    ensures ctx.msg == piece && ctx.Absorbed() && !ctx.Counted() && ctx.Bits() == 8 * U32
  {
    hide Holds, Carry;
    ctx := new Context();
    ctx.Set();
    LongCarry();
    ctx.Update(piece);
  }

  lemma LongCarry()
    ensures Carry(0, 2 * U32) == 1
  {
  }
}
