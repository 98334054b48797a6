/** SHA-256 as in sections 4.1.2, 4.2.2, 5.3.3 and 6.2 of FIPS 180-4, and `_sha256` of a file. */
module Sha256 {
  import opened Wrappers
  import opened StreamHash
  import opened Ascii

  datatype Words = Words(a: bv32, b: bv32, c: bv32, d: bv32, e: bv32, f: bv32, g: bv32, h: bv32)

  const IV := Words(0x6a09e667, 0xbb67ae85, 0x3c6ef372, 0xa54ff53a,
          0x510e527f, 0x9b05688c, 0x1f83d9ab, 0x5be0cd19)

  /** The round constants, in rows of eight. */
  function KRow(row: nat): (k: seq<bv32>)
    requires row < 8
    ensures |k| == 8
  {
    if row == 0 then
      [0x428a2f98, 0x71374491, 0xb5c0fbcf, 0xe9b5dba5, 0x3956c25b, 0x59f111f1, 0x923f82a4, 0xab1c5ed5]
    else if row == 1 then
      [0xd807aa98, 0x12835b01, 0x243185be, 0x550c7dc3, 0x72be5d74, 0x80deb1fe, 0x9bdc06a7, 0xc19bf174]
    else if row == 2 then
      [0xe49b69c1, 0xefbe4786, 0x0fc19dc6, 0x240ca1cc, 0x2de92c6f, 0x4a7484aa, 0x5cb0a9dc, 0x76f988da]
    else if row == 3 then
      [0x983e5152, 0xa831c66d, 0xb00327c8, 0xbf597fc7, 0xc6e00bf3, 0xd5a79147, 0x06ca6351, 0x14292967]
    else if row == 4 then
      [0x27b70a85, 0x2e1b2138, 0x4d2c6dfc, 0x53380d13, 0x650a7354, 0x766a0abb, 0x81c2c92e, 0x92722c85]
    else if row == 5 then
      [0xa2bfe8a1, 0xa81a664b, 0xc24b8b70, 0xc76c51a3, 0xd192e819, 0xd6990624, 0xf40e3585, 0x106aa070]
    else if row == 6 then
      [0x19a4c116, 0x1e376c08, 0x2748774c, 0x34b0bcb5, 0x391c0cb3, 0x4ed8aa4a, 0x5b9cca4f, 0x682e6ff3]
    else
      [0x748f82ee, 0x78a5636f, 0x84c87814, 0x8cc70208, 0x90befffa, 0xa4506ceb, 0xbef9a3f7, 0xc67178f2]
  }

  /** The constant of round `t`. */
  function K(t: nat): bv32
    requires t < 64
  {
    KRow(t / 8)[t % 8]
  }

  /** The size of the chunks `_sha256` reads. */
  const CHUNK_SIZE: nat := 1024 * 1024

  function Ch(x: bv32, y: bv32, z: bv32): bv32 {
    (x & y) ^ (!x & z)
  }

  function Maj(x: bv32, y: bv32, z: bv32): bv32 {
    (x & y) ^ (x & z) ^ (y & z)
  }

  function BigSigma0(x: bv32): bv32 {
    x.RotateRight(2) ^ x.RotateRight(13) ^ x.RotateRight(22)
  }

  function BigSigma1(x: bv32): bv32 {
    x.RotateRight(6) ^ x.RotateRight(11) ^ x.RotateRight(25)
  }

  function SmallSigma0(x: bv32): bv32 {
    x.RotateRight(7) ^ x.RotateRight(18) ^ (x >> 3)
  }

  function SmallSigma1(x: bv32): bv32 {
    x.RotateRight(17) ^ x.RotateRight(19) ^ (x >> 10)
  }

  /** The `i`-th word of a block, most significant byte first. */
  function WordAt(b: Block, i: nat): bv32
    requires i < 16
  {
    FourBytes(b[4 * i..4 * i + 4]);
    FromBigEndian(b[4 * i..4 * i + 4]) as bv32
  }

  /** A word of the schedule from four earlier ones. */
  function NextWord(w16: bv32, w15: bv32, w7: bv32, w2: bv32): bv32 {
    SmallSigma1(w2) + w7 + SmallSigma0(w15) + w16
  }

  /** `n` words: the given ones, and then each from the sixteenth, fifteenth, seventh and second before it. */
  function Extend<W>(next: (W, W, W, W) -> W, first: seq<W>, n: nat): (w: seq<W>)
    requires |first| == 16
    ensures |w| == n
  {
    if n == 0 then []
    else
      var w, t := Extend(next, first, n - 1), n - 1;
      w + [if t < 16 then first[t] else next(w[t - 16], w[t - 15], w[t - 7], w[t - 2])]
  }

  function Words16(b: Block): (w: seq<bv32>)
    ensures |w| == 16
  {
    seq(16, i requires 0 <= i < 16 => WordAt(b, i))
  }

  /** The message schedule. */
  function Schedule(b: Block): (w: seq<bv32>)
    ensures |w| == 64
  {
    Extend(NextWord, Words16(b), 64)
  }

  function Round(v: Words, k: bv32, w: bv32): Words {
    var t1 := v.h + BigSigma1(v.e) + Ch(v.e, v.f, v.g) + k + w;
    var t2 := BigSigma0(v.a) + Maj(v.a, v.b, v.c);
    Words(t1 + t2, v.a, v.b, v.c, v.d + t1, v.e, v.f, v.g)
  }

  /** Rounds `t` to 63. */
  function Rounds(v: Words, w: seq<bv32>, t: nat): Words
    requires |w| == 64 && t <= 64
    decreases 64 - t
  {
    if t == 64 then v else Rounds(Round(v, K(t), w[t]), w, t + 1)
  }

  function AddWords(v: Words, r: Words): Words {
    Words(v.a + r.a, v.b + r.b, v.c + r.c, v.d + r.d, v.e + r.e, v.f + r.f, v.g + r.g, v.h + r.h)
  }

  function Compress(v: Words, b: Block): Words {
    AddWords(v, Rounds(v, Schedule(b), 0))
  }

  // ---- hexadecimal ------------------------------------------------------------------------

  const HEX_DIGITS := "0123456789abcdef"

  /** `count` hexadecimal digits of `v` modulo 16^count, most significant first. */
  function HexOf(v: nat, count: nat): (s: string)
    ensures |s| == count && forall c | c in s :: IsLowerHex(c)
  {
    if count == 0 then [] else HexOf(v / 16, count - 1) + [HexDigit(v % 16)]
  }

  function HexDigit(n: nat): (c: char)
    requires n < 16
    ensures IsLowerHex(c) && HexValue(c) == n
  {
    HEX_DIGITS[n]
  }

  function HexWord(x: bv32): (s: string)
    ensures |s| == 8 && forall c | c in s :: IsLowerHex(c)
  {
    HexOf(x as nat, 8)
  }

  function HexFour(a: bv32, b: bv32, c: bv32, d: bv32): (s: string)
    ensures |s| == 32 && forall ch | ch in s :: IsLowerHex(ch)
  {
    HexWord(a) + HexWord(b) + HexWord(c) + HexWord(d)
  }

  function HexWords(v: Words): (s: string)
    ensures |s| == 64 && forall c | c in s :: IsLowerHex(c)
  {
    HexFour(v.a, v.b, v.c, v.d) + HexFour(v.e, v.f, v.g, v.h)
  }

  /** The SHA-256 of a message in hexadecimal: 64 lower-case digits. */
  function HexDigest(msg: seq<byte>): (s: string)
    ensures |s| == 64 && forall c | c in s :: IsLowerHex(c)
  {
    HexWords(OneShot(Compress, IV, msg))
  }

  /** `_sha256(path)`: read in chunks of a mebibyte, update, print in hexadecimal. */
  method FileDigest(data: seq<byte>) returns (hex: string)
    ensures hex == HexDigest(data)
  {
    var final := HashFile(Compress, IV, data, CHUNK_SIZE);
    hex := HexWords(final);
  }

  // ---- the parts, step by step ------------------------------------------------------------

  lemma {:induction false} ExtendAt<W>(next: (W, W, W, W) -> W, first: seq<W>, n: nat, t: nat)
    requires |first| == 16 && t < n
    ensures var w := Extend(next, first, n);
      w[t] == if t < 16 then first[t] else next(w[t - 16], w[t - 15], w[t - 7], w[t - 2])
  {
    if t < n - 1 { ExtendAt(next, first, n - 1, t); }
  }

  /** The schedule: the words of the block, then each from the sixteenth, fifteenth, seventh and second before it. */
  lemma ScheduleIs(b: Block, t: nat)
    requires t < 64
    ensures var w := Schedule(b);
      if t < 16 then w[t] == WordAt(b, t) else w[t] == NextWord(w[t - 16], w[t - 15], w[t - 7], w[t - 2])
  {
    ExtendAt(NextWord, Words16(b), 64, t);
  }

  /** A word of a block from its four bytes. */
  lemma WordOfBytes(b: Block, i: nat, x: nat)
    requires i < 16
    requires x == 0x100_0000 * b[4 * i] as nat + 0x1_0000 * b[4 * i + 1] as nat + 0x100 * b[4 * i + 2] as nat
                  + b[4 * i + 3] as nat
    ensures x < 0x1_0000_0000 && WordAt(b, i) == x as bv32
  {
    FourBytes(b[4 * i..4 * i + 4]);
  }

  /** One word of the schedule of the message "abc", the last one. */
  lemma WordExample()
    ensures NextWord(0x065c43da, 0xfb3e89cb, 0xef57b9cd, 0x668b2ff8) == 0x12b1edeb
  {
  }

  /** Two rounds on the message "abc", the first one and the last one, and the words of its digest. */
  lemma RoundExample()
    ensures Round(IV, 0x428a2f98, 0x61626380)
         == Words(0x5d6aebcd, IV.a, IV.b, IV.c, 0xfa2a4622, IV.e, IV.f, IV.g)
    ensures Round(Words(0xd39a2165, 0x04d24d6c, 0xb85e2ce9, 0xb6ae8fff,
                        0xfb121210, 0x948d25b6, 0x961f4894, 0xb21bad3d), 0xc67178f2, 0x12b1edeb)
         == Words(0x506e3058, 0xd39a2165, 0x04d24d6c, 0xb85e2ce9,
                  0x5ef50f24, 0xfb121210, 0x948d25b6, 0x961f4894)
    ensures AddWords(IV, Words(0x506e3058, 0xd39a2165, 0x04d24d6c, 0xb85e2ce9,
                               0x5ef50f24, 0xfb121210, 0x948d25b6, 0x961f4894))
         == Words(0xba7816bf, 0x8f01cfea, 0x414140de, 0x5dae2223,
                  0xb00361a3, 0x96177a9c, 0xb410ff61, 0xf20015ad)
  {
  }

  /** The states a compression goes through: a round from each to the next, with constant and word of its number. */
  ghost predicate IsTrace(v: Words, w: seq<bv32>, trace: seq<Words>, from: nat)
    requires |w| == 64
  {
    && |trace| + from == 65 && trace != [] && trace[0] == v
    && forall i | 0 <= i < |trace| - 1 :: trace[i + 1] == Round(trace[i], K(from + i), w[from + i])
  }

  lemma {:induction false} RoundsEnd(v: Words, w: seq<bv32>, trace: seq<Words>, from: nat)
    requires |w| == 64 && IsTrace(v, w, trace, from)
    ensures Rounds(v, w, from) == trace[|trace| - 1]
    decreases |trace|
  {
    if |trace| > 1 {
      assert trace[0 + 1] == Round(trace[0], K(from + 0), w[from + 0]);
      forall i | 0 <= i < |trace| - 2
        ensures trace[1..][i + 1] == Round(trace[1..][i], K(from + 1 + i), w[from + 1 + i])
      {
        assert trace[(i + 1) + 1] == Round(trace[i + 1], K(from + (i + 1)), w[from + (i + 1)]);
      }
      RoundsEnd(trace[1], w, trace[1..], from + 1);
    }
  }

  /** A compression adds the last of sixty-four rounds, word by word, to the words it started from. */
  lemma CompressEnds(v: Words, b: Block, trace: seq<Words>)
    requires IsTrace(v, Schedule(b), trace, 0)
    ensures Compress(v, b) == AddWords(v, trace[64])
  {
    RoundsEnd(v, Schedule(b), trace, 0);
  }

  // ---- the constants ----------------------------------------------------------------------

  function Square(x: nat): nat {
    x * x
  }

  function Cube(x: nat): nat {
    x * x * x
  }

  /** `k` is the first 32 bits of the fractional part of the cube root of `p`, whose integer part is `r`. */
  predicate IsCubeRoot(p: nat, r: nat, k: bv32) {
    var x := r * 0x1_0000_0000 + k as nat;
    Cube(x) <= p * 0x1_0000_0000_0000_0000_0000_0000 < Cube(x + 1)
  }

  /** The same of the square root. */
  predicate IsSquareRoot(p: nat, r: nat, k: bv32) {
    var x := r * 0x1_0000_0000 + k as nat;
    Square(x) <= p * 0x1_0000_0000_0000_0000 < Square(x + 1)
  }

  /** The initial words are the square roots of the first eight primes. */
  lemma InitialWords()
    ensures IsSquareRoot(2, 1, IV.a) && IsSquareRoot(3, 1, IV.b)
    ensures IsSquareRoot(5, 2, IV.c) && IsSquareRoot(7, 2, IV.d)
  {
  }

  lemma MoreInitialWords()
    ensures IsSquareRoot(11, 3, IV.e) && IsSquareRoot(13, 3, IV.f)
    ensures IsSquareRoot(17, 4, IV.g) && IsSquareRoot(19, 4, IV.h)
  {
  }

  /** Four constants of one row are the cube roots of four primes. */
  ghost predicate AreRoots(k: seq<bv32>, p0: nat, r0: nat, p1: nat, r1: nat, p2: nat, r2: nat, p3: nat, r3: nat)
    requires |k| == 4
  {
    IsCubeRoot(p0, r0, k[0]) && IsCubeRoot(p1, r1, k[1]) && IsCubeRoot(p2, r2, k[2]) && IsCubeRoot(p3, r3, k[3])
  }

  /** The constants of rounds 0 to 3. */
  lemma RoundConstants0()
    ensures AreRoots(KRow(0)[0..4], 2, 1, 3, 1, 5, 1, 7, 1)
  {
  }

  /** The constants of rounds 4 to 7. */
  lemma RoundConstants4()
    ensures AreRoots(KRow(0)[4..8], 11, 2, 13, 2, 17, 2, 19, 2)
  {
  }

  /** The constants of rounds 8 to 11. */
  lemma RoundConstants8()
    ensures AreRoots(KRow(1)[0..4], 23, 2, 29, 3, 31, 3, 37, 3)
  {
  }

  /** The constants of rounds 12 to 15. */
  lemma RoundConstants12()
    ensures AreRoots(KRow(1)[4..8], 41, 3, 43, 3, 47, 3, 53, 3)
  {
  }

  /** The constants of rounds 16 to 19. */
  lemma RoundConstants16()
    ensures AreRoots(KRow(2)[0..4], 59, 3, 61, 3, 67, 4, 71, 4)
  {
  }

  /** The constants of rounds 20 to 23. */
  lemma RoundConstants20()
    ensures AreRoots(KRow(2)[4..8], 73, 4, 79, 4, 83, 4, 89, 4)
  {
  }

  /** The constants of rounds 24 to 27. */
  lemma RoundConstants24()
    ensures AreRoots(KRow(3)[0..4], 97, 4, 101, 4, 103, 4, 107, 4)
  {
  }

  /** The constants of rounds 28 to 31. */
  lemma RoundConstants28()
    ensures AreRoots(KRow(3)[4..8], 109, 4, 113, 4, 127, 5, 131, 5)
  {
  }

  /** The constants of rounds 32 to 35. */
  lemma RoundConstants32()
    ensures AreRoots(KRow(4)[0..4], 137, 5, 139, 5, 149, 5, 151, 5)
  {
  }

  /** The constants of rounds 36 to 39. */
  lemma RoundConstants36()
    ensures AreRoots(KRow(4)[4..8], 157, 5, 163, 5, 167, 5, 173, 5)
  {
  }

  /** The constants of rounds 40 to 43. */
  lemma RoundConstants40()
    ensures AreRoots(KRow(5)[0..4], 179, 5, 181, 5, 191, 5, 193, 5)
  {
  }

  /** The constants of rounds 44 to 47. */
  lemma RoundConstants44()
    ensures AreRoots(KRow(5)[4..8], 197, 5, 199, 5, 211, 5, 223, 6)
  {
  }

  /** The constants of rounds 48 to 51. */
  lemma RoundConstants48()
    ensures AreRoots(KRow(6)[0..4], 227, 6, 229, 6, 233, 6, 239, 6)
  {
  }

  /** The constants of rounds 52 to 55. */
  lemma RoundConstants52()
    ensures AreRoots(KRow(6)[4..8], 241, 6, 251, 6, 257, 6, 263, 6)
  {
  }

  /** The constants of rounds 56 to 59. */
  lemma RoundConstants56()
    ensures AreRoots(KRow(7)[0..4], 269, 6, 271, 6, 277, 6, 281, 6)
  {
  }

  /** The constants of rounds 60 to 63. */
  lemma RoundConstants60()
    ensures AreRoots(KRow(7)[4..8], 283, 6, 293, 6, 307, 6, 311, 6)
  {
  }

  // ---- printing ---------------------------------------------------------------------------

  /** The value of a text of hexadecimal digits. */
  function FromHex(s: string): nat
    requires forall c | c in s :: IsHex(c)
  {
    if s == "" then 0
    else
      assert IsHex(s[|s| - 1]);
      16 * FromHex(s[..|s| - 1]) + HexValue(s[|s| - 1])
  }

  function Pow16(e: nat): nat {
    if e == 0 then 1 else 16 * Pow16(e - 1)
  }

  /** Printed words read back. */
  lemma {:induction false} HexReadsBack(v: nat, count: nat)
    requires v < Pow16(count)
    ensures (forall c | c in HexOf(v, count) :: IsHex(c)) && FromHex(HexOf(v, count)) == v
  {
    if count > 0 {
      HexReadsBack(v / 16, count - 1);
      assert HexOf(v, count)[..count - 1] == HexOf(v / 16, count - 1);
    }
  }

  /** A printed word has eight digits and reads back as that word. */
  lemma WordReadsBack(x: bv32)
    ensures (forall c | c in HexWord(x) :: IsHex(c)) && FromHex(HexWord(x)) == x as nat
  {
    assert Pow16(2) == 0x100 && Pow16(4) == 256 * Pow16(2) && Pow16(6) == 256 * Pow16(4) && Pow16(8) == 256 * Pow16(6);
    HexReadsBack(x as nat, 8);
  }

  lemma FourInOrder(a: bv32, b: bv32, c: bv32, d: bv32, i: nat)
    requires i < 8
    ensures var s := HexFour(a, b, c, d);
      s[i] == HexWord(a)[i] && s[8 + i] == HexWord(b)[i] && s[16 + i] == HexWord(c)[i] && s[24 + i] == HexWord(d)[i]
  {
  }

  /** The words of a digest are printed one after another, eight digits each. */
  lemma WordsInOrder(v: Words, i: nat)
    requires i < 8
    ensures var s := HexWords(v);
      && s[i] == HexWord(v.a)[i] && s[8 + i] == HexWord(v.b)[i] && s[16 + i] == HexWord(v.c)[i]
      && s[24 + i] == HexWord(v.d)[i] && s[32 + i] == HexWord(v.e)[i] && s[40 + i] == HexWord(v.f)[i]
      && s[48 + i] == HexWord(v.g)[i] && s[56 + i] == HexWord(v.h)[i]
  {
    FourInOrder(v.a, v.b, v.c, v.d, i);
    FourInOrder(v.e, v.f, v.g, v.h, i);
  }
}
