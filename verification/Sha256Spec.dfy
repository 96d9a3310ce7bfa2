/**
 * SHA-256 as FIPS 180-4 defines it, on 32-bit words held as naturals: section 3.2 (word operations),
 * 4.1.2 (functions), 4.2.2 (constants), 5.1.1 (padding), 5.2.1 (parsing), 5.3.3 and 6.2 (hashing).
 */
module Sha256Spec {
  import opened Common
  import opened Bits

  const TWO32 := 0x1_0000_0000

  type Word = w: int | 0 <= w < TWO32

  // ---- word operations

  lemma WordRange()
    ensures Pow2(32) == TWO32
  {
    Pow2Sum(4, 4);
    Pow2Sum(8, 8);
    Pow2Sum(16, 16);
  }

  function WordOp(g: Gate, x: Word, y: Word): Word {
    WordRange();
    Bitwise(g, x, y, 32)
  }

  function And(x: Word, y: Word): Word { WordOp(AndGate, x, y) }

  function Xor(x: Word, y: Word): Word { WordOp(XorGate, x, y) }

  function Or(x: Word, y: Word): Word { WordOp(OrGate, x, y) }

  function Not(x: Word): Word { TWO32 - 1 - x }

  /** Shift right, discarding low bits. */
  function Shr(x: Word, n: nat): (r: Word)
    ensures r <= x
  {
    if n == 0 then x else Shr(x / 2, n - 1)
  }

  /** Shift left, discarding high bits. */
  function Shl(x: Word, n: nat): Word
    decreases n
  {
    if n == 0 then x else Shl(2 * x % TWO32, n - 1)
  }

  function Rotr(x: Word, n: nat): Word
    requires n <= 32
  {
    Or(Shr(x, n), Shl(x, 32 - n))
  }

  function Add(x: Word, y: Word): Word { (x + y) % TWO32 }

  // ---- functions and constants

  function Ch(x: Word, y: Word, z: Word): Word { Xor(And(x, y), And(Not(x), z)) }

  function Maj(x: Word, y: Word, z: Word): Word { Xor(Xor(And(x, y), And(x, z)), And(y, z)) }

  function BigSigma0(x: Word): Word { Xor(Xor(Rotr(x, 2), Rotr(x, 13)), Rotr(x, 22)) }

  function BigSigma1(x: Word): Word { Xor(Xor(Rotr(x, 6), Rotr(x, 11)), Rotr(x, 25)) }

  function SmallSigma0(x: Word): Word { Xor(Xor(Rotr(x, 7), Rotr(x, 18)), Shr(x, 3)) }

  function SmallSigma1(x: Word): Word { Xor(Xor(Rotr(x, 17), Rotr(x, 19)), Shr(x, 10)) }

  function K(t: nat): Word
    requires t < 64
  {
    var table: seq<seq<Word>> := [
      [0x428a2f98, 0x71374491, 0xb5c0fbcf, 0xe9b5dba5, 0x3956c25b, 0x59f111f1, 0x923f82a4, 0xab1c5ed5],
      [0xd807aa98, 0x12835b01, 0x243185be, 0x550c7dc3, 0x72be5d74, 0x80deb1fe, 0x9bdc06a7, 0xc19bf174],
      [0xe49b69c1, 0xefbe4786, 0x0fc19dc6, 0x240ca1cc, 0x2de92c6f, 0x4a7484aa, 0x5cb0a9dc, 0x76f988da],
      [0x983e5152, 0xa831c66d, 0xb00327c8, 0xbf597fc7, 0xc6e00bf3, 0xd5a79147, 0x06ca6351, 0x14292967],
      [0x27b70a85, 0x2e1b2138, 0x4d2c6dfc, 0x53380d13, 0x650a7354, 0x766a0abb, 0x81c2c92e, 0x92722c85],
      [0xa2bfe8a1, 0xa81a664b, 0xc24b8b70, 0xc76c51a3, 0xd192e819, 0xd6990624, 0xf40e3585, 0x106aa070],
      [0x19a4c116, 0x1e376c08, 0x2748774c, 0x34b0bcb5, 0x391c0cb3, 0x4ed8aa4a, 0x5b9cca4f, 0x682e6ff3],
      [0x748f82ee, 0x78a5636f, 0x84c87814, 0x8cc70208, 0x90befffa, 0xa4506ceb, 0xbef9a3f7, 0xc67178f2]
    ];
    table[t / 8][t % 8]
  }

  const H0 := State(0x6a09e667, 0xbb67ae85, 0x3c6ef372, 0xa54ff53a, 0x510e527f, 0x9b05688c, 0x1f83d9ab, 0x5be0cd19)

  // ---- padding

  /** Zero bytes between the 0x80 marker and the 64-bit length. */
  function ZeroCount(len: nat): (z: nat)
    ensures z < 64 && (len + 1 + z) % 64 == 56
  {
    (119 - len % 64) % 64
  }

  function Zeros(n: nat): (z: seq<Byte>)
    ensures |z| == n
  {
    seq(n, _ => 0)
  }

  lemma BlockMultiple(n: nat)
    requires n % 64 == 56
    ensures (n + 8) % 64 == 0
  {
  }

  function Pad(msg: seq<Byte>): (p: seq<Byte>)
    ensures |p| % 64 == 0 && |p| >= |msg| + 9
  {
    BlockMultiple(|msg| + 1 + ZeroCount(|msg|));
    msg + [0x80] + Zeros(ZeroCount(|msg|)) + BigEndian(8 * |msg|, 8)
  }

  // ---- hashing

  datatype State = State(a: Word, b: Word, c: Word, d: Word, e: Word, f: Word, g: Word, h: Word)

  function WordAt(b: seq<Byte>, i: nat): Word
    requires i + 4 <= |b|
  {
    b[i] as int * 0x100_0000 + b[i + 1] as int * 0x1_0000 + b[i + 2] as int * 0x100 + b[i + 3] as int
  }

  /** The first `n` words of the message schedule of the block starting at `off`. */
  function Schedule(m: seq<Byte>, off: nat, n: nat): (w: seq<Word>)
    requires off + 64 <= |m|
    ensures |w| == n
  {
    if n == 0 then [] else
      var w := Schedule(m, off, n - 1);
      var t := n - 1;
      w + [if t < 16 then WordAt(m, off + 4 * t)
           else Add(Add(Add(SmallSigma1(w[t - 2]), w[t - 7]), SmallSigma0(w[t - 15])), w[t - 16])]
  }

  function Round(s: State, kt: Word, wt: Word): State {
    var t1 := Add(Add(Add(Add(s.h, BigSigma1(s.e)), Ch(s.e, s.f, s.g)), kt), wt);
    var t2 := Add(BigSigma0(s.a), Maj(s.a, s.b, s.c));
    State(Add(t1, t2), s.a, s.b, s.c, Add(s.d, t1), s.e, s.f, s.g)
  }

  function Rounds(s: State, w: seq<Word>, n: nat): State
    requires n <= 64 && n <= |w|
  {
    if n == 0 then s else Round(Rounds(s, w, n - 1), K(n - 1), w[n - 1])
  }

  function Plus(s: State, v: State): State {
    State(Add(v.a, s.a), Add(v.b, s.b), Add(v.c, s.c), Add(v.d, s.d),
          Add(v.e, s.e), Add(v.f, s.f), Add(v.g, s.g), Add(v.h, s.h))
  }

  /** The chaining value after the first `n` blocks of the padded message `m`. */
  function Chain(m: seq<Byte>, n: nat): State
    requires 64 * n <= |m|
  {
    if n == 0 then H0 else
      var h := Chain(m, n - 1);
      Plus(Rounds(h, Schedule(m, 64 * (n - 1), 64), 64), h)
  }

  function Digest(s: State): (d: seq<Byte>)
    ensures |d| == 32
  {
    BigEndian(s.a, 4) + BigEndian(s.b, 4) + BigEndian(s.c, 4) + BigEndian(s.d, 4)
    + BigEndian(s.e, 4) + BigEndian(s.f, 4) + BigEndian(s.g, 4) + BigEndian(s.h, 4)
  }

  /** SHA-256 of a byte string shorter than 2^61 bytes. */
  function Hash(msg: seq<Byte>): (d: seq<Byte>)
    ensures |d| == 32
  {
    var m := Pad(msg);
    Digest(Chain(m, |m| / 64))
  }

  function DoubleHash(msg: seq<Byte>): (d: seq<Byte>)
    ensures |d| == 32
  {
    Hash(Hash(msg))
  }

  // ---- laws of the constants

  /** The first 64 primes. */
  function Prime(t: nat): int
    requires t < 64
  {
    var table: seq<seq<int>> := [
      [2, 3, 5, 7, 11, 13, 17, 19],
      [23, 29, 31, 37, 41, 43, 47, 53],
      [59, 61, 67, 71, 73, 79, 83, 89],
      [97, 101, 103, 107, 109, 113, 127, 131],
      [137, 139, 149, 151, 157, 163, 167, 173],
      [179, 181, 191, 193, 197, 199, 211, 223],
      [227, 229, 233, 239, 241, 251, 257, 263],
      [269, 271, 277, 281, 283, 293, 307, 311]
    ];
    table[t / 8][t % 8]
  }

  /** `w` is the first 32 bits of the fractional part of the cube root of `p`. */
  predicate CubeRootBits(w: Word, p: int, whole: int) {
    var x := whole * TWO32 + w;
    x * x * x <= p * TWO32 * TWO32 * TWO32 < (x + 1) * (x + 1) * (x + 1)
  }

  predicate RootAt(t: nat, whole: int)
    requires t < 64
  {
    CubeRootBits(K(t), Prime(t), whole)
  }

  lemma FirstRoots()
    ensures RootAt(0, 1) && RootAt(1, 1) && RootAt(2, 1) && RootAt(3, 1)
    ensures RootAt(4, 2) && RootAt(5, 2) && RootAt(6, 2) && RootAt(7, 2)
    ensures RootAt(8, 2) && RootAt(9, 3) && RootAt(10, 3) && RootAt(11, 3)
    ensures RootAt(12, 3) && RootAt(13, 3) && RootAt(14, 3) && RootAt(15, 3)
  {
  }

  lemma SecondRoots()
    ensures RootAt(16, 3) && RootAt(17, 3) && RootAt(18, 4) && RootAt(19, 4)
    ensures RootAt(20, 4) && RootAt(21, 4) && RootAt(22, 4) && RootAt(23, 4)
    ensures RootAt(24, 4) && RootAt(25, 4) && RootAt(26, 4) && RootAt(27, 4)
    ensures RootAt(28, 4) && RootAt(29, 4) && RootAt(30, 5) && RootAt(31, 5)
  {
  }

  lemma ThirdRoots()
    ensures RootAt(32, 5) && RootAt(33, 5) && RootAt(34, 5) && RootAt(35, 5)
    ensures RootAt(36, 5) && RootAt(37, 5) && RootAt(38, 5) && RootAt(39, 5)
    ensures RootAt(40, 5) && RootAt(41, 5) && RootAt(42, 5) && RootAt(43, 5)
    ensures RootAt(44, 5) && RootAt(45, 5) && RootAt(46, 5) && RootAt(47, 6)
  {
  }

  lemma FourthRoots()
    ensures RootAt(48, 6) && RootAt(49, 6) && RootAt(50, 6) && RootAt(51, 6)
    ensures RootAt(52, 6) && RootAt(53, 6) && RootAt(54, 6) && RootAt(55, 6)
    ensures RootAt(56, 6) && RootAt(57, 6) && RootAt(58, 6) && RootAt(59, 6)
    ensures RootAt(60, 6) && RootAt(61, 6) && RootAt(62, 6) && RootAt(63, 6)
  {
  }

  /** Section 4.2.2: the round constants are the cube roots of the first 64 primes. */
  lemma ConstantsAreCubeRoots(t: nat)
    requires t < 64
    ensures exists whole :: RootAt(t, whole)
  {
    hide *;
    if t < 16 {
      FirstRoots();
    } else if t < 32 {
      SecondRoots();
    } else if t < 48 {
      ThirdRoots();
    } else {
      FourthRoots();
    }
  }

  /** `w` is the first 32 bits of the fractional part of the square root of `p`. */
  predicate SquareRootBits(w: Word, p: int, whole: int) {
    var x := whole * TWO32 + w;
    x * x <= p * TWO32 * TWO32 < (x + 1) * (x + 1)
  }

  /** Section 5.3.3: the initial state is the square roots of the first eight primes. */
  lemma InitialStateIsSquareRoots()
    ensures SquareRootBits(H0.a, Prime(0), 1) && SquareRootBits(H0.b, Prime(1), 1)
    ensures SquareRootBits(H0.c, Prime(2), 2) && SquareRootBits(H0.d, Prime(3), 2)
    ensures SquareRootBits(H0.e, Prime(4), 3) && SquareRootBits(H0.f, Prime(5), 3)
    ensures SquareRootBits(H0.g, Prime(6), 4) && SquareRootBits(H0.h, Prime(7), 4)
  {
  }

  // ---- laws of the padding

  lemma LeastMultiple(n: int, total: int)
    requires n % 64 == 0 && total % 64 == 0 && n - 64 < total
    ensures n <= total
  {
  }

  /** The padded length is the least multiple of 64 that leaves room for the marker and the length. */
  lemma PadIsLeast(msg: seq<Byte>, total: nat)
    requires total % 64 == 0 && total >= |msg| + 9
    ensures |Pad(msg)| <= total
  {
    var n := |Pad(msg)|;
    assert n == |msg| + 9 + ZeroCount(|msg|);
    LeastMultiple(n, total);
  }

  /** Different messages have different paddings. */
  lemma PadInjective(x: seq<Byte>, y: seq<Byte>)
    requires 8 * |x| < Pow2(64) && 8 * |y| < Pow2(64) && Pad(x) == Pad(y)
    ensures x == y
  {
    var p := Pad(x);
    assert p[|p| - 8..] == BigEndian(8 * |x|, 8);
    assert p[|p| - 8..] == BigEndian(8 * |y|, 8);
    BigEndianInverts(8 * |x|, 8);
    BigEndianInverts(8 * |y|, 8);
    assert x == p[..|x|] && y == p[..|y|];
  }

  // ---- the word functions, bit by bit

  lemma AndBit(x: Word, y: Word, i: nat)
    requires i < 32
    ensures Bit(And(x, y), i) == if Bit(x, i) == 1 && Bit(y, i) == 1 then 1 else 0
  {
    WordRange();
    BitwiseActsPerBit(AndGate, x, y, 32, i);
    hide Bitwise, Bit, Pow2;
  }

  lemma OrBit(x: Word, y: Word, i: nat)
    requires i < 32
    ensures Bit(Or(x, y), i) == if Bit(x, i) == 1 || Bit(y, i) == 1 then 1 else 0
  {
    WordRange();
    BitwiseActsPerBit(OrGate, x, y, 32, i);
    hide Bitwise, Bit, Pow2;
  }

  lemma XorBit(x: Word, y: Word, i: nat)
    requires i < 32
    ensures Bit(Xor(x, y), i) == (Bit(x, i) + Bit(y, i)) % 2
  {
    WordRange();
    BitwiseActsPerBit(XorGate, x, y, 32, i);
    hide Bitwise, Bit, Pow2;
  }

  lemma NotBit(x: Word, i: nat)
    requires i < 32
    ensures Bit(Not(x), i) == 1 - Bit(x, i)
  {
    WordRange();
    ComplementBit(x, 32, i);
    hide Bit, Pow2;
  }

  lemma {:induction false} ShrBit(x: Word, n: nat, i: nat)
    ensures Bit(Shr(x, n), i) == Bit(x, i + n)
  {
    if n > 0 {
      ShrBit(x / 2, n - 1, i);
    }
  }

  lemma {:induction false} ModuloKeepsBit(x: nat, n: nat, i: nat)
    requires i < n
    ensures Bit(x % Pow2(n), i) == Bit(x, i)
  {
    var p := Pow2(n - 1);
    assert Pow2(n) == 2 * p;
    HalfOfModulo(x, p);
    if i > 0 {
      ModuloKeepsBit(x / 2, n - 1, i - 1);
    }
  }

  lemma HalfOfModulo(x: nat, p: nat)
    requires p > 0
    ensures x % (2 * p) % 2 == x % 2 && x % (2 * p) / 2 == x / 2 % p
  {
    var q, r := x / (2 * p), x % (2 * p);
    var m := p * q;
    assert x == 2 * m + r;
    assert x / 2 == m + r / 2 && 0 <= r / 2 < p;
    RemainderUnique(x / 2, p, q, r / 2);
  }

  lemma RemainderUnique(n: nat, p: nat, q: nat, r: nat)
    requires n == p * q + r && r < p
    ensures n % p == r
  {
    QuotientUnique(n, p, q, r);
  }

  lemma {:induction false} ShlBit(x: Word, n: nat, i: nat)
    requires i < 32
    ensures Bit(Shl(x, n), i) == if i < n then 0 else Bit(x, i - n)
    decreases n
  {
    if n > 0 {
      var y := 2 * x % TWO32;
      ShlBit(y, n - 1, i);
      WordRange();
      if i >= n - 1 {
        ModuloKeepsBit(2 * x, 32, i - (n - 1));
        DoubleBit(x, i - (n - 1));
      }
      hide Pow2, Bit;
    }
  }

  lemma DoubleBit(x: nat, i: nat)
    ensures Bit(2 * x, i) == if i == 0 then 0 else Bit(x, i - 1)
  {
  }

  /** Rotation to the right by `n`: bit `i` comes from bit `i + n`, around the end. */
  lemma RotrBit(x: Word, n: nat, i: nat)
    requires n <= 32 && i < 32
    ensures Bit(Rotr(x, n), i) == Bit(x, (i + n) % 32)
  {
    hide Bit, Shr, Shl, Or, Pow2;
    ShrBit(x, n, i);
    ShlBit(x, 32 - n, i);
    OrBit(Shr(x, n), Shl(x, 32 - n), i);
    BeyondWord(x, i + n);
    if i + n < 32 {
      assert (i + n) % 32 == i + n;
    } else {
      assert n == 32 || (i + n) % 32 == i + n - 32;
    }
  }

  lemma BeyondWord(x: Word, i: nat)
    ensures i >= 32 ==> Bit(x, i) == 0
  {
    WordRange();
    if i >= 32 { HighBitsAreZero(x, 32, i); }
  }

  /** The first argument chooses between the other two. */
  lemma ChBit(x: Word, y: Word, z: Word, i: nat)
    requires i < 32
    ensures Bit(Ch(x, y, z), i) == if Bit(x, i) == 1 then Bit(y, i) else Bit(z, i)
  {
    AndBit(x, y, i);
    NotBit(x, i);
    AndBit(Not(x), z, i);
    XorBit(And(x, y), And(Not(x), z), i);
    hide Bit, And, Xor, Not;
  }

  /** What at least two of the three arguments say. */
  lemma MajBit(x: Word, y: Word, z: Word, i: nat)
    requires i < 32
    ensures Bit(Maj(x, y, z), i) == if Bit(x, i) + Bit(y, i) + Bit(z, i) >= 2 then 1 else 0
  {
    hide Bit, And, Xor;
    AndBit(x, y, i);
    AndBit(x, z, i);
    AndBit(y, z, i);
    XorThreeBit(And(x, y), And(x, z), And(y, z), i);
  }

  lemma XorThreeBit(x: Word, y: Word, z: Word, i: nat)
    requires i < 32
    ensures Bit(Xor(Xor(x, y), z), i) == (Bit(x, i) + Bit(y, i) + Bit(z, i)) % 2
  {
    XorBit(x, y, i);
    XorBit(Xor(x, y), z, i);
    hide Bit, Xor;
  }

  lemma BigSigmaBits(x: Word, i: nat)
    requires i < 32
    ensures Bit(BigSigma0(x), i) == (Bit(x, (i + 2) % 32) + Bit(x, (i + 13) % 32) + Bit(x, (i + 22) % 32)) % 2
    ensures Bit(BigSigma1(x), i) == (Bit(x, (i + 6) % 32) + Bit(x, (i + 11) % 32) + Bit(x, (i + 25) % 32)) % 2
  {
    RotrBit(x, 2, i);
    RotrBit(x, 13, i);
    RotrBit(x, 22, i);
    XorThreeBit(Rotr(x, 2), Rotr(x, 13), Rotr(x, 22), i);
    RotrBit(x, 6, i);
    RotrBit(x, 11, i);
    RotrBit(x, 25, i);
    XorThreeBit(Rotr(x, 6), Rotr(x, 11), Rotr(x, 25), i);
    hide Bit, Rotr, Xor;
  }

  /** The shifted term brings in zeros from above. */
  lemma SmallSigmaBits(x: Word, i: nat)
    requires i < 32
    ensures Bit(SmallSigma0(x), i) == (Bit(x, (i + 7) % 32) + Bit(x, (i + 18) % 32) + if i + 3 < 32 then Bit(x, i + 3) else 0) % 2
    ensures Bit(SmallSigma1(x), i) == (Bit(x, (i + 17) % 32) + Bit(x, (i + 19) % 32) + if i + 10 < 32 then Bit(x, i + 10) else 0) % 2
  {
    hide Bit, Rotr, Shr, Xor, Pow2;
    RotrBit(x, 7, i);
    RotrBit(x, 18, i);
    ShrBit(x, 3, i);
    BeyondWord(x, i + 3);
    XorThreeBit(Rotr(x, 7), Rotr(x, 18), Shr(x, 3), i);
    RotrBit(x, 17, i);
    RotrBit(x, 19, i);
    ShrBit(x, 10, i);
    BeyondWord(x, i + 10);
    XorThreeBit(Rotr(x, 17), Rotr(x, 19), Shr(x, 10), i);
  }

  // ---- the layout of padding, schedule and digest

  /** Message, marker, zeros, and the bit length that can be read back. */
  lemma PadLayout(msg: seq<Byte>)
    requires 8 * |msg| < Pow2(64)
    ensures var p, n := Pad(msg), |msg|;
            && p[..n] == msg && p[n] == 0x80
            && (forall i :: n < i < |p| - 8 ==> p[i] == 0)
            && FromBigEndian(p[|p| - 8..]) == 8 * n
  {
    var p, n := Pad(msg), |msg|;
    assert p[|p| - 8..] == BigEndian(8 * n, 8);
    BigEndianInverts(8 * n, 8);
    hide BigEndian, FromBigEndian, Pow2;
  }

  /** Each schedule word is four message bytes, or the sum of four earlier words, reduced once. */
  lemma {:induction false} ScheduleAt(m: seq<Byte>, off: nat, n: nat, t: nat)
    requires off + 64 <= |m| && t < n
    ensures var w := Schedule(m, off, n);
            w[t] == if t < 16 then FromBigEndian(m[off + 4 * t..off + 4 * t + 4])
                    else (w[t - 16] + SmallSigma0(w[t - 15]) + w[t - 7] + SmallSigma1(w[t - 2])) % TWO32
  {
    hide Schedule, SmallSigma0, SmallSigma1, FromBigEndian, Add;
    ScheduleStep(m, off, n);
    var w, w' := Schedule(m, off, n), Schedule(m, off, n - 1);
    assert forall k :: 0 <= k < n - 1 ==> w[k] == w'[k];
    if t < n - 1 {
      ScheduleAt(m, off, n - 1, t);
    } else if t < 16 {
      FourBytes(m, off + 4 * t);
    } else {
      FourTerms(w[t - 16], SmallSigma0(w[t - 15]), w[t - 7], SmallSigma1(w[t - 2]));
    }
  }

  lemma ScheduleStep(m: seq<Byte>, off: nat, n: nat)
    requires off + 64 <= |m| && n > 0
    ensures var w, t := Schedule(m, off, n - 1), n - 1;
            Schedule(m, off, n) == w + [if t < 16 then WordAt(m, off + 4 * t)
                                        else Add(Add(Add(SmallSigma1(w[t - 2]), w[t - 7]), SmallSigma0(w[t - 15])), w[t - 16])]
  {
    hide SmallSigma0, SmallSigma1;
  }

  lemma FourTerms(a: Word, b: Word, c: Word, d: Word)
    ensures Add(Add(Add(d, c), b), a) == (a + b + c + d) % TWO32
  {
    ReduceLater(d + c, b);
    ReduceLater(d + c + b, a);
  }

  lemma FourBytes(m: seq<Byte>, i: nat)
    requires i + 4 <= |m|
    ensures FromBigEndian(m[i..i + 4]) == WordAt(m, i)
  {
    var s := m[i..i + 4];
    assert s == [] + [s[0]] + [s[1]] + [s[2]] + [s[3]];
    FromBigEndianSnoc([], s[0]);
    FromBigEndianSnoc([] + [s[0]], s[1]);
    FromBigEndianSnoc([] + [s[0]] + [s[1]], s[2]);
    FromBigEndianSnoc([] + [s[0]] + [s[1]] + [s[2]], s[3]);
    hide FromBigEndian;
  }

  /** Word `i` of the state can be read at byte `4 i` of the digest. */
  lemma DigestWords(s: State)
    ensures var d := Digest(s);
            && FromBigEndian(d[0..4]) == s.a && FromBigEndian(d[4..8]) == s.b
            && FromBigEndian(d[8..12]) == s.c && FromBigEndian(d[12..16]) == s.d
            && FromBigEndian(d[16..20]) == s.e && FromBigEndian(d[20..24]) == s.f
            && FromBigEndian(d[24..28]) == s.g && FromBigEndian(d[28..32]) == s.h
  {
    WordRange();
    BigEndianInverts(s.a, 4);
    BigEndianInverts(s.b, 4);
    BigEndianInverts(s.c, 4);
    BigEndianInverts(s.d, 4);
    BigEndianInverts(s.e, 4);
    BigEndianInverts(s.f, 4);
    BigEndianInverts(s.g, 4);
    BigEndianInverts(s.h, 4);
    hide BigEndian, FromBigEndian, Pow2;
    DigestSlices(s);
  }

  lemma DigestSlices(s: State)
    ensures var d := Digest(s);
            && d[0..4] == BigEndian(s.a, 4) && d[4..8] == BigEndian(s.b, 4)
            && d[8..12] == BigEndian(s.c, 4) && d[12..16] == BigEndian(s.d, 4)
            && d[16..20] == BigEndian(s.e, 4) && d[20..24] == BigEndian(s.f, 4)
            && d[24..28] == BigEndian(s.g, 4) && d[28..32] == BigEndian(s.h, 4)
  {
    hide BigEndian;
  }

  // ---- the rounds as two sequences

  /** The values register `a` takes: those of d, c, b and a at first, then one for each round. */
  function A(s: State, w: seq<Word>, t: int): Word
    requires -3 <= t <= 64 && t <= |w|
    decreases t + 3, 0
  {
    if t == -3 then s.d else if t == -2 then s.c else if t == -1 then s.b else if t == 0 then s.a else
      (Mix(s, w, t - 1) + BigSigma0(A(s, w, t - 1)) + Maj(A(s, w, t - 1), A(s, w, t - 2), A(s, w, t - 3))) % TWO32
  }

  /** Likewise for register `e`. */
  function E(s: State, w: seq<Word>, t: int): Word
    requires -3 <= t <= 64 && t <= |w|
    decreases t + 3, 0
  {
    if t == -3 then s.h else if t == -2 then s.g else if t == -1 then s.f else if t == 0 then s.e else
      (A(s, w, t - 4) + Mix(s, w, t - 1)) % TWO32
  }

  /** The sum both share in round `t`. */
  function Mix(s: State, w: seq<Word>, t: nat): int
    requires t < 64 && t < |w|
    decreases t + 3, 1
  {
    E(s, w, t - 3) + BigSigma1(E(s, w, t)) + Ch(E(s, w, t), E(s, w, t - 1), E(s, w, t - 2)) + K(t) + w[t]
  }

  /** After `n` rounds the registers hold the last four values of both sequences, however the program shuffles them. */
  lemma {:induction false} RoundsAreTwoSequences(s: State, w: seq<Word>, n: nat)
    requires n <= 64 && n <= |w|
    ensures Rounds(s, w, n) == State(A(s, w, n), A(s, w, n - 1), A(s, w, n - 2), A(s, w, n - 3),
                                     E(s, w, n), E(s, w, n - 1), E(s, w, n - 2), E(s, w, n - 3))
  {
    hide Round, Rounds, A, E, Mix, K, BigSigma0, BigSigma1, Ch, Maj;
    if n > 0 {
      RoundsAreTwoSequences(s, w, n - 1);
      LastRound(s, w, n);
      RoundOnce(Rounds(s, w, n - 1), K(n - 1), w[n - 1]);
      SequencesStep(s, w, n);
    } else {
      SequencesStart(s, w);
    }
  }

  lemma LastRound(s: State, w: seq<Word>, n: nat)
    requires 0 < n <= 64 && n <= |w|
    ensures Rounds(s, w, n) == Round(Rounds(s, w, n - 1), K(n - 1), w[n - 1])
  {
    hide Round, K;
  }

  lemma SequencesStart(s: State, w: seq<Word>)
    ensures Rounds(s, w, 0) == State(A(s, w, 0), A(s, w, -1), A(s, w, -2), A(s, w, -3),
                                     E(s, w, 0), E(s, w, -1), E(s, w, -2), E(s, w, -3))
  {
  }

  lemma SequencesStep(s: State, w: seq<Word>, n: nat)
    requires 0 < n <= 64 && n <= |w|
    ensures A(s, w, n) == (Mix(s, w, n - 1) + BigSigma0(A(s, w, n - 1)) + Maj(A(s, w, n - 1), A(s, w, n - 2), A(s, w, n - 3))) % TWO32
    ensures E(s, w, n) == (A(s, w, n - 4) + Mix(s, w, n - 1)) % TWO32
    ensures Mix(s, w, n - 1) == E(s, w, n - 4) + BigSigma1(E(s, w, n - 1)) + Ch(E(s, w, n - 1), E(s, w, n - 2), E(s, w, n - 3)) + K(n - 1) + w[n - 1]
  {
    hide K, BigSigma0, BigSigma1, Ch, Maj;
  }

  /** One round, its sums reduced once. */
  lemma RoundOnce(s: State, kt: Word, wt: Word)
    ensures var mix := s.h + BigSigma1(s.e) + Ch(s.e, s.f, s.g) + kt + wt;
            Round(s, kt, wt) == State((mix + BigSigma0(s.a) + Maj(s.a, s.b, s.c)) % TWO32, s.a, s.b, s.c,
                                      (s.d + mix) % TWO32, s.e, s.f, s.g)
  {
    hide BigSigma0, BigSigma1, Ch, Maj, Add;
    FiveTerms(s.h, BigSigma1(s.e), Ch(s.e, s.f, s.g), kt, wt);
    SumsReduceOnce(s.h + BigSigma1(s.e) + Ch(s.e, s.f, s.g) + kt + wt, BigSigma0(s.a), Maj(s.a, s.b, s.c), s.d);
  }

  lemma FiveTerms(a: Word, b: Word, c: Word, d: Word, e: Word)
    ensures Add(Add(Add(Add(a, b), c), d), e) == (a + b + c + d + e) % TWO32
  {
    ReduceLater(a + b, c);
    ReduceLater(a + b + c, d);
    ReduceLater(a + b + c + d, e);
  }

  lemma ReduceLater(x: int, y: int)
    ensures (x % TWO32 + y) % TWO32 == (x + y) % TWO32
  {
  }

  lemma SumsReduceOnce(mix: nat, b: Word, c: Word, d: Word)
    ensures Add(mix % TWO32, Add(b, c)) == (mix + b + c) % TWO32
    ensures Add(d, mix % TWO32) == (d + mix) % TWO32
  {
    ReduceLater(b + c, mix % TWO32);
    ReduceLater(mix, b + c);
    ReduceLater(mix, d);
    assert (mix % TWO32 + (b + c)) % TWO32 == (mix + (b + c)) % TWO32;
  }

  /** A block adds its rounds to the chaining value, word by word. */
  lemma ChainAddsRounds(m: seq<Byte>, n: nat)
    requires 64 * (n + 1) <= |m|
    ensures Chain(m, 0) == H0
    ensures var h, r, h' := Chain(m, n), Rounds(Chain(m, n), Schedule(m, 64 * n, 64), 64), Chain(m, n + 1);
            && h'.a == (h.a + r.a) % TWO32 && h'.b == (h.b + r.b) % TWO32 && h'.c == (h.c + r.c) % TWO32 && h'.d == (h.d + r.d) % TWO32
            && h'.e == (h.e + r.e) % TWO32 && h'.f == (h.f + r.f) % TWO32 && h'.g == (h.g + r.g) % TWO32 && h'.h == (h.h + r.h) % TWO32
  {
    hide Chain, Rounds, Schedule;
    ChainUnfolds(m, n);
  }

  lemma ChainUnfolds(m: seq<Byte>, n: nat)
    requires 64 * (n + 1) <= |m|
    ensures Chain(m, 0) == H0
    ensures Chain(m, n + 1) == Plus(Rounds(Chain(m, n), Schedule(m, 64 * n, 64), 64), Chain(m, n))
  {
    hide Rounds, Schedule, Plus;
  }

  /** The hash covers every block of the padded message. */
  lemma HashUsesAllBlocks(msg: seq<Byte>, n: nat)
    requires |Pad(msg)| == 64 * n
    ensures Hash(msg) == Digest(Chain(Pad(msg), n))
  {
    assert |Pad(msg)| / 64 == n;
    hide Pad, Chain, Digest;
  }

  /** The second of the two hashes is of one block, the first digest. */
  lemma SecondHashIsOneBlock(msg: seq<Byte>, n: nat)
    requires |Pad(msg)| == 64 * n
    ensures var first := Digest(Chain(Pad(msg), n));
            |Pad(first)| == 64 && DoubleHash(msg) == Digest(Chain(Pad(first), 1))
  {
    hide Pad, Chain, Digest, Hash;
    var first := Digest(Chain(Pad(msg), n));
    HashUsesAllBlocks(msg, n);
    PadIsLeast(first, 64);
    assert 41 <= |Pad(first)| <= 64 && |Pad(first)| % 64 == 0;
    HashUsesAllBlocks(first, 1);
  }
}
