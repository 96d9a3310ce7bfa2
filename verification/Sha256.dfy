/**
 * The dashboard's own SHA-256, in JavaScript number semantics: bitwise operators take and give signed
 * 32-bit values, sums are exact integers inside the safe range of doubles, and `>>> 0` reduces them.
 * It is proved to compute the FIPS 180-4 function.
 */
module Sha256 {
  import opened Bits
  import opened Common
  import opened Sha256Spec

  // ---- JavaScript operators

  const TWO31 := 0x8000_0000

  /** Integers up to this magnitude are exact doubles. */
  const SAFE := 0x20_0000_0000_0000

  type Int32 = x: int | -TWO31 <= x < TWO31

  function ToUint32(x: int): (w: Word)
    ensures 0 <= x < TWO32 ==> w == x
  {
    x % TWO32
  }

  function ToInt32(x: int): (v: Int32)
    ensures -TWO31 <= x < TWO31 ==> v == x
  {
    var u := x % TWO32;
    if u < TWO31 then u else u - TWO32
  }

  function JsAnd(x: int, y: int): Int32 { ToInt32(And(ToUint32(x), ToUint32(y))) }

  function JsOr(x: int, y: int): Int32 { ToInt32(Or(ToUint32(x), ToUint32(y))) }

  function JsXor(x: int, y: int): Int32 { ToInt32(Xor(ToUint32(x), ToUint32(y))) }

  function JsNot(x: int): Int32 {
    var v: int := ToInt32(x);
    -v - 1
  }

  function JsShl(x: int, n: nat): Int32 { ToInt32(Shl(ToUint32(x), n)) }

  function JsShr(x: int, n: nat): int
    decreases n
  {
    var v: int := ToInt32(x);
    if n == 0 then v else JsShr(v / 2, n - 1)
  }

  function JsShrU(x: int, n: nat): Word { Shr(ToUint32(x), n) }

  /** Addition of doubles, used only where the sum is exact. */
  function JsAdd(x: int, y: int): int
    requires -SAFE <= x + y <= SAFE
  {
    x + y
  }

  function JsRotr(x: Word, n: nat): Word
    requires n <= 32
  {
    ToUint32(JsOr(JsShrU(x, n), JsShl(x, 32 - n)))
  }

  lemma SignIsForgotten(x: int)
    ensures ToUint32(ToInt32(x)) == ToUint32(x)
  {
  }

  lemma SumReduces(x: int, y: int)
    ensures ToUint32(x + y) == Add(ToUint32(x), ToUint32(y))
  {
  }

  lemma NotReduces(x: int)
    ensures ToUint32(JsNot(x)) == Not(ToUint32(x))
  {
  }

  lemma RotrIsRotr(x: Word, n: nat)
    requires n <= 32
    ensures JsRotr(x, n) == Rotr(x, n)
  {
    hide WordOp, Shr, Shl;
    SignIsForgotten(Shl(x, 32 - n));
    SignIsForgotten(Or(Shr(x, n), Shl(x, 32 - n)));
  }

  lemma XorReduces(x: int, y: int)
    ensures ToUint32(JsXor(x, y)) == Xor(ToUint32(x), ToUint32(y))
  {
    SignIsForgotten(Xor(ToUint32(x), ToUint32(y)));
  }

  lemma AndReduces(x: int, y: int)
    ensures ToUint32(JsAnd(x, y)) == And(ToUint32(x), ToUint32(y))
  {
    SignIsForgotten(And(ToUint32(x), ToUint32(y)));
  }

  lemma SumOfFive(h: Word, s: Int32, c: Int32, k: Word, w: Word)
    ensures ToUint32(JsAdd(JsAdd(JsAdd(JsAdd(h, s), c), k), w)) == Add(Add(Add(Add(h, ToUint32(s)), ToUint32(c)), k), w)
  {
    SumReduces(h, s);
    SumReduces(h + s, c);
    SumReduces(h + s + c, k);
    SumReduces(h + s + c + k, w);
  }

  lemma SumOfFour(w16: Word, s0: Int32, w7: Word, s1: Int32)
    ensures ToUint32(JsAdd(JsAdd(JsAdd(w16, s0), w7), s1)) == Add(Add(Add(ToUint32(s1), w7), ToUint32(s0)), w16)
  {
    SumReduces(w16, s0);
    SumReduces(w16 + s0, w7);
    SumReduces(w16 + s0 + w7, s1);
    AddShuffle(w16, ToUint32(s0), w7, ToUint32(s1));
  }

  lemma AddShuffle(a: Word, b: Word, c: Word, d: Word)
    ensures Add(Add(Add(a, b), c), d) == Add(Add(Add(d, c), b), a)
  {
    SumReduces(a, b);
    SumReduces(a + b, c);
    SumReduces(a + b + c, d);
    SumReduces(d, c);
    SumReduces(d + c, b);
    SumReduces(d + c + b, a);
    hide Add, ToUint32;
  }

  // ---- the expressions of the inner loops

  function JsXor3(x: int, y: int, z: int): Int32 { JsXor(JsXor(x, y), z) }

  lemma Xor3Reduces(x: int, y: int, z: int)
    ensures ToUint32(JsXor3(x, y, z)) == Xor(Xor(ToUint32(x), ToUint32(y)), ToUint32(z))
  {
    hide WordOp, ToUint32, ToInt32;
    XorReduces(x, y);
    XorReduces(JsXor(x, y), z);
  }

  function JsCh(e: Word, f: Word, g: Word): Int32 { JsXor(JsAnd(e, f), JsAnd(JsNot(e), g)) }

  lemma ChReduces(e: Word, f: Word, g: Word)
    ensures ToUint32(JsCh(e, f, g)) == Ch(e, f, g)
  {
    hide WordOp, ToUint32, ToInt32;
    AndReduces(e, f);
    NotReduces(e);
    AndReduces(JsNot(e), g);
    XorReduces(JsAnd(e, f), JsAnd(JsNot(e), g));
  }

  lemma MajReduces(a: Word, b: Word, c: Word)
    ensures ToUint32(JsXor3(JsAnd(a, b), JsAnd(a, c), JsAnd(b, c))) == Maj(a, b, c)
  {
    hide WordOp, JsAnd, JsXor3;
    AndReduces(a, b);
    AndReduces(a, c);
    AndReduces(b, c);
    Xor3Reduces(JsAnd(a, b), JsAnd(a, c), JsAnd(b, c));
  }

  function JsT1(s: State, kt: Word, wt: Word): Word {
    var S1 := JsXor3(JsRotr(s.e, 6), JsRotr(s.e, 11), JsRotr(s.e, 25));
    ToUint32(JsAdd(JsAdd(JsAdd(JsAdd(s.h, S1), JsCh(s.e, s.f, s.g)), kt), wt))
  }

  lemma T1Reduces(s: State, kt: Word, wt: Word)
    ensures JsT1(s, kt, wt) == Add(Add(Add(Add(s.h, BigSigma1(s.e)), Ch(s.e, s.f, s.g)), kt), wt)
  {
    hide WordOp, Rotr, JsRotr, JsXor3, JsCh, Ch, ToUint32, ToInt32, Add, K;
    var S1, ch := JsXor3(JsRotr(s.e, 6), JsRotr(s.e, 11), JsRotr(s.e, 25)), JsCh(s.e, s.f, s.g);
    RotrIsRotr(s.e, 6);
    RotrIsRotr(s.e, 11);
    RotrIsRotr(s.e, 25);
    Xor3Reduces(JsRotr(s.e, 6), JsRotr(s.e, 11), JsRotr(s.e, 25));
    ChReduces(s.e, s.f, s.g);
    SumOfFive(s.h, S1, ch, kt, wt);
  }

  function JsT2(s: State): Word {
    ToUint32(JsAdd(JsXor3(JsRotr(s.a, 2), JsRotr(s.a, 13), JsRotr(s.a, 22)),
                   JsXor3(JsAnd(s.a, s.b), JsAnd(s.a, s.c), JsAnd(s.b, s.c))))
  }

  lemma T2Reduces(s: State)
    ensures JsT2(s) == Add(BigSigma0(s.a), Maj(s.a, s.b, s.c))
  {
    hide WordOp, Rotr, JsRotr, JsXor3, JsAnd, Maj, ToInt32, Add, K;
    RotrIsRotr(s.a, 2);
    RotrIsRotr(s.a, 13);
    RotrIsRotr(s.a, 22);
    Xor3Reduces(JsRotr(s.a, 2), JsRotr(s.a, 13), JsRotr(s.a, 22));
    MajReduces(s.a, s.b, s.c);
    SumReduces(JsXor3(JsRotr(s.a, 2), JsRotr(s.a, 13), JsRotr(s.a, 22)),
               JsXor3(JsAnd(s.a, s.b), JsAnd(s.a, s.c), JsAnd(s.b, s.c)));
  }

  function JsExtend(w16: Word, w15: Word, w7: Word, w2: Word): Word {
    var s0 := JsXor3(JsRotr(w15, 7), JsRotr(w15, 18), JsShrU(w15, 3));
    var s1 := JsXor3(JsRotr(w2, 17), JsRotr(w2, 19), JsShrU(w2, 10));
    ToUint32(JsAdd(JsAdd(JsAdd(w16, s0), w7), s1))
  }

  lemma ExtendReduces(w16: Word, w15: Word, w7: Word, w2: Word)
    ensures JsExtend(w16, w15, w7, w2) == Add(Add(Add(SmallSigma1(w2), w7), SmallSigma0(w15)), w16)
  {
    hide WordOp, Rotr, JsRotr, JsXor3, ToUint32, ToInt32, Add, Shr;
    var s0 := JsXor3(JsRotr(w15, 7), JsRotr(w15, 18), JsShrU(w15, 3));
    var s1 := JsXor3(JsRotr(w2, 17), JsRotr(w2, 19), JsShrU(w2, 10));
    RotrIsRotr(w15, 7);
    RotrIsRotr(w15, 18);
    RotrIsRotr(w2, 17);
    RotrIsRotr(w2, 19);
    Xor3Reduces(JsRotr(w15, 7), JsRotr(w15, 18), JsShrU(w15, 3));
    Xor3Reduces(JsRotr(w2, 17), JsRotr(w2, 19), JsShrU(w2, 10));
    SumOfFour(w16, s0, w7, s1);
  }

  // ---- the typed-array program

  const MAX_LENGTH := 0x7fff_ffff - 72

  /** DataView.setUint32: big-endian. */
  method SetUint32(a: array<Byte>, off: nat, v: int)
    requires off + 4 <= a.Length
    modifies a
    ensures a[..] == old(a[..off]) + BigEndian(ToUint32(v), 4) + old(a[off + 4..])
  {
    var u := ToUint32(v);
    a[off], a[off + 1], a[off + 2], a[off + 3] := u / 0x100_0000, u / 0x1_0000 % 256, u / 0x100 % 256, u % 256;
    BigEndian4(u);
  }

  lemma BigEndian4(u: Word)
    ensures BigEndian(u, 4) == [u / 0x100_0000, u / 0x1_0000 % 256, u / 0x100 % 256, u % 256]
  {
    assert BigEndian(u, 1) == [u % 256];
    assert BigEndian(u, 2) == BigEndian(u / 256, 1) + [u % 256];
  }

  lemma {:induction false} BigEndianJoin(hi: nat, lo: nat, m: nat, n: nat)
    requires lo < Pow2(8 * n)
    ensures BigEndian(hi * Pow2(8 * n) + lo, m + n) == BigEndian(hi, m) + BigEndian(lo, n)
    decreases n
  {
    hide BigEndian, Pow2;
    if n > 0 {
      var p := Pow2(8 * (n - 1));
      BytePower(n - 1);
      ShiftDigit(hi, p, lo);
      BigEndianJoin(hi, lo / 256, m, n - 1);
      BigEndianLast(hi * (256 * p) + lo, m + n);
      BigEndianLast(lo, n);
      assert BigEndian(hi, m) + (BigEndian(lo / 256, n - 1) + [lo % 256]) == BigEndian(hi, m) + BigEndian(lo / 256, n - 1) + [lo % 256];
    } else {
      NoBytes(lo);
      assert BigEndian(hi, m) + [] == BigEndian(hi, m);
    }
  }

  lemma NoBytes(v: nat)
    ensures Pow2(8 * 0) == 1 && BigEndian(v, 0) == []
  {
  }

  lemma BigEndianLast(v: nat, n: nat)
    requires n > 0
    ensures BigEndian(v, n) == BigEndian(v / 256, n - 1) + [v % 256]
  {
  }

  lemma ShiftDigit(hi: nat, p: nat, lo: nat)
    requires lo < 256 * p
    ensures (hi * (256 * p) + lo) / 256 == hi * p + lo / 256
    ensures (hi * (256 * p) + lo) % 256 == lo % 256
    ensures lo / 256 < p
  {
    var x := hi * p;
    assert hi * (256 * p) == 256 * x;
  }

  lemma BigEndian8(v: nat)
    ensures BigEndian(v, 8) == BigEndian(v / TWO32, 4) + BigEndian(v % TWO32, 4)
  {
    hide BigEndian, Pow2;
    WordRange();
    BigEndianJoin(v / TWO32, v % TWO32, 4, 4);
  }

  /** `((len + 72) >> 6) << 6` rounds up to whole blocks without leaving 32 bits. */
  lemma BlockRound(len: nat)
    requires len <= MAX_LENGTH
    ensures JsShl(JsShr(len + 72, 6), 6) == len + 9 + ZeroCount(len)
  {
    var n := len + 72;
    hide JsShr, JsShl, ZeroCount;
    RoundUp(len);
    ShrSix(n);
    ShlSix(n / 64);
  }

  lemma RoundUp(len: nat)
    ensures 64 * ((len + 72) / 64) == len + 9 + ZeroCount(len)
  {
    var q, r := len / 64, len % 64;
    assert len + 72 == 64 * q + (r + 72);
    if r <= 55 {
      assert ZeroCount(len) == 55 - r;
    } else {
      assert ZeroCount(len) == 119 - r;
    }
  }

  lemma ShrStep(n: nat, k: nat)
    requires n < TWO31 && k > 0
    ensures JsShr(n, k) == JsShr(n / 2, k - 1)
  {
  }

  lemma ShrSix(n: nat)
    requires n < TWO31
    ensures JsShr(n, 6) == n / 64
  {
    ShrTwo(n, 6);
    ShrTwo(n / 4, 4);
    ShrTwo(n / 16, 2);
  }

  lemma ShrTwo(n: nat, k: nat)
    requires n < TWO31 && k >= 2
    ensures JsShr(n, k) == JsShr(n / 4, k - 2)
  {
    ShrStep(n, k);
    ShrStep(n / 2, k - 1);
  }

  lemma ShlStep(x: Word, k: nat)
    requires 2 * x < TWO32 && k > 0
    ensures Shl(x, k) == Shl(2 * x, k - 1)
  {
  }

  lemma ShlZero(x: Word)
    ensures Shl(x, 0) == x
  {
  }

  lemma ShlSix(x: nat)
    requires 64 * x < TWO31
    ensures JsShl(x, 6) == 64 * x
  {
    hide Shl;
    ShlStep(x, 6);
    ShlStep(2 * x, 5);
    ShlStep(4 * x, 4);
    ShlStep(8 * x, 3);
    ShlStep(16 * x, 2);
    ShlStep(32 * x, 1);
    ShlZero(64 * x);
  }

  lemma PadParts(msg: seq<Byte>)
    ensures var bits := |msg| * 8;
            Pad(msg) == msg + [0x80] + Zeros(ZeroCount(|msg|)) + BigEndian(bits / TWO32, 4) + BigEndian(bits % TWO32, 4)
  {
    hide Zeros, ZeroCount, BigEndian;
    BigEndian8(8 * |msg|);
  }

  method PadMessage(msg: seq<Byte>) returns (padded: array<Byte>)
    requires |msg| <= MAX_LENGTH
    ensures fresh(padded) && padded[..] == Pad(msg)
  {
    hide Pad, Zeros, ZeroCount, BigEndian, JsShl, JsShr, ToUint32;
    var len := |msg|;
    BlockRound(len);
    var total := JsShl(JsShr(len + 9 + 63, 6), 6);
    padded := CopyInto(msg, total);
    padded[len] := 0x80;
    ghost var body := msg + [0x80] + Zeros(ZeroCount(len));
    ZerosAreZero(ZeroCount(len));
    assert padded[..total - 8] == body;
    var bits := len * 8;
    SetUint32(padded, total - 8, bits / TWO32);
    SetUint32(padded, total - 4, ToUint32(bits));
    PadParts(msg);
    HighWord(bits);
  }

  lemma HighWord(bits: nat)
    requires bits <= SAFE
    ensures ToUint32(bits / TWO32) == bits / TWO32 && ToUint32(ToUint32(bits)) == bits % TWO32
  {
  }

  lemma ZerosAreZero(n: nat)
    ensures |Zeros(n)| == n && forall i :: 0 <= i < n ==> Zeros(n)[i] == 0
  {
  }

  /** A zeroed buffer of `total` bytes starting with `msg`. */
  method CopyInto(msg: seq<Byte>, total: nat) returns (padded: array<Byte>)
    requires |msg| <= total
    ensures fresh(padded) && padded.Length == total && padded[..|msg|] == msg
    ensures forall i :: |msg| <= i < total ==> padded[i] == 0
  {
    padded := new Byte[total](_ => 0);
    forall i | 0 <= i < |msg| {
      padded[i] := msg[i];
    }
  }

  method ExpandSchedule(padded: array<Byte>, off: nat, w: array<Word>)
    requires off + 64 <= padded.Length && w.Length == 64
    modifies w
    ensures w[..] == Schedule(padded[..], off, 64)
  {
    hide JsExtend, SmallSigma0, SmallSigma1, Add;
    ghost var m := padded[..];
    for i := 0 to 16
      invariant padded[..] == m && w[..i] == Schedule(m, off, i)
    {
      w[i] := WordAt(padded[..], off + i * 4);
      assert w[..i + 1] == w[..i] + [w[i]];
    }
    for i := 16 to 64
      invariant padded[..] == m && w[..i] == Schedule(m, off, i)
    {
      ExtendReduces(w[i - 16], w[i - 15], w[i - 7], w[i - 2]);
      w[i] := JsExtend(w[i - 16], w[i - 15], w[i - 7], w[i - 2]);
      assert w[..i + 1] == w[..i] + [w[i]];
    }
    assert w[..64] == w[..];
  }

  ghost function StateOf(h: seq<Word>): State
    requires |h| == 8
  {
    State(h[0], h[1], h[2], h[3], h[4], h[5], h[6], h[7])
  }

  lemma RoundReduces(s: State, kt: Word, wt: Word)
    ensures var t1, t2 := JsT1(s, kt, wt), JsT2(s);
            Round(s, kt, wt) == State(ToUint32(JsAdd(t1, t2)), s.a, s.b, s.c, ToUint32(JsAdd(s.d, t1)), s.e, s.f, s.g)
  {
    hide JsT1, JsT2, BigSigma0, BigSigma1, Ch, Maj;
    T1Reduces(s, kt, wt);
    T2Reduces(s);
  }

  /** One pass of the 64 compression rounds over the eight working registers. */
  method RunRounds(s: State, w: array<Word>) returns (r: State)
    requires w.Length == 64
    ensures r == Rounds(s, w[..], 64)
  {
    hide Round, Rounds, JsT1, JsT2, K, ToUint32;
    var a, b, c, d, e, f, g, hh := s.a, s.b, s.c, s.d, s.e, s.f, s.g, s.h;
    RoundsFromStart(s, w[..]);
    for i := 0 to 64
      invariant State(a, b, c, d, e, f, g, hh) == Rounds(s, w[..], i)
    {
      RoundReduces(State(a, b, c, d, e, f, g, hh), K(i), w[i]);
      RoundsStep(s, w[..], i);
      var t1 := JsT1(State(a, b, c, d, e, f, g, hh), K(i), w[i]);
      var t2 := JsT2(State(a, b, c, d, e, f, g, hh));
      hh := g;
      g := f;
      f := e;
      e := ToUint32(JsAdd(d, t1));
      d := c;
      c := b;
      b := a;
      a := ToUint32(JsAdd(t1, t2));
    }
    r := State(a, b, c, d, e, f, g, hh);
  }

  lemma RoundsFromStart(s: State, w: seq<Word>)
    ensures Rounds(s, w, 0) == s
  {
  }

  lemma RoundsStep(s: State, w: seq<Word>, i: nat)
    requires i < 64 && i < |w|
    ensures Rounds(s, w, i + 1) == Round(Rounds(s, w, i), K(i), w[i])
  {
    hide Round, K;
  }

  method Compress(h: array<Word>, w: array<Word>)
    requires h.Length == 8 && w.Length == 64 && h != w
    modifies h
    ensures StateOf(h[..]) == Plus(Rounds(old(StateOf(h[..])), w[..], 64), old(StateOf(h[..])))
  {
    hide Rounds;
    var r := RunRounds(State(h[0], h[1], h[2], h[3], h[4], h[5], h[6], h[7]), w);
    h[0], h[1] := ToUint32(JsAdd(h[0], r.a)), ToUint32(JsAdd(h[1], r.b));
    h[2], h[3] := ToUint32(JsAdd(h[2], r.c)), ToUint32(JsAdd(h[3], r.d));
    h[4], h[5] := ToUint32(JsAdd(h[4], r.e)), ToUint32(JsAdd(h[5], r.f));
    h[6], h[7] := ToUint32(JsAdd(h[6], r.g)), ToUint32(JsAdd(h[7], r.h));
  }

  method WriteDigest(h: array<Word>) returns (out: seq<Byte>)
    requires h.Length == 8
    ensures out == Digest(StateOf(h[..]))
  {
    var buf := new Byte[32](_ => 0);
    for i := 0 to 8
      invariant buf[..4 * i] == DigestPrefix(h[..], i)
    {
      SetUint32(buf, i * 4, h[i]);
    }
    out := buf[..];
    DigestIsPrefix(h[..]);
  }

  ghost function DigestPrefix(h: seq<Word>, n: nat): (d: seq<Byte>)
    requires n <= |h|
    ensures |d| == 4 * n
  {
    if n == 0 then [] else DigestPrefix(h, n - 1) + BigEndian(h[n - 1], 4)
  }

  lemma DigestIsPrefix(h: seq<Word>)
    requires |h| == 8
    ensures DigestPrefix(h, 8) == Digest(StateOf(h))
  {
    hide BigEndian;
    assert DigestPrefix(h, 0) == [];
    assert DigestPrefix(h, 2) == BigEndian(h[0], 4) + BigEndian(h[1], 4);
    assert DigestPrefix(h, 4) == DigestPrefix(h, 3) + BigEndian(h[3], 4);
    assert DigestPrefix(h, 6) == DigestPrefix(h, 5) + BigEndian(h[5], 4);
  }

  lemma ChainStep(m: seq<Byte>, n: nat)
    requires 64 * (n + 1) <= |m|
    ensures Chain(m, n + 1) == Plus(Rounds(Chain(m, n), Schedule(m, 64 * n, 64), 64), Chain(m, n))
  {
    hide Schedule, Rounds, Plus;
  }

  method HashBlock(padded: array<Byte>, off: nat, h: array<Word>, w: array<Word>)
    requires off + 64 <= padded.Length && h.Length == 8 && w.Length == 64 && h != w
    modifies h, w
    ensures var before := old(StateOf(h[..]));
            StateOf(h[..]) == Plus(Rounds(before, Schedule(padded[..], off, 64), 64), before)
  {
    hide Schedule, Rounds, Plus, StateOf;
    ExpandSchedule(padded, off, w);
    ghost var words := w[..];
    assert h[..] == old(h[..]);
    Compress(h, w);
  }

  method HashBlocks(padded: array<Byte>, h: array<Word>, w: array<Word>)
    requires padded.Length % 64 == 0 && h.Length == 8 && w.Length == 64 && h != w
    requires StateOf(h[..]) == H0
    modifies h, w
    ensures StateOf(h[..]) == Chain(padded[..], padded.Length / 64)
  {
    hide *;
    ghost var m := padded[..];
    var blocks := padded.Length / 64;
    ChainStart(m);
    for k := 0 to blocks
      invariant padded[..] == m
      invariant StateOf(h[..]) == Chain(m, k)
    {
      HashBlock(padded, 64 * k, h, w);
      ChainStep(m, k);
    }
  }

  lemma ChainStart(m: seq<Byte>)
    ensures Chain(m, 0) == H0
  {
  }

  /** The program computes FIPS 180-4 SHA-256 of every message its index arithmetic can address. */
  method Sha256(msg: seq<Byte>) returns (out: seq<Byte>)
    requires |msg| <= MAX_LENGTH
    ensures out == Hash(msg)
  {
    hide Chain, Pad, Digest;
    var padded := PadMessage(msg);
    var h := new Word[8][0x6a09e667, 0xbb67ae85, 0x3c6ef372, 0xa54ff53a, 0x510e527f, 0x9b05688c, 0x1f83d9ab, 0x5be0cd19];
    var w := new Word[64](_ => 0);
    HashBlocks(padded, h, w);
    out := WriteDigest(h);
  }

  method Sha256d(msg: seq<Byte>) returns (out: seq<Byte>)
    requires |msg| <= MAX_LENGTH
    ensures out == DoubleHash(msg)
  {
    var once := Sha256(msg);
    out := Sha256(once);
  }
}
