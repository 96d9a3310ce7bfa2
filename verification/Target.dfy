/** Difficulty targets as 256-bit numbers in hex, and leading zero bits. */
module Target {
  import opened Bits
  import opened Common
  import opened Sha256Spec
  import opened Hex

  /** The difficulty-1 target. */
  const DIFF1 := 0xFFFF_0000_0000_0000_0000_0000_0000_0000_0000_0000_0000_0000_0000_0000

  /** Difficulties are scaled by 2^48 before the exact division. */
  const SCALE := 0x1_0000_0000_0000

  const TWO256 := 0x1_0000_0000_0000_0000_0000_0000_0000_0000_0000_0000_0000_0000_0000_0000_0000_0000

  // ---- values of hex text

  function HexValue(s: string): nat
    requires IsHex(s)
  {
    if s == "" then 0 else 16 * HexValue(s[..|s| - 1]) + DigitValue(s[|s| - 1])
  }

  lemma {:induction false} ValueBound(s: string)
    requires IsHex(s)
    ensures HexValue(s) < Pow2(4 * |s|)
  {
    if s != "" {
      ValueBound(s[..|s| - 1]);
      Pow2Sum(4, 4 * |s| - 4);
      assert Pow2(4) == 16;
    }
  }

  lemma {:induction false} ToString16Value(n: nat)
    ensures HexValue(ToString16(n)) == n
    ensures n > 0 ==> Pow2(4 * |ToString16(n)| - 4) <= n
  {
    if n >= 16 {
      var s := ToString16(n / 16);
      ToString16Value(n / 16);
      assert ToString16(n) == s + [DigitOf(n % 16)];
      SnocValue(s, n % 16);
      NextDigit(|s|);
      hide Pow2, HexValue, ToString16, DigitOf;
    } else {
      assert ToString16(n) == "" + [DigitOf(n)];
      SnocValue("", n);
    }
  }

  lemma NextDigit(n: nat)
    requires n > 0
    ensures Pow2(4 * n) == 16 * Pow2(4 * n - 4)
  {
    Pow2Sum(4, 4 * n - 4);
    assert Pow2(4) == 16;
  }

  lemma SnocValue(s: string, d: int)
    requires IsHex(s) && 0 <= d < 16
    ensures IsHex(s + [DigitOf(d)]) && HexValue(s + [DigitOf(d)]) == 16 * HexValue(s) + d
  {
    assert (s + [DigitOf(d)])[..|s|] == s;
  }

  lemma {:induction false} LeadingZeroDigit(s: string)
    requires IsHex(s)
    ensures IsHex("0" + s) && HexValue("0" + s) == HexValue(s)
  {
    if s != "" {
      LeadingZeroDigit(s[..|s| - 1]);
      assert ("0" + s)[..|s|] == "0" + s[..|s| - 1];
    } else {
      assert "0" + s == "0" && "0"[..0] == "";
    }
  }

  lemma {:induction false} PadStartValue(s: string, width: nat)
    requires IsHex(s)
    ensures var p := PadStart(s, width);
            && |p| == (if |s| >= width then |s| else width)
            && IsHex(p) && HexValue(p) == HexValue(s)
    decreases width - |s|
  {
    if |s| < width {
      LeadingZeroDigit(s);
      PadStartValue("0" + s, width);
    }
  }

  lemma SquarePow(n: nat, v: int)
    requires Pow2(n) == v
    ensures Pow2(2 * n) == v * v
  {
    Pow2Sum(n, n);
  }

  lemma Pow256()
    ensures Pow2(256) == TWO256
  {
    WordRange();
    hide Pow2;
    SquarePow(32, TWO32);
    SquarePow(64, 0x1_0000_0000_0000_0000);
    SquarePow(128, 0x1_0000_0000_0000_0000_0000_0000_0000_0000);
  }

  // ---- the target of a difficulty

  function AllF(): (s: string)
    ensures |s| == 64
  {
    seq(64, _ => 'f')
  }

  /** The text for a scaled difficulty `d`; zero, negative or undefined difficulties give the top target. */
  function TargetText(d: int): string {
    if d <= 0 then AllF() else
      var s := PadStart(ToString16(DIFF1 * SCALE / d), 64);
      if |s| <= 64 then s else s[..64]
  }

  method TargetHex(d: int) returns (t: string)
    ensures t == TargetText(d)
  {
    if d <= 0 {
      return AllF();
    }
    var s := ToString16(DIFF1 * SCALE / d);
    ghost var s0 := s;
    while |s| < 64
      invariant PadStart(s, 64) == PadStart(s0, 64)
    {
      s := "0" + s;
    }
    t := if |s| <= 64 then s else s[..64];
  }

  lemma MeetsTargetIff(h: nat, n: nat, d: int)
    requires d > 0
    ensures h <= n / d <==> h * d <= n
  {
    var q, r := n / d, n % d;
    assert n == q * d + r;
    if h <= q {
      assert h * d <= q * d;
    } else {
      assert h * d >= (q + 1) * d;
    }
  }

  lemma QuotientRange(d: int)
    requires d > 0
    ensures DIFF1 * SCALE / d < TWO256 <==> d >= 0x1_0000
  {
    assert DIFF1 * SCALE == 0xFFFF * TWO256;
    MeetsTargetIff(TWO256, DIFF1 * SCALE, d);
  }

  /** The text always has 64 digits; it denotes the target exactly from scaled difficulty 2^16 up. */
  lemma TargetDenotesIff(d: int)
    requires d > 0
    ensures var t := TargetText(d);
            |t| == 64 && IsHex(t) && (HexValue(t) == DIFF1 * SCALE / d <==> d >= 0x1_0000)
  {
    var q := DIFF1 * SCALE / d;
    ToString16Value(q);
    PadStartValue(ToString16(q), 64);
    QuotientRange(d);
    FitsInSixtyFour(q);
    hide ToString16, PadStart, HexValue, IsDigit;
    if d < 0x1_0000 {
      SixtyFourDigitBound(TargetText(d));
    }
  }

  lemma FitsInSixtyFour(q: nat)
    ensures q < TWO256 ==> |ToString16(q)| <= 64
  {
    ToString16Value(q);
    Pow256();
    hide ToString16, HexValue, Pow2;
    if |ToString16(q)| > 64 && q > 0 {
      Pow2Monotone(256, 4 * |ToString16(q)| - 4);
    } else if q == 0 {
      ZeroText();
    }
  }

  lemma ZeroText()
    ensures |ToString16(0)| == 1
  {
  }

  lemma SixtyFourDigitBound(t: string)
    requires IsHex(t) && |t| == 64
    ensures HexValue(t) < TWO256
  {
    ValueBound(t);
    Pow256();
  }

  lemma {:induction false} Pow2Monotone(m: nat, n: nat)
    requires m <= n
    ensures Pow2(m) <= Pow2(n)
  {
    if m < n {
      Pow2Monotone(m, n - 1);
    }
  }

  // ---- targets and difficulties

  /** A greater difficulty never has a greater target. */
  lemma TargetAntitone(d: int, e: int)
    requires 0x1_0000 <= d <= e
    ensures IsHex(TargetText(d)) && IsHex(TargetText(e)) && HexValue(TargetText(e)) <= HexValue(TargetText(d))
  {
    TargetDenotesIff(d);
    TargetDenotesIff(e);
    QuotientAntitone(DIFF1 * SCALE, d, e);
  }

  lemma QuotientAntitone(n: nat, d: int, e: int)
    requires 0 < d <= e
    ensures n / e <= n / d
  {
    var q := n / e;
    MeetsTargetIff(q, n, e);
    assert q * d <= q * e;
    MeetsTargetIff(q, n, d);
  }

  // ---- targets of difficulties below 2^16, whose text is cut

  /** Cutting digits off divides. */
  lemma {:induction false} PrefixValue(s: string, n: nat)
    requires IsHex(s) && n <= |s|
    ensures HexValue(s[..n]) == HexValue(s) / Pow2(4 * (|s| - n))
    decreases |s|
  {
    if n == |s| {
      assert s[..n] == s;
    } else {
      var t := s[..|s| - 1];
      PrefixValue(t, n);
      assert t[..n] == s[..n];
      NextDigit(|s| - n);
      assert HexValue(t) == HexValue(s) / 16;
      DivideByProduct(HexValue(s), 16, Pow2(4 * (|t| - n)));
      hide HexValue, Pow2;
    }
  }

  lemma ManyDigits(q: nat, n: nat)
    requires n > 0 && Pow2(4 * n - 4) <= q < Pow2(4 * n)
    ensures |ToString16(q)| == n && HexValue(ToString16(q)) == q
  {
    var s := ToString16(q);
    ToString16Value(q);
    ValueBound(s);
    hide ToString16, HexValue, Pow2;
    if |s| < n {
      Pow2Monotone(4 * |s|, 4 * n - 4);
    } else if |s| > n {
      Pow2Monotone(4 * n, 4 * |s| - 4);
    }
  }

  lemma BigPowers()
    ensures Pow2(4) == 16 && Pow2(8) == 256 && Pow2(12) == 4096 && Pow2(16) == 0x1_0000
    ensures Pow2(256) == TWO256 && Pow2(260) == 16 * TWO256 && Pow2(264) == 256 * TWO256
    ensures Pow2(268) == 4096 * TWO256 && Pow2(272) == 0x1_0000 * TWO256
  {
    Pow256();
    SquarePow(4, 16);
    NextDigit(3);
    SquarePow(8, 256);
    NextDigit(65);
    NextDigit(66);
    NextDigit(67);
    NextDigit(68);
    hide Pow2;
  }

  /** The power of sixteen that the cut divides by. */
  function Cut(d: int): int {
    if d < 16 then 0x1_0000 else if d < 256 then 4096 else if d < 4096 then 256 else 16
  }

  function TargetValue(d: int): nat
    requires d > 0
  {
    TargetDenotesIff(d);
    HexValue(TargetText(d))
  }

  lemma CutText(q: nat, n: nat)
    requires n > 64 && Pow2(4 * n - 4) <= q < Pow2(4 * n)
    ensures var t := PadStart(ToString16(q), 64);
            |t| == n && IsHex(t) && HexValue(t[..64]) == q / Pow2(4 * (n - 64))
  {
    var s := ToString16(q);
    ManyDigits(q, n);
    assert PadStart(s, 64) == s;
    PrefixValue(s, 64);
    hide ToString16, HexValue, Pow2, PadStart;
  }

  lemma QuotientBetween(low: nat, d: int, high: nat, n: nat)
    requires d > 0 && low * d <= n < high * d
    ensures low <= n / d < high
  {
    MeetsTargetIff(low, n, d);
    MeetsTargetIff(high, n, d);
  }

  lemma CutAt(numerator: nat, d: int, n: nat)
    requires d > 0 && n > 64 && Pow2(4 * n - 4) * d <= numerator < Pow2(4 * n) * d
    ensures var t := PadStart(ToString16(numerator / d), 64);
            |t| == n && IsHex(t) && HexValue(t[..64]) == numerator / (d * Pow2(4 * (n - 64)))
  {
    hide *;
    QuotientBetween(Pow2(4 * n - 4), d, Pow2(4 * n), numerator);
    CutText(numerator / d, n);
    DivideByProduct(numerator, d, Pow2(4 * (n - 64)));
  }

  /** How many digits the quotient has. */
  function Digits(d: int): nat {
    if d < 16 then 68 else if d < 256 then 67 else if d < 4096 then 66 else 65
  }

  lemma DigitsFit(d: int)
    requires 0 < d < 0x1_0000
    ensures Pow2(4 * Digits(d) - 4) * d <= DIFF1 * SCALE < Pow2(4 * Digits(d)) * d
    ensures Pow2(4 * (Digits(d) - 64)) == Cut(d)
  {
    BigPowers();
    hide Pow2;
    assert DIFF1 * SCALE == 0xFFFF * TWO256;
  }

  /** Below 2^16 the text denotes the quotient divided once more, by the digits cut off. */
  lemma CutTargetValue(d: int)
    requires 0 < d < 0x1_0000
    ensures TargetValue(d) == DIFF1 * SCALE / (d * Cut(d))
  {
    DigitsFit(d);
    CutAt(DIFF1 * SCALE, d, Digits(d));
    assert Digits(d) > 64;
    hide Pow2, HexValue, ToString16, PadStart, Cut, Digits;
  }

  lemma QuotientFalls(n: int, a: int, m: int)
    requires n > 0 && 0 < a < m && n % a == 0
    ensures n / m < n / a
  {
    var q := n / a;
    assert n == q * a && q > 0;
    assert q * m > q * a;
    MeetsTargetIff(q, n, m);
  }

  lemma TargetAtMostTop(e: int)
    requires e > 0
    ensures TargetValue(e) <= DIFF1 * SCALE / 0x1_0000
  {
    TargetDenotesIff(e);
    if e < 0x1_0000 {
      CutTargetValue(e);
      QuotientAntitone(DIFF1 * SCALE, 0x1_0000, e * Cut(e));
    } else {
      QuotientAntitone(DIFF1 * SCALE, 0x1_0000, e);
    }
  }

  predicate PowerOfSixteen(d: int) {
    d == 1 || d == 16 || d == 256 || d == 4096
  }

  lemma CutReaches(d: int)
    requires 0 < d < 0x1_0000
    ensures d * Cut(d) >= 0x1_0000 && (d * Cut(d) == 0x1_0000 <==> PowerOfSixteen(d))
  {
  }

  lemma CutTargetFalls(d: int)
    requires 0 < d < 0x1_0000
    ensures if PowerOfSixteen(d) then TargetValue(d) == DIFF1 * SCALE / 0x1_0000 else TargetValue(d) < TargetValue(0x1_0000)
  {
    TargetDenotesIff(0x1_0000);
    assert TargetValue(0x1_0000) == DIFF1 * SCALE / 0x1_0000;
    CutTargetValue(d);
    CutReaches(d);
    hide TargetText, HexValue, TargetValue, Cut;
    if !PowerOfSixteen(d) {
      QuotientFalls(DIFF1 * SCALE, 0x1_0000, d * Cut(d));
    }
  }

  /** No greater difficulty has a greater target exactly from 2^16 up, and at the four powers of sixteen below. */
  lemma LaterTargetsAreLowerIff(d: int)
    requires d > 0
    ensures (forall e :: e >= d ==> TargetValue(e) <= TargetValue(d)) <==> d >= 0x1_0000 || PowerOfSixteen(d)
  {
    if d >= 0x1_0000 {
      forall e | e >= d
        ensures TargetValue(e) <= TargetValue(d)
      {
        TargetAntitone(d, e);
      }
    } else {
      hide TargetValue;
      CutTargetFalls(d);
      if PowerOfSixteen(d) {
        forall e | e >= d
          ensures TargetValue(e) <= TargetValue(d)
        {
          TargetAtMostTop(e);
        }
      }
    }
  }

  /** Just below 2^16 the text loses its last digit, and a lower difficulty gets a smaller target. */
  lemma TinyDifficultyLosesDigit()
    ensures var low, high := TargetText(0xFFFF), TargetText(0x1_0000);
            IsHex(low) && IsHex(high) && HexValue(low) < HexValue(high)
  {
    TargetDenotesIff(0xFFFF);
    TargetDenotesIff(0x1_0000);
    CutTargetFalls(0xFFFF);
    assert TargetValue(0xFFFF) == HexValue(TargetText(0xFFFF)) && TargetValue(0x1_0000) == HexValue(TargetText(0x1_0000));
  }

  /** Difficulty of a hash in millionths, as `diffOfHash` computes it before its last division. */
  function MicroDifficulty(h: int): int
    requires h > 0
  {
    DIFF1 * 1_000_000 / h
  }

  /** A hash at most the target of `d` has at least that difficulty, to the millionth. */
  lemma HashBelowTargetHasDifficulty(h: int, d: int)
    requires h > 0 && d > 0 && h * d <= DIFF1 * SCALE
    ensures MicroDifficulty(h) >= d * 1_000_000 / SCALE
  {
    var x := d * 1_000_000 / SCALE;
    assert x * SCALE <= d * 1_000_000;
    assert (x * SCALE) * h <= (d * 1_000_000) * h;
    assert (d * 1_000_000) * h == (h * d) * 1_000_000;
    assert (x * SCALE) * h == (x * h) * SCALE;
    assert x * h <= DIFF1 * 1_000_000;
    MeetsTargetIff(x, DIFF1 * 1_000_000, h);
  }

  // ---- leading zero bits

  /** Zero bits in front of the first one bit of a digit. */
  function DigitZeros(v: int): int
    requires 0 <= v < 16
  {
    if v == 0 then 4 else if v < 2 then 3 else if v < 4 then 2 else if v < 8 then 1 else 0
  }

  function ZeroBits(h: string): (n: nat) {
    if h == "" || !IsDigit(h[0]) then 0
    else if DigitValue(h[0]) == 0 then 4 + ZeroBits(h[1..])
    else DigitZeros(DigitValue(h[0]))
  }

  method LeadingZeroBits(h: string) returns (bits: int)
    ensures bits == ZeroBits(h)
  {
    bits := 0;
    for i := 0 to |h|
      invariant ZeroBits(h) == bits + ZeroBits(h[i..])
    {
      ParseOneChar(h[i]);
      var v := ParseInt16([h[i]]);
      assert h[i..][1..] == h[i + 1..];
      if v == Some(0) {
        bits := bits + 4;
        continue;
      }
      // every comparison with NaN is false
      if v.Some? && v.value < 2 {
        bits := bits + 3;
      } else if v.Some? && v.value < 4 {
        bits := bits + 2;
      } else if v.Some? && v.value < 8 {
        bits := bits + 1;
      }
      break;
    }
  }

  /** The value from the most significant digit. */
  lemma {:induction false} ValueFromFront(s: string)
    requires IsHex(s) && s != ""
    ensures HexValue(s) == DigitValue(s[0]) * Pow2(4 * (|s| - 1)) + HexValue(s[1..])
  {
    var n := |s| - 1;
    if n == 0 {
      assert s[..0] == s[1..] == "";
    } else {
      var t := s[..n];
      ValueFromFront(t);
      assert s[1..][..n - 1] == t[1..];
      Pow2Sum(4, 4 * (n - 1));
      assert Pow2(4) == 16;
      FrontTimes16(DigitValue(s[0]), Pow2(4 * (n - 1)));
    }
  }

  lemma FrontTimes16(v: int, p: int)
    ensures 16 * (v * p) == v * (16 * p)
  {
  }

  /** The zero bits locate the value between two powers of two. */
  lemma {:induction false} ZeroBitsLocate(s: string)
    requires IsHex(s)
    ensures var v, z := HexValue(s), ZeroBits(s);
            && z <= 4 * |s|
            && v < Pow2(4 * |s| - z)
            && (if v == 0 then z == 4 * |s| else z < 4 * |s| && Pow2(4 * |s| - z - 1) <= v)
  {
    if s != "" {
      var d, r, k := DigitValue(s[0]), s[1..], 4 * (|s| - 1);
      ValueFromFront(s);
      ValueBound(r);
      if d == 0 {
        ZeroBitsLocate(r);
        hide HexValue, Pow2, DigitValue;
        assert 4 * |r| - ZeroBits(r) == 4 * |s| - ZeroBits(s);
        assert HexValue(s) == HexValue(r);
      } else {
        TopDigit(d, k, HexValue(r));
        hide HexValue, Pow2, DigitValue, DigitZeros;
        assert k + (4 - DigitZeros(d)) == 4 * |s| - ZeroBits(s);
      }
    }
  }

  lemma TopDigit(d: int, k: nat, rest: nat)
    requires 0 < d < 16 && rest < Pow2(k)
    ensures var b := 4 - DigitZeros(d);
            Pow2(k + b - 1) <= d * Pow2(k) + rest < Pow2(k + b)
  {
    var p := Pow2(k);
    assert Pow2(k + 1) == 2 * p;
    assert Pow2(k + 2) == 2 * Pow2(k + 1);
    assert Pow2(k + 3) == 2 * Pow2(k + 2);
    assert Pow2(k + 4) == 2 * Pow2(k + 3);
    hide Pow2;
    if d < 2 {
      MulBetween(1, d, 1, p);
    } else if d < 4 {
      MulBetween(2, d, 3, p);
    } else if d < 8 {
      MulBetween(4, d, 7, p);
    } else {
      MulBetween(8, d, 15, p);
    }
  }

  lemma MulBetween(low: int, d: int, high: int, p: int)
    requires low <= d <= high && p >= 0
    ensures low * p <= d * p <= high * p
  {
  }

  /** Among texts of equal length a smaller value never has fewer leading zero bits. */
  lemma SmallerHasMoreZeroBits(s: string, t: string)
    requires IsHex(s) && IsHex(t) && |s| == |t| && HexValue(s) <= HexValue(t)
    ensures ZeroBits(s) >= ZeroBits(t)
  {
    hide IsHex, HexValue, ZeroBits, Pow2;
    ZeroBitsLocate(s);
    ZeroBitsLocate(t);
    if ZeroBits(s) < ZeroBits(t) {
      Pow2Monotone(4 * |t| - ZeroBits(t), 4 * |s| - ZeroBits(s) - 1);
    }
  }

  function RequiredZeroBits(d: int): nat {
    if d <= 0 then 0 else ZeroBits(TargetText(d))
  }

  /** A 64-digit hash that reaches the difficulty shows at least the zero bits required of it. */
  lemma WinningHashHasRequiredZeroBits(hash: string, d: int)
    requires IsHex(hash) && |hash| == 64 && d >= 0x1_0000 && HexValue(hash) * d <= DIFF1 * SCALE
    ensures ZeroBits(hash) >= RequiredZeroBits(d)
  {
    TargetDenotesIff(d);
    MeetsTargetIff(HexValue(hash), DIFF1 * SCALE, d);
    SmallerHasMoreZeroBits(hash, TargetText(d));
  }

  /** Without a difficulty every hash qualifies: the text is 64 times f, the greatest 256-bit number, and asks for no zero bits. */
  lemma NoDifficultyIsTop(d: int)
    requires d <= 0
    ensures var t := TargetText(d);
            |t| == 64 && IsHex(t) && HexValue(t) == TWO256 - 1 && RequiredZeroBits(d) == 0 && ZeroBits(t) == 0
  {
    AllOnes(64);
    Pow256();
    hide Pow2;
    assert AllF() == seq(64, _ => 'f');
  }

  lemma {:induction false} AllOnes(n: nat)
    ensures var s := seq(n, _ => 'f'); IsHex(s) && HexValue(s) == Pow2(4 * n) - 1
  {
    if n > 0 {
      var s: string := seq(n, _ => 'f');
      assert s[..n - 1] == seq(n - 1, _ => 'f');
      AllOnes(n - 1);
      NextDigit(n);
      hide Pow2;
    }
  }

  /** The required zero bits are the most that every winning hash has: the target itself wins with no more. */
  lemma RequiredZeroBitsAreMost(d: int)
    requires d >= 0x1_0000
    ensures var t := TargetText(d);
            |t| == 64 && IsHex(t) && HexValue(t) * d <= DIFF1 * SCALE && ZeroBits(t) == RequiredZeroBits(d)
  {
    TargetDenotesIff(d);
    MeetsTargetIff(HexValue(TargetText(d)), DIFF1 * SCALE, d);
    hide TargetText, HexValue, ZeroBits;
  }

  /** The shown difficulty of a hash is the greatest number of millionths whose product with it stays within the numerator. */
  lemma MicroDifficultyIsGreatest(h: int, q: nat)
    requires h > 0
    ensures MicroDifficulty(h) >= q <==> q * h <= DIFF1 * 1_000_000
  {
    MeetsTargetIff(q, DIFF1 * 1_000_000, h);
  }

  /** A hash above the target of `d` shows less than difficulty `d`, rounded up to the millionth. */
  lemma HashAboveTargetHasLess(h: int, d: int)
    requires h > 0 && d > 0 && h * d > DIFF1 * SCALE
    ensures MicroDifficulty(h) * SCALE < d * 1_000_000
  {
    var m := MicroDifficulty(h);
    MicroDifficultyIsGreatest(h, m);
    assert (m * SCALE) * h == (m * h) * SCALE;
    assert (d * 1_000_000) * h == (h * d) * 1_000_000;
    CancelLess(m * SCALE, d * 1_000_000, h);
  }

  lemma CancelLess(x: int, y: int, h: int)
    requires h > 0 && x * h < y * h
    ensures x < y
  {
    if x >= y {
      MulBetween(y, x, x, h);
      assert false;
    }
  }

  /** Counting stops at the first character that is no digit. */
  lemma {:induction false} NonDigitEnds(x: string, rest: string)
    requires IsHex(x) && (rest == "" || !IsDigit(rest[0]))
    ensures ZeroBits(x + rest) == ZeroBits(x)
  {
    if x != "" {
      assert (x + rest)[1..] == x[1..] + rest;
      NonDigitEnds(x[1..], rest);
    } else {
      assert x + rest == rest;
    }
  }
}
