/** Bitwise operations, powers of two and big-endian bytes of natural numbers. */
module Bits {
  import opened Common

  datatype Gate = AndGate | OrGate | XorGate
  {
    function On(a: int, b: int): (r: int)
      requires 0 <= a < 2 && 0 <= b < 2
      ensures 0 <= r < 2
    {
      match this
      case AndGate => a * b
      case OrGate => if a + b > 0 then 1 else 0
      case XorGate => if a != b then 1 else 0
    }
  }

  function Pow2(n: nat): (p: int)
    ensures p >= 1
  {
    if n == 0 then 1 else 2 * Pow2(n - 1)
  }

  /** Bit `i` of `x`, least significant first. */
  function Bit(x: nat, i: nat): (b: int)
    ensures 0 <= b < 2
  {
    if i == 0 then x % 2 else Bit(x / 2, i - 1)
  }

  /** The gate applied to each of the low `n` bits. */
  function Bitwise(g: Gate, x: nat, y: nat, n: nat): (r: nat)
    ensures r < Pow2(n)
  {
    if n == 0 then 0 else 2 * Bitwise(g, x / 2, y / 2, n - 1) + g.On(x % 2, y % 2)
  }

  lemma {:induction false} BitwiseActsPerBit(g: Gate, x: nat, y: nat, n: nat, i: nat)
    requires i < n
    ensures Bit(Bitwise(g, x, y, n), i) == g.On(Bit(x, i), Bit(y, i))
  {
    if i > 0 {
      BitwiseActsPerBit(g, x / 2, y / 2, n - 1, i - 1);
    }
  }

  lemma {:induction false} Pow2Sum(m: nat, n: nat)
    ensures Pow2(m + n) == Pow2(m) * Pow2(n)
  {
    if m > 0 {
      Pow2Sum(m - 1, n);
    }
  }

  // ---- big-endian bytes

  function BigEndian(v: nat, n: nat): (b: seq<Byte>)
    ensures |b| == n
  {
    if n == 0 then [] else BigEndian(v / 256, n - 1) + [v % 256]
  }

  function FromBigEndian(b: seq<Byte>): nat {
    if b == [] then 0 else FromBigEndian(b[..|b| - 1]) * 256 + b[|b| - 1]
  }

  lemma BytePower(n: nat)
    ensures Pow2(8 * (n + 1)) == 256 * Pow2(8 * n)
  {
    Pow2Sum(8, 8 * n);
    Pow2Sum(4, 4);
  }

  lemma FromBigEndianSnoc(b: seq<Byte>, x: Byte)
    ensures FromBigEndian(b + [x]) == FromBigEndian(b) * 256 + x
  {
    assert (b + [x])[..|b|] == b;
  }

  /** Reading undoes writing for numbers that fit. */
  lemma {:induction false} BigEndianInverts(v: nat, n: nat)
    requires v < Pow2(8 * n)
    ensures FromBigEndian(BigEndian(v, n)) == v
  {
    if n > 0 {
      BytePower(n - 1);
      BigEndianInverts(v / 256, n - 1);
      FromBigEndianSnoc(BigEndian(v / 256, n - 1), v % 256);
      hide FromBigEndian, Pow2;
    }
  }

  /** Byte `i` is the digit of that rank to base 256, most significant first. */
  lemma {:induction false} BigEndianAt(v: nat, n: nat, i: nat)
    requires i < n
    ensures BigEndian(v, n)[i] == v / Pow2(8 * (n - 1 - i)) % 256
  {
    if i < n - 1 {
      var p := Pow2(8 * (n - 2 - i));
      BigEndianAt(v / 256, n - 1, i);
      BytePower(n - 2 - i);
      DivideByProduct(v, 256, p);
      hide Pow2;
      assert BigEndian(v, n)[i] == BigEndian(v / 256, n - 1)[i];
    } else {
      assert Pow2(0) == 1;
    }
  }

  lemma DivideByProduct(n: nat, a: nat, b: nat)
    requires a > 0 && b > 0
    ensures a * b > 0 && n / a / b == n / (a * b)
  {
    var q := n / a;
    var u, r, v := q / b, n % a, q % b;
    var m, low := a * b, a * v + r;
    Product(a, b, u, v);
    assert n == m * u + low;
    assert 0 <= low < m by {
      BelowProduct(a, b, v, r);
    }
    QuotientUnique(n, m, u, low);
  }

  lemma Product(a: int, b: int, u: int, v: int)
    ensures a * (b * u + v) == (a * b) * u + a * v
  {
  }

  lemma BelowProduct(a: int, b: int, v: int, r: int)
    requires 0 <= v < b && 0 <= r < a
    ensures 0 <= a * v + r < a * b
  {
    assert a * v <= a * (b - 1);
    assert a * (b - 1) == a * b - a;
  }

  lemma QuotientUnique(n: int, m: int, u: int, low: int)
    requires n == m * u + low && 0 <= low < m
    ensures n / m == u
  {
    var k, rest := n / m, n % m;
    assert n == m * k + rest && 0 <= rest < m;
    var d := k - u;
    assert m * d == m * k - m * u;
    if d >= 1 {
      Grows(m, d, 1);
    } else if d <= -1 {
      Grows(m, -1, d);
    }
  }

  lemma Grows(m: int, x: int, y: int)
    requires m > 0 && x >= y
    ensures m * x >= m * y
  {
  }

  // ---- bits

  lemma {:induction false} ComplementBit(x: nat, n: nat, i: nat)
    requires x < Pow2(n) && i < n
    ensures Bit(Pow2(n) - 1 - x, i) == 1 - Bit(x, i)
  {
    var c := Pow2(n) - 1 - x;
    assert Pow2(n) == 2 * Pow2(n - 1);
    assert c % 2 == 1 - x % 2 && c / 2 == Pow2(n - 1) - 1 - x / 2;
    if i > 0 {
      ComplementBit(x / 2, n - 1, i - 1);
    }
  }

  lemma {:induction false} HighBitsAreZero(x: nat, n: nat, i: nat)
    requires x < Pow2(n) && i >= n
    ensures Bit(x, i) == 0
  {
    if n > 0 {
      HighBitsAreZero(x / 2, n - 1, i - 1);
    } else if i > 0 {
      HighBitsAreZero(0, 0, i - 1);
    }
  }

  /** A number below 2^n is made of its bits. */
  lemma {:induction false} SameBits(x: nat, y: nat, n: nat)
    requires x < Pow2(n) && y < Pow2(n) && forall i :: 0 <= i < n ==> Bit(x, i) == Bit(y, i)
    ensures x == y
  {
    if n > 0 {
      assert Bit(x, 0) == Bit(y, 0);
      forall i | 0 <= i < n - 1
        ensures Bit(x / 2, i) == Bit(y / 2, i)
      {
        assert Bit(x, i + 1) == Bit(y, i + 1);
      }
      SameBits(x / 2, y / 2, n - 1);
    }
  }
}
