/** Hexadecimal text and bytes, as the dashboard converts between them. */
module Hex {
  import opened Common

  const DIGITS := "0123456789abcdef"

  predicate IsDigit(c: char) {
    '0' <= c <= '9' || 'a' <= c <= 'f' || 'A' <= c <= 'F'
  }

  predicate IsHex(s: string) {
    forall i :: 0 <= i < |s| ==> IsDigit(s[i])
  }

  function DigitValue(c: char): (v: int)
    requires IsDigit(c)
    ensures 0 <= v < 16
  {
    if '0' <= c <= '9' then c as int - '0' as int
    else if 'a' <= c <= 'f' then c as int - 'a' as int + 10
    else c as int - 'A' as int + 10
  }

  function DigitOf(v: int): (c: char)
    requires 0 <= v < 16
    ensures IsDigit(c) && DigitValue(c) == v
  {
    DIGITS[v]
  }

  /** The digits are these 22 characters, with the values of their places. */
  lemma DigitsAre(c: char)
    ensures IsDigit(c) <==> c in "0123456789abcdef" || c in "ABCDEF"
    ensures forall i :: 0 <= i < 16 ==> IsDigit("0123456789abcdef"[i]) && DigitValue("0123456789abcdef"[i]) == i
    ensures forall i :: 0 <= i < 6 ==> IsDigit("ABCDEF"[i]) && DigitValue("ABCDEF"[i]) == 10 + i
  {
    if '0' <= c <= '9' {
      assert "0123456789abcdef"[c as int - '0' as int] == c;
    } else if 'a' <= c <= 'f' {
      assert "0123456789abcdef"[c as int - 'a' as int + 10] == c;
    } else if 'A' <= c <= 'F' {
      assert "ABCDEF"[c as int - 'A' as int] == c;
    }
  }

  /** Number.prototype.toString(16) and BigInt.prototype.toString(16). */
  function ToString16(n: nat): (s: string)
    ensures |s| > 0 && IsHex(s)
  {
    if n < 16 then [DigitOf(n)] else ToString16(n / 16) + [DigitOf(n % 16)]
  }

  function PadStart(s: string, width: nat): string
    decreases width - |s|
  {
    if |s| >= width then s else PadStart("0" + s, width)
  }

  function ZeroDigits(n: nat): (s: string)
    ensures |s| == n && IsHex(s)
  {
    seq(n, _ => '0')
  }

  function Lower(c: char): char
    requires IsDigit(c)
  {
    DigitOf(DigitValue(c))
  }

  function LowerAll(s: string): string
    requires IsHex(s)
  {
    seq(|s|, i requires 0 <= i < |s| => Lower(s[i]))
  }

  function BytesToHex(b: seq<Byte>): (s: string) {
    if b == [] then "" else PadStart(ToString16(b[0]), 2) + BytesToHex(b[1..])
  }

  // ---- parseInt(s, 16)

  /** White space and line terminators of ECMAScript. */
  predicate IsSpace(c: char) {
    var u := c as int;
    9 <= u <= 13 || u == 32 || u == 0xA0 || u == 0x1680 || 0x2000 <= u <= 0x200A || u == 0x2028 || u == 0x2029
    || u == 0x202F || u == 0x205F || u == 0x3000 || u == 0xFEFF
  }

  function TrimStart(s: string): string {
    if s != "" && IsSpace(s[0]) then TrimStart(s[1..]) else s
  }

  /** The number written by the digits in front, continuing from `sofar`. */
  function DigitsInFront(s: string, sofar: int): int {
    if s == "" || !IsDigit(s[0]) then sofar else DigitsInFront(s[1..], 16 * sofar + DigitValue(s[0]))
  }

  /** `parseInt(s, 16)`; None stands for NaN. */
  function ParseInt16(s: string): Option<int> {
    var t := TrimStart(s);
    var signed := t != "" && (t[0] == '-' || t[0] == '+');
    var u := if signed then t[1..] else t;
    var v := if |u| >= 2 && u[0] == '0' && (u[1] == 'x' || u[1] == 'X') then u[2..] else u;
    if v == "" || !IsDigit(v[0]) then None
    else Some(if signed && t[0] == '-' then -DigitsInFront(v, 0) else DigitsInFront(v, 0))
  }

  /** A number as a typed array of bytes stores it. */
  function ToUint8(n: Option<int>): Byte {
    if n.None? then 0 else n.value % 256
  }

  lemma DigitIsNoSpace(c: char)
    requires IsDigit(c)
    ensures !IsSpace(c) && c != '-' && c != '+' && c != 'x' && c != 'X'
  {
  }

  lemma ParseTwoDigits(c: char, d: char)
    requires IsDigit(c) && IsDigit(d)
    ensures ToUint8(ParseInt16([c, d])) == 16 * DigitValue(c) + DigitValue(d)
  {
    DigitIsNoSpace(d);
    ParseFromDigit([c, d]);
    TwoDigits(c, d);
    hide ParseInt16, DigitsInFront, IsSpace, DigitValue;
  }

  /** No space, sign or prefix in front: the number is read from the first character. */
  lemma ParseFromDigit(s: string)
    requires s != "" && IsDigit(s[0]) && (|s| >= 2 ==> s[1] != 'x' && s[1] != 'X')
    ensures ParseInt16(s) == Some(DigitsInFront(s, 0))
  {
    hide DigitsInFront, DigitValue, IsSpace;
    DigitIsNoSpace(s[0]);
    assert TrimStart(s) == s;
  }

  lemma TwoDigits(c: char, d: char)
    requires IsDigit(c) && IsDigit(d)
    ensures DigitsInFront([c, d], 0) == 16 * DigitValue(c) + DigitValue(d)
  {
    hide DigitValue, IsDigit;
    assert [c, d][1..] == [d] && [d][1..] == "";
    assert DigitsInFront([c, d], 0) == DigitsInFront([d], DigitValue(c));
    assert DigitsInFront([d], DigitValue(c)) == DigitsInFront("", 16 * DigitValue(c) + DigitValue(d));
  }

  /** What any two characters are stored as. */
  lemma PairMeaning(c: char, d: char)
    ensures ToUint8(ParseInt16([c, d])) ==
              if IsDigit(c) && IsDigit(d) then 16 * DigitValue(c) + DigitValue(d)
              else if IsDigit(c) then DigitValue(c)
              else if IsDigit(d) && (IsSpace(c) || c == '+') then DigitValue(d)
              else if IsDigit(d) && c == '-' then (256 - DigitValue(d)) % 256
              else 0
  {
    var s := [c, d];
    assert s[1..] == [d] && [d][1..] == "" && s[2..] == "";
    if IsDigit(c) && IsDigit(d) {
      ParseTwoDigits(c, d);
    } else if IsDigit(c) {
      DigitIsNoSpace(c);
      assert TrimStart(s) == s;
      assert DigitsInFront(s, 0) == DigitsInFront([d], DigitValue(c)) == DigitValue(c);
    } else if IsSpace(c) {
      assert TrimStart(s) == TrimStart([d]);
      ParseOneChar(d);
    } else {
      assert TrimStart(s) == s;
      if IsDigit(d) {
        assert DigitsInFront([d], 0) == DigitsInFront("", DigitValue(d));
      }
    }
    hide IsSpace, DigitValue;
  }

  lemma ParseOneChar(c: char)
    ensures ParseInt16([c]) == if IsDigit(c) then Some(DigitValue(c)) else None
  {
    if IsDigit(c) {
      DigitIsNoSpace(c);
      assert TrimStart([c]) == [c] && [c][1..] == "";
      assert DigitsInFront([c], 0) == DigitsInFront("", DigitValue(c));
    } else if IsSpace(c) {
      assert TrimStart([c]) == TrimStart("") == "";
    }
    hide IsSpace, DigitValue;
  }

  /** Two characters a byte; an odd last one is ignored, and what is no number counts as zero. */
  function BytesOf(hex: string): (b: seq<Byte>)
    ensures |b| == |hex| / 2
  {
    seq(|hex| / 2, i requires 0 <= i < |hex| / 2 => ToUint8(ParseInt16(hex[2 * i..2 * i + 2])))
  }

  lemma ByteAt(hex: string, i: nat)
    requires i < |hex| / 2 && IsDigit(hex[2 * i]) && IsDigit(hex[2 * i + 1])
    ensures BytesOf(hex)[i] == 16 * DigitValue(hex[2 * i]) + DigitValue(hex[2 * i + 1])
  {
    ParseTwoDigits(hex[2 * i], hex[2 * i + 1]);
    assert hex[2 * i..2 * i + 2] == [hex[2 * i], hex[2 * i + 1]];
    hide ParseInt16, DigitValue;
  }

  method HexToBytes(hex: string) returns (out: array<Byte>)
    ensures fresh(out) && out[..] == BytesOf(hex)
  {
    hide ParseInt16;
    out := new Byte[|hex| / 2](_ => 0);
    for i := 0 to out.Length
      invariant out[..i] == BytesOf(hex)[..i]
    {
      out[i] := ToUint8(ParseInt16(hex[2 * i..2 * i + 2]));
      assert out[..i + 1] == out[..i] + [out[i]];
    }
  }

  // ---- the two conversions invert each other

  lemma ByteHex(x: Byte)
    ensures PadStart(ToString16(x), 2) == [DigitOf(x / 16), DigitOf(x % 16)]
  {
    if x < 16 {
      assert "0" + [DigitOf(x)] == [DigitOf(0), DigitOf(x)];
      assert PadStart("0" + [DigitOf(x)], 2) == "0" + [DigitOf(x)];
    } else {
      assert ToString16(x / 16) == [DigitOf(x / 16)];
    }
  }

  lemma {:induction false} HexLength(b: seq<Byte>)
    ensures |BytesToHex(b)| == 2 * |b|
  {
    if b != [] {
      HexLength(b[1..]);
      HexCons(b);
    }
  }

  lemma {:induction false} HexAt(b: seq<Byte>, i: nat)
    requires i < |b|
    ensures |BytesToHex(b)| == 2 * |b|
    ensures BytesToHex(b)[2 * i] == DigitOf(b[i] / 16) && BytesToHex(b)[2 * i + 1] == DigitOf(b[i] % 16)
  {
    HexLength(b);
    HexLength(b[1..]);
    HexCons(b);
    hide BytesToHex, DigitOf;
    if i > 0 {
      HexAt(b[1..], i - 1);
      assert b[1..][i - 1] == b[i];
      var s, t := BytesToHex(b), BytesToHex(b[1..]);
      assert s[2 + (2 * i - 2)] == t[2 * i - 2] && s[2 + (2 * i - 1)] == t[2 * i - 1];
    }
  }

  lemma HexShape(b: seq<Byte>)
    ensures var s := BytesToHex(b);
            && |s| == 2 * |b|
            && forall i :: 0 <= i < |b| ==> s[2 * i] == DigitOf(b[i] / 16) && s[2 * i + 1] == DigitOf(b[i] % 16)
  {
    HexLength(b);
    hide BytesToHex, DigitOf;
    forall i | 0 <= i < |b|
      ensures BytesToHex(b)[2 * i] == DigitOf(b[i] / 16) && BytesToHex(b)[2 * i + 1] == DigitOf(b[i] % 16)
    {
      HexAt(b, i);
    }
  }

  lemma HexCons(b: seq<Byte>)
    requires b != []
    ensures BytesToHex(b) == [DigitOf(b[0] / 16), DigitOf(b[0] % 16)] + BytesToHex(b[1..])
  {
    ByteHex(b[0]);
  }

  lemma {:induction false} BytesToHexIsHex(b: seq<Byte>)
    ensures IsHex(BytesToHex(b))
  {
    if b != [] {
      HexCons(b);
      BytesToHexIsHex(b[1..]);
    }
  }

  lemma BytesOfHex(b: seq<Byte>)
    ensures IsHex(BytesToHex(b)) && BytesOf(BytesToHex(b)) == b
  {
    BytesToHexIsHex(b);
    HexShape(b);
    hide BytesToHex, BytesOf, DigitOf;
    forall i | 0 <= i < |b|
      ensures BytesOf(BytesToHex(b))[i] == b[i]
    {
      ByteAt(BytesToHex(b), i);
    }
  }

  lemma DigitPair(a: int, b: int)
    requires 0 <= a < 16 && 0 <= b < 16
    ensures (16 * a + b) / 16 == a && (16 * a + b) % 16 == b
  {
  }

  /** Even-length hex text survives the round trip up to letter case. */
  lemma HexOfBytes(s: string)
    requires IsHex(s) && |s| % 2 == 0
    ensures BytesToHex(BytesOf(s)) == LowerAll(s)
  {
    hide BytesToHex, BytesOf, DigitOf, DigitValue;
    var b, t := BytesOf(s), BytesToHex(BytesOf(s));
    HexShape(b);
    forall i | 0 <= i < |s| / 2
      ensures t[2 * i] == Lower(s[2 * i]) && t[2 * i + 1] == Lower(s[2 * i + 1])
    {
      ByteAt(s, i);
      DigitPair(DigitValue(s[2 * i]), DigitValue(s[2 * i + 1]));
    }
    EqualByPairs(t, LowerAll(s));
  }

  lemma EqualByPairs(s: string, t: string)
    requires |s| == |t| && |s| % 2 == 0
    requires forall i :: 0 <= i < |s| / 2 ==> s[2 * i] == t[2 * i] && s[2 * i + 1] == t[2 * i + 1]
    ensures s == t
  {
    forall k | 0 <= k < |s|
      ensures s[k] == t[k]
    {
      var i := k / 2;
      assert k == 2 * i || k == 2 * i + 1;
    }
  }

  // ---- byte-wise reversal

  /** What `revHex` computes: pairs taken from the end; an odd first digit is dropped. */
  function RevHexOf(hex: string): (out: string)
    ensures |out| == |hex| - |hex| % 2
  {
    if |hex| < 2 then "" else hex[|hex| - 2..] + RevHexOf(hex[..|hex| - 2])
  }

  method RevHex(hex: string) returns (out: string)
    ensures out == RevHexOf(hex)
  {
    out := "";
    assert hex[..|hex|] == hex;
    var i := |hex| - 2;
    while i >= 0
      invariant -2 <= i <= |hex| - 2
      invariant RevHexOf(hex) == out + RevHexOf(hex[..i + 2])
    {
      LastPair(hex, i);
      out := out + hex[i..i + 2];
      i := i - 2;
    }
  }

  lemma LastPair(hex: string, i: nat)
    requires i + 2 <= |hex|
    ensures RevHexOf(hex[..i + 2]) == hex[i..i + 2] + RevHexOf(hex[..i])
  {
    assert hex[..i + 2][i..] == hex[i..i + 2] && hex[..i + 2][..i] == hex[..i];
  }

  lemma {:induction false} RevHexAt(hex: string, i: nat)
    requires 2 * i + 1 < |RevHexOf(hex)|
    ensures var n := |hex|;
            RevHexOf(hex)[2 * i] == hex[n - 2 - 2 * i] && RevHexOf(hex)[2 * i + 1] == hex[n - 1 - 2 * i]
  {
    if i > 0 {
      RevHexAt(hex[..|hex| - 2], i - 1);
    }
  }

  /** `revHex` undoes itself exactly on even lengths. */
  lemma RevHexTwice(hex: string)
    ensures RevHexOf(RevHexOf(hex)) == hex <==> |hex| % 2 == 0
  {
    hide RevHexOf;
    var r := RevHexOf(hex);
    var rr := RevHexOf(r);
    if |hex| % 2 == 0 {
      var n := |hex| / 2;
      assert |hex| == 2 * n == |r| == |rr|;
      forall i | 0 <= i < n
        ensures rr[2 * i] == hex[2 * i] && rr[2 * i + 1] == hex[2 * i + 1]
      {
        RevHexAt(r, i);
        RevHexAt(hex, n - 1 - i);
      }
      EqualByPairs(rr, hex);
    }
  }

  /** An odd first digit is lost. */
  lemma OddTextLosesDigit()
    ensures RevHexOf(RevHexOf("abc")) == "bc"
  {
    assert RevHexOf("abc") == "bc" + RevHexOf("a");
    assert RevHexOf("bc") == "bc" + RevHexOf("");
  }

  lemma {:induction false} RevHexIsHex(hex: string)
    requires IsHex(hex)
    ensures IsHex(RevHexOf(hex))
  {
    if |hex| >= 2 {
      RevHexIsHex(hex[..|hex| - 2]);
    }
  }

  /** On even-length hex text it reverses the bytes. */
  lemma RevHexReversesBytes(hex: string, n: nat, i: nat)
    requires IsHex(hex) && |hex| == 2 * n && i < n
    ensures IsHex(RevHexOf(hex)) && |BytesOf(RevHexOf(hex))| == |BytesOf(hex)| == n
    ensures BytesOf(RevHexOf(hex))[i] == BytesOf(hex)[n - 1 - i]
  {
    RevHexIsHex(hex);
    hide RevHexOf, BytesOf, DigitValue, IsDigit;
    var j := n - 1 - i;
    RevHexAt(hex, i);
    ByteAt(RevHexOf(hex), i);
    ByteAt(hex, j);
  }
}
