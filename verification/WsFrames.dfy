/** WebSocket frames as RFC 6455 sections 5.2 and 5.3 lay them out, and the server's two codecs. */
module WsFrames {
  import opened Bits
  import opened Common

  /** `b & 0x0F`. */
  function LowNibble(b: Byte): (r: Byte)
    ensures r < 16
  {
    b % 16
  }

  /** `b & 0x7F`. */
  function LowSeven(b: Byte): (r: Byte)
    ensures r < 128
  {
    b % 128
  }

  /** `b & 0x80 != 0`. */
  predicate TopBit(b: Byte) {
    b >= 128
  }

  /** `0x80 | b` for a byte below 0x80. */
  function WithTopBit(b: Byte): Byte
    requires b < 128
  {
    128 + b
  }

  function Xor8(x: Byte, y: Byte): Byte {
    ByteRange();
    Bitwise(XorGate, x, y, 8)
  }

  lemma ByteRange()
    ensures Pow2(8) == 256
  {
    Pow2Sum(4, 4);
  }

  /** A client frame; the mask always has four bytes. */
  datatype Frame = Frame(opcode: Byte, mask: seq<Byte>, payload: seq<Byte>)

  const MAX_PAYLOAD := 0x10_0000

  /** `MakePanics`: not an error the reader returns, but the run-time failure of allocating a negative length. */
  datatype Failure = ShortRead | NotMasked | TooLarge | MakePanics

  // ---- numbers on the wire

  /** A 64-bit length read as a signed number, as Go converts it. */
  function ToInt64(v: nat): int {
    if v < 0x8000_0000_0000_0000 then v else v - 0x1_0000_0000_0000_0000
  }

  // ---- encoding

  /** The minimal length form, its first byte carrying the mask bit. */
  function LengthField(n: nat, masked: bool): (b: seq<Byte>) {
    if n < 126 then [Code(n, masked)]
    else if n < 0x1_0000 then [Code(126, masked)] + BigEndian(n, 2)
    else [Code(127, masked)] + BigEndian(n, 8)
  }

  function Code(c: Byte, masked: bool): Byte
    requires c < 128
  {
    if masked then WithTopBit(c) else c
  }

  function Mask(payload: seq<Byte>, mask: seq<Byte>): (m: seq<Byte>)
    requires |mask| == 4
    ensures |m| == |payload|
  {
    seq(|payload|, i requires 0 <= i < |payload| => Xor8(payload[i], mask[i % 4]))
  }

  lemma {:induction false} XorTwice(x: nat, y: nat, n: nat)
    requires x < Pow2(n)
    ensures Bitwise(XorGate, Bitwise(XorGate, x, y, n), y, n) == x
  {
    if n > 0 {
      XorTwice(x / 2, y / 2, n - 1);
    }
  }

  /** Masking is its own inverse. */
  lemma MaskTwice(payload: seq<Byte>, mask: seq<Byte>)
    requires |mask| == 4
    ensures Mask(Mask(payload, mask), mask) == payload
  {
    ByteRange();
    var once := Mask(payload, mask);
    var twice := Mask(once, mask);
    forall i | 0 <= i < |payload|
      ensures twice[i] == payload[i]
    {
      XorTwice(payload[i], mask[i % 4], 8);
      hide Bitwise, Pow2;
      assert once[i] == Xor8(payload[i], mask[i % 4]);
      assert twice[i] == Xor8(once[i], mask[i % 4]);
    }
  }

  predicate Sendable(f: Frame) {
    f.opcode < 16 && |f.mask| == 4 && |f.payload| <= MAX_PAYLOAD
  }

  function Encode(f: Frame): seq<Byte>
    requires Sendable(f)
  {
    [WithTopBit(f.opcode)] + LengthField(|f.payload|, true) + f.mask + Mask(f.payload, f.mask)
  }

  function EncodeAll(fs: seq<Frame>): seq<Byte>
    requires forall i :: 0 <= i < |fs| ==> Sendable(fs[i])
  {
    if fs == [] then [] else Encode(fs[0]) + EncodeAll(fs[1..])
  }

  // ---- decoding

  /** Opcode, mask flag, payload length (as Go's signed 64-bit number) and header size without the mask. */
  datatype Header = Header(opcode: Byte, masked: bool, length: int, size: nat)

  function HeaderSize(lengthByte: Byte): nat {
    if LowSeven(lengthByte) == 126 then 4 else if LowSeven(lengthByte) == 127 then 10 else 2
  }

  function ParseHeader(s: seq<Byte>): Option<Header> {
    if |s| < 2 || |s| < HeaderSize(s[1]) then None else
      var size := HeaderSize(s[1]);
      Some(Header(LowNibble(s[0]), TopBit(s[1]), if size == 2 then LowSeven(s[1]) else ToInt64(FromBigEndian(s[2..size])), size))
  }

  datatype Decoded = Got(opcode: Byte, payload: seq<Byte>, used: nat) | Failed(why: Failure)

  /** What `readFrame` makes of the bytes still to come. */
  function Decode(s: seq<Byte>): (d: Decoded)
    ensures d.Got? ==> d.used <= |s|
  {
    if |s| < 2 then Failed(ShortRead)
    else if !TopBit(s[1]) then Failed(NotMasked)
    else
      var h := ParseHeader(s);
      if h.None? then Failed(ShortRead)
      else if h.value.length > MAX_PAYLOAD then Failed(TooLarge)
      else if |s| < h.value.size + 4 then Failed(ShortRead)
      else if h.value.length < 0 then Failed(MakePanics)
      else if |s| < h.value.size + 4 + h.value.length then Failed(ShortRead)
      else
        var start := h.value.size + 4;
        Got(h.value.opcode, Mask(s[start..start + h.value.length], s[h.value.size..start]), start + h.value.length)
  }

  /**
   * The length check lets negative lengths through: `readFrame` panics exactly on a masked 64-bit length
   * whose top bit is set, once header and mask are there.
   */
  lemma PanicsIff(s: seq<Byte>)
    ensures Decode(s) == Failed(MakePanics) <==> |s| >= 14 && s[1] == 255 && s[2] >= 128
  {
    if |s| >= 10 {
      TopBitOfLength(s[2..10]);
    }
    if |s| >= 4 {
      ShortLength(s[2..4]);
    }
    hide FromBigEndian, Mask;
  }

  lemma ShortLength(b: seq<Byte>)
    requires |b| == 2
    ensures FromBigEndian(b) == b[0] as int * 256 + b[1]
  {
    assert b == [] + [b[0]] + [b[1]];
    FromBigEndianSnoc([], b[0]);
    FromBigEndianSnoc([] + [b[0]], b[1]);
  }

  lemma TopBitOfLength(b: seq<Byte>)
    requires |b| == 8
    ensures FromBigEndian(b) < 0x1_0000_0000_0000_0000
    ensures FromBigEndian(b) >= 0x8000_0000_0000_0000 <==> b[0] >= 128
  {
    WireRanges();
    FromBigEndianRange(b[1..]);
    FromBigEndianFront(b);
    BytePower(7);
    hide FromBigEndian, Pow2;
    assert Pow2(56) == 0x100_0000_0000_0000;
  }

  lemma {:induction false} FromBigEndianRange(b: seq<Byte>)
    ensures FromBigEndian(b) < Pow2(8 * |b|)
  {
    if b != [] {
      FromBigEndianRange(b[..|b| - 1]);
      BytePower(|b| - 1);
      hide Pow2;
    }
  }

  lemma {:induction false} FromBigEndianFront(b: seq<Byte>)
    requires b != []
    ensures FromBigEndian(b) == b[0] * Pow2(8 * (|b| - 1)) + FromBigEndian(b[1..])
  {
    var n := |b| - 1;
    if n > 0 {
      var front, rest, p := b[..n], b[1..], Pow2(8 * (n - 1));
      BytePower(n - 1);
      assert Pow2(8 * n) == 256 * p;
      assert FromBigEndian(b) == FromBigEndian(front) * 256 + b[n];
      assert FromBigEndian(rest) == FromBigEndian(front[1..]) * 256 + b[n] by {
        assert rest[..|rest| - 1] == front[1..] && rest[|rest| - 1] == b[n];
      }
      FromBigEndianFront(front);
      hide *;
      Distribute(b[0], p, FromBigEndian(front[1..]), b[n]);
    } else {
      assert b == [] + [b[0]];
      FromBigEndianSnoc([], b[0]);
    }
  }

  lemma Distribute(x: int, p: int, y: int, z: int)
    ensures (x * p + y) * 256 + z == x * (256 * p) + (y * 256 + z)
  {
    var xp := x * p;
    calc {
      x * (256 * p);
      256 * (x * p);
      256 * xp;
    }
  }

  lemma SliceOfTail(s: seq<Byte>, from: nat, a: nat, b: nat)
    requires a <= b && from + b <= |s|
    ensures s[from..][a..b] == s[from + a..from + b]
  {
  }

  /** A connection with everything the peer will send. */
  class Conn {
    const input: seq<Byte>
    var pos: nat

    constructor (input: seq<Byte>)
      ensures this.input == input && pos == 0
    {
      this.input, pos := input, 0;
    }

    ghost predicate Valid()
      reads this
    {
      pos <= |input|
    }

    /** io.ReadFull: all of `n` bytes, or a failure that consumes what there was. */
    method ReadFull(n: nat) returns (r: Result<seq<Byte>, Failure>)
      requires Valid()
      modifies this
      ensures Valid()
      ensures r == if old(pos) + n <= |input| then Ok(input[old(pos)..old(pos) + n]) else Err(ShortRead)
      ensures r.Ok? ==> pos == old(pos) + n
    {
      if pos + n > |input| {
        pos := |input|;
        return Err(ShortRead);
      }
      r := Ok(input[pos..pos + n]);
      pos := pos + n;
    }

    method ReadLength(lengthByte: Byte) returns (r: Result<int, Failure>)
      requires Valid() && pos >= 2 && input[pos - 1] == lengthByte
      modifies this
      ensures Valid()
      ensures var h := ParseHeader(old(input[pos - 2..]));
              if h.None? then r == Err(ShortRead) else r == Ok(h.value.length) && pos == old(pos) - 2 + h.value.size
    {
      ghost var s := input[pos - 2..];
      var length: int := LowSeven(lengthByte);
      if length == 126 {
        var ext := ReadFull(2);
        if ext.Err? {
          return Err(ext.error);
        }
        assert ext.value == s[2..4];
        return Ok(ToInt64(FromBigEndian(ext.value)));
      }
      if length == 127 {
        var ext := ReadFull(8);
        if ext.Err? {
          return Err(ext.error);
        }
        assert ext.value == s[2..10];
        return Ok(ToInt64(FromBigEndian(ext.value)));
      }
      r := Ok(length);
    }

    method ReadFrame() returns (d: Decoded)
      requires Valid()
      modifies this
      ensures Valid() && d == Decode(old(input[pos..]))
      ensures d.Got? ==> pos == old(pos) + d.used
    {
      ghost var s := input[pos..];
      var from := pos;
      var h := ReadFull(2);
      if h.Err? {
        return Failed(h.error);
      }
      SliceOfTail(input, from, 0, 2);
      assert h.value == s[..2];
      if !TopBit(h.value[1]) {
        return Failed(NotMasked);
      }
      assert input[pos - 2..] == s;
      var length := ReadLength(h.value[1]);
      if length.Err? {
        return Failed(length.error);
      }
      if length.value > MAX_PAYLOAD {
        return Failed(TooLarge);
      }
      var size := pos - from;
      var mask := ReadFull(4);
      if mask.Err? {
        return Failed(mask.error);
      }
      SliceOfTail(input, from, size, size + 4);
      assert mask.value == s[size..size + 4];
      if length.value < 0 {
        return Failed(MakePanics);
      }
      var body := ReadFull(length.value);
      if body.Err? {
        return Failed(body.error);
      }
      SliceOfTail(input, from, size + 4, size + 4 + length.value);
      assert body.value == s[size + 4..size + 4 + length.value];
      var payload := Unmask(body.value, mask.value);
      d := Got(LowNibble(h.value[0]), payload, size + 4 + length.value);
    }

    /** In-place unmasking of a fresh buffer. */
    static method Unmask(body: seq<Byte>, mask: seq<Byte>) returns (payload: seq<Byte>)
      requires |mask| == 4
      ensures payload == Mask(body, mask)
    {
      var buf := new Byte[|body|](i requires 0 <= i < |body| => body[i]);
      for i := 0 to buf.Length
        invariant forall k :: 0 <= k < i ==> buf[k] == Xor8(body[k], mask[k % 4])
        invariant forall k :: i <= k < buf.Length ==> buf[k] == body[k]
      {
        buf[i] := Xor8(buf[i], mask[i % 4]);
      }
      payload := buf[..];
    }
  }

  // ---- the two codecs fit

  /** All three length forms are inverted, masked or not. */
  lemma HeaderInverts(op: Byte, n: nat, masked: bool, tail: seq<Byte>)
    requires op < 16 && n < 0x8000_0000_0000_0000
    ensures var field := LengthField(n, masked);
            ParseHeader([WithTopBit(op)] + field + tail) == Some(Header(op, masked, n, 1 + |field|))
  {
    if n < 126 {
      hide FromBigEndian, BigEndian;
      var s := [WithTopBit(op)] + [Code(n, masked)] + tail;
      assert s[1] == Code(n, masked);
    } else if n < 0x1_0000 {
      WireRanges();
      BigEndianInverts(n, 2);
      ExtendedHeader(op, masked, 126, BigEndian(n, 2), tail);
      hide ParseHeader, FromBigEndian, BigEndian;
    } else {
      WireRanges();
      BigEndianInverts(n, 8);
      ExtendedHeader(op, masked, 127, BigEndian(n, 8), tail);
      hide ParseHeader, FromBigEndian, BigEndian;
    }
  }

  lemma ExtendedHeader(op: Byte, masked: bool, code: Byte, ext: seq<Byte>, tail: seq<Byte>)
    requires op < 16 && ((code == 126 && |ext| == 2) || (code == 127 && |ext| == 8))
    ensures ParseHeader([WithTopBit(op)] + ([Code(code, masked)] + ext) + tail)
            == Some(Header(op, masked, ToInt64(FromBigEndian(ext)), 2 + |ext|))
  {
    hide FromBigEndian, ToInt64;
    var s := [WithTopBit(op)] + ([Code(code, masked)] + ext) + tail;
    assert s[1] == Code(code, masked);
    assert s[2..2 + |ext|] == ext;
  }

  lemma WireRanges()
    ensures Pow2(16) == 0x1_0000 && Pow2(64) == 0x1_0000_0000_0000_0000
  {
    ByteRange();
    Pow2Sum(8, 8);
    Pow2Sum(16, 16);
    Pow2Sum(32, 32);
  }

  /** The reader recovers a client's frame from the front of the stream and stops behind it. */
  lemma DecodeInvertsEncode(f: Frame, tail: seq<Byte>)
    requires Sendable(f)
    ensures Decode(Encode(f) + tail) == Got(f.opcode, f.payload, |Encode(f)|)
  {
    hide ParseHeader, LengthField, Mask, Decode;
    var n, field := |f.payload|, LengthField(|f.payload|, true);
    var masked := Mask(f.payload, f.mask);
    var s := Encode(f) + tail;
    assert s == [WithTopBit(f.opcode)] + field + (f.mask + masked + tail);
    HeaderInverts(f.opcode, n, true, f.mask + masked + tail);
    MaskTwice(f.payload, f.mask);
    var size := 1 + |field|;
    assert s[size..size + 4] == f.mask;
    assert s[size + 4..size + 4 + n] == masked;
    DecodeByHeader(s, Header(f.opcode, true, n, size));
  }

  /** After the header of an acceptable masked frame, only the number of bytes left matters. */
  lemma DecodeByHeader(s: seq<Byte>, h: Header)
    requires ParseHeader(s) == Some(h) && h.masked && 0 <= h.length <= MAX_PAYLOAD
    ensures var start := h.size + 4;
            Decode(s) == if |s| < start + h.length then Failed(ShortRead)
                         else Got(h.opcode, Mask(s[start..start + h.length], s[h.size..start]), start + h.length)
  {
    hide Mask, FromBigEndian, ToInt64;
  }

  /** Reads `n` frames from the front of a stream. */
  function DecodeMany(s: seq<Byte>, n: nat): Option<(seq<(Byte, seq<Byte>)>, seq<Byte>)> {
    if n == 0 then Some(([], s)) else
      var d := Decode(s);
      if d.Failed? then None else
        var rest := DecodeMany(s[d.used..], n - 1);
        if rest.None? then None else Some(([(d.opcode, d.payload)] + rest.value.0, rest.value.1))
  }

  function Contents(fs: seq<Frame>): seq<(Byte, seq<Byte>)> {
    seq(|fs|, i requires 0 <= i < |fs| => (fs[i].opcode, fs[i].payload))
  }

  lemma EncodeAllFirst(fs: seq<Frame>)
    requires fs != [] && forall i :: 0 <= i < |fs| ==> Sendable(fs[i])
    ensures EncodeAll(fs) == Encode(fs[0]) + EncodeAll(fs[1..])
    ensures EncodeAll(fs)[|Encode(fs[0])|..] == EncodeAll(fs[1..])
  {
    hide Encode;
  }

  /** Any list of client frames is read back in order, and every byte is consumed. */
  lemma {:induction false} StreamRoundTrip(fs: seq<Frame>)
    requires forall i :: 0 <= i < |fs| ==> Sendable(fs[i])
    ensures DecodeMany(EncodeAll(fs), |fs|) == Some((Contents(fs), []))
  {
    if fs != [] {
      EncodeAllFirst(fs);
      ContentsFirst(fs);
      var rest, used := fs[1..], |Encode(fs[0])|;
      StreamRoundTrip(rest);
      DecodeInvertsEncode(fs[0], EncodeAll(rest));
      hide *;
      DecodeManyStep(EncodeAll(fs), fs[0].opcode, fs[0].payload, used, |rest|, Contents(rest), []);
      assert |rest| + 1 == |fs|;
    } else {
      assert Contents(fs) == [];
    }
  }

  lemma ContentsFirst(fs: seq<Frame>)
    requires fs != []
    ensures Contents(fs) == [(fs[0].opcode, fs[0].payload)] + Contents(fs[1..])
  {
  }

  lemma DecodeManyStep(s: seq<Byte>, op: Byte, payload: seq<Byte>, used: nat, n: nat,
                       more: seq<(Byte, seq<Byte>)>, rest: seq<Byte>)
    requires used <= |s| && Decode(s) == Got(op, payload, used) && DecodeMany(s[used..], n) == Some((more, rest))
    ensures DecodeMany(s, n + 1) == Some(([(op, payload)] + more, rest))
  {
    hide Decode;
  }

  // ---- the server's frames

  method WriteFrame(opcode: Byte, payload: seq<Byte>) returns (wire: seq<Byte>)
    requires |payload| < 0x8000_0000_0000_0000
    ensures wire == [WithTopBit(LowNibble(opcode))] + LengthField(|payload|, false) + payload
  {
    var hdr := new Byte[10](_ => 0);
    hdr[0] := WithTopBit(LowNibble(opcode));
    var n := |payload|;
    var hdrLen;
    if n < 126 {
      hdr[1] := n;
      hdrLen := 2;
    } else if n < 0x1_0000 {
      hdr[1] := 126;
      PutInto(hdr, 2, n, 2);
      hdrLen := 4;
    } else {
      hdr[1] := 127;
      PutInto(hdr, 2, n, 8);
      hdrLen := 10;
    }
    assert hdr[..hdrLen] == [WithTopBit(LowNibble(opcode))] + LengthField(n, false);
    wire := hdr[..hdrLen];
    if n > 0 {
      wire := wire + payload;
    }
  }

  /** binary.BigEndian.PutUint16 and PutUint64. */
  method PutInto(a: array<Byte>, off: nat, v: nat, n: nat)
    requires off + n <= a.Length
    modifies a
    ensures a[..off] == old(a[..off]) && a[off..off + n] == BigEndian(v, n) && a[off + n..] == old(a[off + n..])
  {
    var bytes := BigEndian(v, n);
    forall i | 0 <= i < n {
      a[off + i] := bytes[i];
    }
  }

  /** A client that follows the standard reads a server frame's opcode, length and payload back. */
  lemma ServerFrameInverts(opcode: Byte, payload: seq<Byte>, tail: seq<Byte>)
    requires |payload| < 0x8000_0000_0000_0000
    ensures var field := LengthField(|payload|, false);
            var wire := [WithTopBit(LowNibble(opcode))] + field + payload;
            var size := 1 + |field|;
            && ParseHeader(wire + tail) == Some(Header(LowNibble(opcode), false, |payload|, size))
            && (wire + tail)[size..size + |payload|] == payload
  {
    var field := LengthField(|payload|, false);
    var wire := [WithTopBit(LowNibble(opcode))] + field + payload;
    assert wire + tail == [WithTopBit(LowNibble(opcode))] + field + (payload + tail);
    HeaderInverts(LowNibble(opcode), |payload|, false, payload + tail);
    hide ParseHeader, LengthField;
  }

  /** A frame cut short is never taken for a frame. */
  lemma TruncatedFrameIsNotRead(f: Frame, k: nat)
    requires Sendable(f) && k < |Encode(f)|
    ensures Decode(Encode(f)[..k]) == Failed(ShortRead)
  {
    hide ParseHeader, LengthField, Mask, Decode;
    var whole, n, field := Encode(f), |f.payload|, LengthField(|f.payload|, true);
    var rest := f.mask + Mask(f.payload, f.mask);
    HeaderInverts(f.opcode, n, true, rest);
    assert whole == [WithTopBit(f.opcode)] + field + rest;
    var h := Header(f.opcode, true, n, 1 + |field|);
    assert |whole| == h.size + 4 + n;
    var s := whole[..k];
    ParsePrefix(whole, k, h);
    if ParseHeader(s).Some? {
      DecodeByHeader(s, h);
    }
  }

  lemma ParsePrefix(whole: seq<Byte>, k: nat, h: Header)
    requires k <= |whole| && ParseHeader(whole) == Some(h) && h.masked
    ensures ParseHeader(whole[..k]) == Some(h) || (ParseHeader(whole[..k]).None? && Decode(whole[..k]) == Failed(ShortRead))
  {
    hide FromBigEndian, ToInt64, Mask;
    var s := whole[..k];
    if k >= 2 && k >= HeaderSize(whole[1]) {
      assert s[2..HeaderSize(whole[1])] == whole[2..HeaderSize(whole[1])];
    }
  }

  // ---- what the layout means

  /** Byte by byte, masking adds the bits of the mask byte at its index modulo four. */
  lemma MaskBit(payload: seq<Byte>, mask: seq<Byte>, i: nat, j: nat)
    requires |mask| == 4 && i < |payload| && j < 8
    ensures |Mask(payload, mask)| == |payload|
    ensures Bit(Mask(payload, mask)[i], j) == (Bit(payload[i], j) + Bit(mask[i % 4], j)) % 2
  {
    ByteRange();
    BitwiseActsPerBit(XorGate, payload[i], mask[i % 4], 8, j);
    hide Bitwise, Bit, Pow2;
  }

  /** The three forms: a byte, a marker and two bytes, a marker and eight, most significant first; the mask bit on top. */
  lemma LengthFieldBytes(n: nat, masked: bool)
    ensures var f, top := LengthField(n, masked), if masked then 128 else 0;
            && (n < 126 ==> f == [top + n])
            && (126 <= n < 0x1_0000 ==> f == [top + 126, n / 256, n % 256])
            && (n >= 0x1_0000 ==> |f| == 9 && f[0] == top + 127 && forall i :: 0 <= i < 8 ==> f[1..][i] == n / Pow2(8 * (7 - i)) % 256)
  {
    if 126 <= n < 0x1_0000 {
      assert BigEndian(n / 256 / 256, 0) == [] && BigEndian(n / 256, 1) == [] + [n / 256 % 256];
      assert BigEndian(n, 2) == BigEndian(n / 256, 1) + [n % 256];
    } else if n >= 0x1_0000 {
      assert LengthField(n, masked)[1..] == BigEndian(n, 8);
      forall i | 0 <= i < 8
        ensures BigEndian(n, 8)[i] == n / Pow2(8 * (7 - i)) % 256
      {
        BigEndianAt(n, 8, i);
      }
    }
  }

  /** No field that is read as the same length is shorter. */
  lemma LengthFieldIsMinimal(op: Byte, n: nat, masked: bool, field: seq<Byte>, h: Header)
    requires n < 0x8000_0000_0000_0000
    requires ParseHeader([op] + field) == Some(h) && h.length == n && h.size == 1 + |field|
    ensures |LengthField(n, masked)| <= |field|
  {
    if |field| == 3 {
      assert ([op] + field)[2..4] == field[1..3];
      ShortLength(field[1..3]);
    }
    hide FromBigEndian, ToInt64, BigEndian;
  }

  /** Why a stream is refused: no mask bit, a length over 2^20, or bytes missing; the fourth failure is `PanicsIff`. */
  lemma RefusedIff(s: seq<Byte>)
    ensures Decode(s) == Failed(NotMasked) <==> |s| >= 2 && s[1] < 128
    ensures Decode(s) == Failed(TooLarge) <==> |s| >= 10 && s[1] == 255 && s[2] < 128 && FromBigEndian(s[2..10]) > 0x10_0000
    ensures |s| >= 10 && s[1] >= 128 ==>
              var size := if s[1] == 254 then 4 else if s[1] == 255 then 10 else 2;
              var length := if s[1] == 254 then FromBigEndian(s[2..4]) else if s[1] == 255 then FromBigEndian(s[2..10]) else s[1] as int - 128;
              length <= 0x10_0000 ==> (Decode(s) == Failed(ShortRead) <==> |s| < size + 4 + length)
    ensures |s| < 2 ==> Decode(s) == Failed(ShortRead)
  {
    if |s| >= 10 {
      TopBitOfLength(s[2..10]);
      ShortLength(s[2..4]);
    } else if |s| >= 4 {
      ShortLength(s[2..4]);
    }
    hide FromBigEndian, Mask;
  }

  /** The upper half of the first byte, final-fragment and reserved bits, makes no difference. */
  lemma UpperNibbleIgnored(s: seq<Byte>, first: Byte)
    requires s != [] && first % 16 == s[0] % 16
    ensures Decode([first] + s[1..]) == Decode(s)
  {
    var t := [first] + s[1..];
    assert |t| == |s| && forall i :: 1 <= i < |s| ==> t[i] == s[i];
    assert forall a, b :: 1 <= a <= b <= |s| ==> t[a..b] == s[a..b];
    hide FromBigEndian, Mask;
  }
}
