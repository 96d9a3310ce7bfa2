/** The proof-of-work walkthrough: the padded header as drawn, and the two Merkle folds. */
module Merkle {
  import opened Bits
  import opened Common
  import opened Sha256Spec
  import S = Sha256
  import opened Hex

  // ---- the Merkle root, folded twice by different code

  datatype Fault = RangeError

  const MAX_DIGITS := 2 * S.MAX_LENGTH

  /** `Uint8Array.set(left); Uint8Array.set(right, 32)` on 64 zero bytes throws when `right` does not fit. */
  function Joined(left: seq<Byte>, right: seq<Byte>): (r: Result<seq<Byte>, Fault>)
    requires |left| == 32
    ensures r.Ok? ==> |r.value| == 64
  {
    if |right| > 32 then Err(RangeError) else Ok(left + right + Zeros(32 - |right|))
  }

  function Fold(node: seq<Byte>, branches: seq<string>): (r: Result<seq<Byte>, Fault>)
    requires |node| == 32
    ensures r.Ok? ==> |r.value| == 32
    decreases |branches|
  {
    if branches == [] then Ok(node) else
      var joined := Joined(node, BytesOf(branches[0]));
      if joined.Err? then Err(joined.error) else Fold(DoubleHash(joined.value), branches[1..])
  }

  method Join(left: seq<Byte>, right: seq<Byte>) returns (r: Result<seq<Byte>, Fault>)
    requires |left| == 32
    ensures r == Joined(left, right)
  {
    if |right| > 32 {
      return Err(RangeError);
    }
    var buf := S.CopyInto(left, 64);
    forall i | 0 <= i < |right| {
      buf[32 + i] := right[i];
    }
    assert buf[..] == left + right + Zeros(32 - |right|);
    r := Ok(buf[..]);
  }

  /** `computeChecks`: the node is kept as bytes. */
  method FoldBytes(coinbase: string, branches: seq<string>) returns (r: Result<string, Fault>)
    requires |coinbase| <= MAX_DIGITS
    ensures r == match Fold(DoubleHash(BytesOf(coinbase)), branches)
                 { case Ok(root) => Ok(BytesToHex(root)) case Err(e) => Err(e) }
    ensures forall nodes: seq<Leaf> :: nodes != [] && nodes[0] == DoubleHash(BytesOf(coinbase)) && Writes(branches, nodes) ==>
              r == Ok(BytesToHex(Root(nodes)))
  {
    hide DoubleHash, Joined, BytesToHex, BytesOf, Fold;
    var cb := HexToBytes(coinbase);
    var node := S.Sha256d(cb[..]);
    ghost var start := node;
    RootsOf(start, branches);
    assert branches[0..] == branches;
    for i := 0 to |branches|
      invariant |node| == 32 && Fold(start, branches) == Fold(node, branches[i..])
    {
      FoldStep(node, branches, i);
      var b := HexToBytes(branches[i]);
      var joined := Join(node, b[..]);
      if joined.Err? {
        return Err(joined.error);
      }
      node := S.Sha256d(joined.value);
    }
    FoldEnd(node, branches);
    r := Ok(BytesToHex(node));
  }

  lemma FoldStep(node: seq<Byte>, branches: seq<string>, i: nat)
    requires |node| == 32 && i < |branches|
    ensures var joined := Joined(node, BytesOf(branches[i]));
            Fold(node, branches[i..]) ==
              if joined.Err? then Err(joined.error) else Fold(DoubleHash(joined.value), branches[i + 1..])
  {
    hide DoubleHash, Joined, BytesOf;
    assert branches[i..][1..] == branches[i + 1..];
  }

  lemma FoldEnd(node: seq<Byte>, branches: seq<string>)
    requires |node| == 32
    ensures Fold(node, branches[|branches|..]) == Ok(node)
  {
  }

  /** The fold over hex text: every step decodes the node it encoded before. */
  function FoldText(node: string, branches: seq<string>): Result<string, Fault>
    requires IsHex(node) && |node| == 64
    decreases |branches|
  {
    if branches == [] then Ok(node) else
      var joined := Joined(BytesOf(node), BytesOf(branches[0]));
      if joined.Err? then Err(joined.error) else FoldText(HashHex(joined.value), branches[1..])
  }

  lemma HashText(m: seq<Byte>)
    ensures var s := BytesToHex(DoubleHash(m)); IsHex(s) && |s| == 64
  {
    hide DoubleHash;
    HexShape(DoubleHash(m));
    BytesToHexIsHex(DoubleHash(m));
  }

  /** `bytesToHex(sha256d(m))`. */
  function HashHex(m: seq<Byte>): (s: string)
    ensures IsHex(s) && |s| == 64
  {
    HashText(m);
    BytesToHex(DoubleHash(m))
  }

  /** `buildTimeline`: the node is kept as hex and decoded again for every fold. */
  method FoldHex(coinbase: string, branches: seq<string>) returns (r: Result<string, Fault>)
    requires |coinbase| <= MAX_DIGITS
    ensures r == FoldText(HashHex(BytesOf(coinbase)), branches)
    ensures forall nodes: seq<Leaf> :: nodes != [] && nodes[0] == DoubleHash(BytesOf(coinbase)) && Writes(branches, nodes) ==>
              r == Ok(BytesToHex(Root(nodes)))
  {
    hide DoubleHash, Joined, BytesToHex, BytesOf, FoldText;
    var cb := HexToBytes(coinbase);
    var txid := S.Sha256d(cb[..]);
    var node := BytesToHex(txid);
    ghost var start := HashHex(cb[..]);
    RootsOf(txid, branches);
    FoldsAgree(txid, branches);
    assert branches[0..] == branches;
    for i := 0 to |branches|
      invariant IsHex(node) && |node| == 64
      invariant FoldText(start, branches) == FoldText(node, branches[i..])
    {
      FoldTextStep(node, branches, i);
      var left := HexToBytes(node);
      var right := HexToBytes(branches[i]);
      var joined := Join(left[..], right[..]);
      if joined.Err? {
        return Err(joined.error);
      }
      var result := S.Sha256d(joined.value);
      node := BytesToHex(result);
    }
    FoldTextEnd(node, branches);
    r := Ok(node);
  }

  lemma FoldTextStep(node: string, branches: seq<string>, i: nat)
    requires IsHex(node) && |node| == 64 && i < |branches|
    ensures var joined := Joined(BytesOf(node), BytesOf(branches[i]));
            FoldText(node, branches[i..]) ==
              if joined.Err? then Err(joined.error) else FoldText(HashHex(joined.value), branches[i + 1..])
  {
    hide HashHex, Joined, BytesOf;
    assert branches[i..][1..] == branches[i + 1..];
  }

  lemma FoldTextEnd(node: string, branches: seq<string>)
    requires IsHex(node) && |node| == 64
    ensures FoldText(node, branches[|branches|..]) == Ok(node)
  {
  }

  /** Both folds give the same root, and fail on the same inputs, for every coinbase and branch list. */
  lemma {:induction false} FoldsAgree(node: seq<Byte>, branches: seq<string>)
    requires |node| == 32
    ensures var text := BytesToHex(node);
            && IsHex(text) && |text| == 64
            && FoldText(text, branches) ==
                 match Fold(node, branches) { case Ok(root) => Ok(BytesToHex(root)) case Err(e) => Err(e) }
    decreases |branches|
  {
    HexShape(node);
    BytesOfHex(node);
    hide DoubleHash, BytesToHex, BytesOf;
    if branches != [] {
      var joined := Joined(node, BytesOf(branches[0]));
      if joined.Ok? {
        FoldsAgree(DoubleHash(joined.value), branches[1..]);
      }
    }
  }

  // ---- the tree the folds are for

  type Leaf = b: seq<Byte> | |b| == 32 witness Zeros(32)

  /** The parent of two nodes. */
  function Parent(left: seq<Byte>, right: seq<Byte>): Leaf {
    DoubleHash(left + right)
  }

  /** One level up: neighbours are hashed together, left before right, an odd last one with itself. */
  function LevelUp(nodes: seq<Leaf>): (up: seq<Leaf>)
    requires nodes != []
    ensures |up| == (|nodes| + 1) / 2
  {
    if |nodes| == 1 then [Parent(nodes[0], nodes[0])]
    else if |nodes| == 2 then [Parent(nodes[0], nodes[1])]
    else [Parent(nodes[0], nodes[1])] + LevelUp(nodes[2..])
  }

  /** The Merkle root of a list of transactions. */
  function Root(nodes: seq<Leaf>): Leaf
    requires nodes != []
    decreases |nodes|
  {
    if |nodes| == 1 then nodes[0] else Root(LevelUp(nodes))
  }

  /** What stands to the right of the first transaction's path, level by level. */
  function Siblings(nodes: seq<Leaf>): seq<Leaf>
    requires nodes != []
    decreases |nodes|
  {
    if |nodes| == 1 then [] else [nodes[1]] + Siblings(LevelUp(nodes))
  }

  /** The branch texts write the siblings of the first transaction. */
  ghost predicate Writes(branches: seq<string>, nodes: seq<Leaf>)
    requires nodes != []
  {
    |branches| == |Siblings(nodes)| && forall i :: 0 <= i < |branches| ==> BytesOf(branches[i]) == Siblings(nodes)[i]
  }

  /** Folding the first transaction with its siblings gives the root of the tree, whatever the transactions. */
  lemma {:induction false} FoldGivesRoot(nodes: seq<Leaf>, branches: seq<string>)
    requires nodes != []
    ensures Writes(branches, nodes) ==> Fold(nodes[0], branches) == Ok(Root(nodes))
    decreases |nodes|
  {
    hide DoubleHash, BytesOf, Joined;
    if |nodes| > 1 && Writes(branches, nodes) {
      var up := LevelUp(nodes);
      SiblingsBelow(nodes);
      assert BytesOf(branches[0]) == nodes[1];
      JoinedPair(nodes[0], nodes[1]);
      assert forall i :: 0 <= i < |branches| - 1 ==> branches[1..][i] == branches[i + 1];
      FoldGivesRoot(up, branches[1..]);
    }
  }

  lemma SiblingsBelow(nodes: seq<Leaf>)
    requires |nodes| > 1
    ensures Siblings(nodes) == [nodes[1]] + Siblings(LevelUp(nodes)) && LevelUp(nodes)[0] == Parent(nodes[0], nodes[1])
    ensures forall i :: 0 <= i < |Siblings(LevelUp(nodes))| ==> Siblings(nodes)[i + 1] == Siblings(LevelUp(nodes))[i]
  {
    hide Parent;
  }

  lemma JoinedPair(left: seq<Byte>, right: seq<Byte>)
    requires |left| == |right| == 32
    ensures Joined(left, right) == Ok(left + right)
  {
    assert Zeros(0) == [];
    assert left + right + [] == left + right;
  }

  /** Byte by byte: the left side, the right side behind it, zeros where it is short, and a failure where it is long. */
  lemma JoinedAt(left: seq<Byte>, right: seq<Byte>, i: nat)
    requires |left| == 32 && i < 64
    ensures Joined(left, right).Err? <==> |right| > 32
    ensures Joined(left, right).Ok? ==>
              Joined(left, right).value[i] == if i < 32 then left[i] else if i < 32 + |right| then right[i - 32] else 0
  {
  }

  lemma RootsOf(node: Leaf, branches: seq<string>)
    ensures forall nodes: seq<Leaf> :: nodes != [] && nodes[0] == node && Writes(branches, nodes) ==>
              Fold(node, branches) == Ok(Root(nodes))
  {
    forall nodes: seq<Leaf> | nodes != [] && nodes[0] == node && Writes(branches, nodes)
      ensures Fold(node, branches) == Ok(Root(nodes))
    {
      FoldGivesRoot(nodes, branches);
    }
  }

  // ---- the padded header, drawn as two blocks

  datatype Segment = Segment(cls: string, hex: string)

  function JoinHex(segs: seq<Segment>): string {
    if segs == [] then "" else JoinHex(segs[..|segs| - 1]) + segs[|segs| - 1].hex
  }

  const LENGTH := "0000000000000280"

  /** The header's fields in order. */
  function Fields(header: string): (f: seq<Segment>)
    requires |header| == 160
    ensures |f| == 6
  {
    [Segment("sg-version", header[0..8]), Segment("sg-prev", header[8..72]), Segment("sg-merkle", header[72..136]),
     Segment("sg-time", header[136..144]), Segment("sg-bits", header[144..152]), Segment("sg-nonce", header[152..160])]
  }

  function PaddedText(header: string): string {
    header + "80" + ZeroDigits(78) + LENGTH
  }

  method PadBlocks(header: string) returns (out0: seq<Segment>, out1: seq<Segment>)
    requires |header| == 160
    ensures |JoinHex(out0)| == |JoinHex(out1)| == 128
    ensures JoinHex(out0) + JoinHex(out1) == PaddedText(header)
  {
    var segs := Fields(header) + [Segment("sg-pad", "80" + ZeroDigits(78)), Segment("sg-len", LENGTH)];
    SegmentsJoin(header);
    hide Fields, JoinHex;
    EmptyText();
    out0, out1 := [], [];
    var pos := 0;
    for i := 0 to |segs|
      invariant pos == |JoinHex(segs[..i])|
      invariant Drawn(out0, out1, JoinHex(segs[..i]))
    {
      assert segs[..i + 1] == segs[..i] + [segs[i]];
      JoinHexSnoc(segs[..i], segs[i]);
      out0, out1 := Place(out0, out1, JoinHex(segs[..i]), pos, segs[i]);
      pos := pos + |segs[i].hex|;
    }
    assert segs[..|segs|] == segs;
    assert |PaddedText(header)| == 256;
  }

  /** The first block shows the first 128 digits of `text`, the second the rest. */
  ghost predicate Drawn(out0: seq<Segment>, out1: seq<Segment>, text: string) {
    && JoinHex(out0) + JoinHex(out1) == text
    && |JoinHex(out0)| == if |text| < 128 then |text| else 128
  }

  method Place(out0: seq<Segment>, out1: seq<Segment>, ghost text: string, pos: nat, s: Segment)
    returns (new0: seq<Segment>, new1: seq<Segment>)
    requires Drawn(out0, out1, text) && pos == |text|
    ensures Drawn(new0, new1, text + s.hex)
  {
    hide JoinHex, Drawn;
    var end := pos + |s.hex|;
    new0, new1 := out0, out1;
    if end <= 128 {
      new0 := out0 + [s];
      DrawnInFirst(out0, out1, text, s);
    } else if pos >= 128 {
      new1 := out1 + [s];
      DrawnInSecond(out0, out1, text, s);
    } else {
      new0 := out0 + [Segment(s.cls, s.hex[..128 - pos])];
      new1 := out1 + [Segment(s.cls, s.hex[128 - pos..])];
      DrawnInBoth(out0, out1, text, s);
    }
  }

  lemma DrawnInFirst(out0: seq<Segment>, out1: seq<Segment>, text: string, s: Segment)
    requires Drawn(out0, out1, text) && |text| + |s.hex| <= 128
    ensures Drawn(out0 + [s], out1, text + s.hex)
  {
    hide JoinHex;
    JoinHexSnoc(out0, s);
    assert |JoinHex(out0)| == |text|;
    assert JoinHex(out1) == "" && JoinHex(out0) == text by {
      OnlyFirst(JoinHex(out0), JoinHex(out1), text);
    }
    OnlyFirst(text + s.hex, "", text + s.hex);
  }

  lemma OnlyFirst(x: string, y: string, z: string)
    ensures x + y == z && |x| == |z| ==> y == "" && x == z
    ensures x + "" == x
  {
  }

  lemma DrawnInSecond(out0: seq<Segment>, out1: seq<Segment>, text: string, s: Segment)
    requires Drawn(out0, out1, text) && |text| >= 128
    ensures Drawn(out0, out1 + [s], text + s.hex)
  {
    hide JoinHex;
    JoinHexSnoc(out1, s);
    assert JoinHex(out0) + (JoinHex(out1) + s.hex) == JoinHex(out0) + JoinHex(out1) + s.hex;
  }

  lemma DrawnInBoth(out0: seq<Segment>, out1: seq<Segment>, text: string, s: Segment)
    requires Drawn(out0, out1, text) && |text| < 128 < |text| + |s.hex|
    ensures var cut := 128 - |text|;
            Drawn(out0 + [Segment(s.cls, s.hex[..cut])], out1 + [Segment(s.cls, s.hex[cut..])], text + s.hex)
  {
    hide JoinHex;
    var cut := 128 - |text|;
    JoinHexSnoc(out0, Segment(s.cls, s.hex[..cut]));
    JoinHexSnoc(out1, Segment(s.cls, s.hex[cut..]));
    OnlyFirst(JoinHex(out0), JoinHex(out1), text);
    OnlyFirst(s.hex[cut..], "", s.hex[cut..]);
    SplitText(text, s.hex, cut);
  }

  lemma SplitText(text: string, hex: string, cut: nat)
    requires cut <= |hex|
    ensures (text + hex[..cut]) + ("" + hex[cut..]) == text + hex
  {
  }

  lemma EmptyText()
    ensures JoinHex([]) == ""
  {
  }

  lemma JoinHexSnoc(segs: seq<Segment>, s: Segment)
    ensures JoinHex(segs + [s]) == JoinHex(segs) + s.hex
  {
    assert (segs + [s])[..|segs|] == segs;
  }

  lemma SegmentsJoin(header: string)
    requires |header| == 160
    ensures JoinHex(Fields(header) + [Segment("sg-pad", "80" + ZeroDigits(78)), Segment("sg-len", LENGTH)])
            == PaddedText(header)
  {
    var f, pad, len := Fields(header), Segment("sg-pad", "80" + ZeroDigits(78)), Segment("sg-len", LENGTH);
    FieldsJoin(header);
    hide JoinHex, ZeroDigits, Fields, PaddedText;
    JoinThree(f[0], f[1], f[2]);
    JoinThree(f[3], f[4], f[5]);
    JoinHexAppend([f[0], f[1], f[2]], [f[3], f[4], f[5]]);
    assert [f[0], f[1], f[2]] + [f[3], f[4], f[5]] == f;
    assert JoinHex(f) == header;
    TailJoin(f, pad, len);
    PaddedTextParts(header);
  }

  lemma TailJoin(f: seq<Segment>, pad: Segment, len: Segment)
    ensures JoinHex(f + [pad, len]) == JoinHex(f) + pad.hex + len.hex
  {
    JoinHexSnoc(f, pad);
    JoinHexSnoc(f + [pad], len);
    assert f + [pad, len] == f + [pad] + [len];
    hide JoinHex;
  }

  lemma PaddedTextParts(header: string)
    ensures PaddedText(header) == header + ("80" + ZeroDigits(78)) + LENGTH
  {
    hide ZeroDigits;
    assert header + "80" + ZeroDigits(78) == header + ("80" + ZeroDigits(78));
  }

  lemma {:induction false} JoinHexAppend(x: seq<Segment>, y: seq<Segment>)
    ensures JoinHex(x + y) == JoinHex(x) + JoinHex(y)
  {
    if y == [] {
      assert x + y == x;
    } else {
      var front, last := y[..|y| - 1], y[|y| - 1];
      assert JoinHex(y) == JoinHex(front) + last.hex;
      hide JoinHex;
      assert y == front + [last];
      assert x + y == (x + front) + [last];
      JoinHexSnoc(x + front, last);
      JoinHexAppend(x, front);
      assert JoinHex(x) + (JoinHex(front) + last.hex) == JoinHex(x) + JoinHex(front) + last.hex;
    }
  }

  lemma JoinOne(a: Segment)
    ensures JoinHex([a]) == a.hex
  {
    EmptyText();
    hide JoinHex;
    JoinHexSnoc([], a);
    assert [] + [a] == [a];
    assert "" + a.hex == a.hex;
  }

  lemma JoinThree(a: Segment, b: Segment, c: Segment)
    ensures JoinHex([a, b, c]) == a.hex + b.hex + c.hex
  {
    hide JoinHex;
    JoinOne(a);
    assert [a, b] == [a] + [b];
    JoinHexSnoc([a], b);
    assert [a, b, c] == [a, b] + [c];
    JoinHexSnoc([a, b], c);
  }

  lemma FieldsJoin(header: string)
    requires |header| == 160
    ensures var f := Fields(header);
            |f| == 6 && f[0].hex + f[1].hex + f[2].hex + (f[3].hex + f[4].hex + f[5].hex) == header
  {
  }

  lemma BytesOfJoin(x: string, y: string)
    requires |x| % 2 == 0
    ensures BytesOf(x + y) == BytesOf(x) + BytesOf(y)
  {
    hide ParseInt16;
    var a, b, k := BytesOf(x + y), BytesOf(x) + BytesOf(y), |x| / 2;
    assert |x| == 2 * k;
    forall i | 0 <= i < |a|
      ensures a[i] == b[i]
    {
      if i < k {
        PairInFront(x, y, 2 * i);
      } else {
        PairBehind(x, y, 2 * (i - k));
      }
    }
  }

  lemma PairInFront(x: string, y: string, p: nat)
    requires p + 2 <= |x|
    ensures (x + y)[p..p + 2] == x[p..p + 2]
  {
  }

  lemma PairBehind(x: string, y: string, p: nat)
    requires p + 2 <= |y|
    ensures (x + y)[|x| + p..|x| + p + 2] == y[p..p + 2]
  {
  }

  /** The drawn blocks are, digit for digit, the padded message the hash function builds. */
  lemma DrawnBlocksArePaddedMessage(header: string)
    requires |header| == 160
    ensures BytesOf(PaddedText(header)) == Pad(BytesOf(header))
  {
    hide BytesOf, Pad;
    BytesOfJoin(header, "80");
    BytesOfJoin(header + "80", ZeroDigits(78));
    BytesOfJoin(header + "80" + ZeroDigits(78), LENGTH);
    MarkerByte();
    ZeroText(39);
    LengthField();
    PadOfHeader(BytesOf(header));
  }

  lemma PadOfHeader(msg: seq<Byte>)
    requires |msg| == 80
    ensures Pad(msg) == msg + [0x80] + Zeros(39) + BigEndian(640, 8)
  {
    hide Zeros, BigEndian;
  }

  lemma MarkerByte()
    ensures BytesOf("80") == [0x80]
  {
    ByteAt("80", 0);
    hide BytesOf;
  }

  lemma ZeroText(n: nat)
    ensures BytesOf(ZeroDigits(2 * n)) == Zeros(n)
  {
    var zeros := ZeroDigits(2 * n);
    forall i | 0 <= i < n
      ensures BytesOf(zeros)[i] == 0
    {
      ByteAt(zeros, i);
    }
    hide BytesOf;
  }

  lemma {:induction false} BigEndianZero(n: nat)
    ensures BigEndian(0, n) == Zeros(n)
  {
    if n > 0 {
      BigEndianZero(n - 1);
    }
  }

  lemma LengthField()
    ensures BytesOf(LENGTH) == BigEndian(640, 8)
  {
    hide BytesOf;
    assert LENGTH == ZeroDigits(12) + "0280";
    BytesOfJoin(ZeroDigits(12), "0280");
    ZeroText(6);
    ByteAt("0280", 0);
    ByteAt("0280", 1);
    assert BytesOf("0280") == [2, 0x80];
    BigEndianZero(6);
    assert BigEndian(2, 7) == BigEndian(0, 6) + [2];
    assert BigEndian(640, 8) == BigEndian(2, 7) + [0x80];
  }
}
