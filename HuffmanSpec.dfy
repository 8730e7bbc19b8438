/**
 * What HuffmanCoder computes, as functions of its input: the frequency
 * table, the trees build_tree may return for it, the compressed layout, and
 * decompress. Then the properties: the root weighs the input length, the
 * framing fields sit where decompress looks for them, and decompress undoes
 * compress whenever the input has two or more distinct bytes. With one
 * distinct byte it does not (SingleSymbolOverrun); bounding the tree parse
 * by its declared length repairs that (DecompressBoundedCompress).
 */
module HuffmanSpec {
  import opened HuffmanTree
  import opened HuffmanBits

  // ---------------------------------------------------------------------------
  // The frequency table and the trees build_tree returns for it
  // ---------------------------------------------------------------------------

  /** The distinct bytes of the input. */
  function Symbols(input: seq<uint8>): set<uint8> {
    set b | b in input
  }

  /** The table compress counts: each byte of the input with its number of occurrences. */
  function Frequencies(input: seq<uint8>): (frequencies: map<uint8, nat>)
    ensures frequencies.Keys == Symbols(input)
  {
    map b | b in input :: multiset(input)[b]
  }

  /** The frequency of a node; a null child weighs nothing. */
  function Weight(t: Tree): nat {
    if t.Nil? then 0 else t.frequency
  }

  /** A leaf carries its byte's count, any other node the sum of its children's. */
  predicate Weighted(t: Tree, frequencies: map<uint8, nat>) {
    match t
    case Nil => true
    case Node(data, frequency, left, right) =>
      if IsLeaf(t) then data in frequencies && frequency == frequencies[data]
      else frequency == Weight(left) + Weight(right) && Weighted(left, frequencies) && Weighted(right, frequencies)
  }

  /**
   * The trees build_tree may return for a non-empty table, whatever order
   * the priority queue pops equal frequencies in: one leaf per table entry,
   * weights that add up, and either the single-entry shape (an internal
   * node with the leaf on its left and no right child) or a full tree.
   */
  predicate HuffmanTreeFor(t: Tree, frequencies: map<uint8, nat>) {
    && multiset(LeafBytes(t)) == multiset(frequencies.Keys)
    && Weighted(t, frequencies)
    && (|frequencies.Keys| == 1 ==> t.Node? && t.data == 0 && IsLeaf(t.left) && t.right == Nil)
    && (|frequencies.Keys| >= 2 ==> Full(t) && !IsLeaf(t))
  }

  /** The count of a byte in the table, 0 when it has no entry. */
  function Lookup(frequencies: map<uint8, nat>, b: uint8): nat {
    if b in frequencies then frequencies[b] else 0
  }

  /** The counts of a list of bytes, added up. */
  function SumFrequencies(bytes: seq<uint8>, frequencies: map<uint8, nat>): nat
    decreases |bytes|
  {
    if |bytes| == 0 then 0 else Lookup(frequencies, bytes[0]) + SumFrequencies(bytes[1..], frequencies)
  }

  lemma {:induction false} SumFrequenciesAppend(a: seq<uint8>, b: seq<uint8>, frequencies: map<uint8, nat>)
    ensures SumFrequencies(a + b, frequencies) == SumFrequencies(a, frequencies) + SumFrequencies(b, frequencies)
    decreases |a|
  {
    if |a| == 0 {
      assert a + b == b;
    } else {
      assert (a + b)[1..] == a[1..] + b;
      SumFrequenciesAppend(a[1..], b, frequencies);
    }
  }

  /** A node's frequency is the total count of its leaves. */
  lemma {:induction false} WeightIsLeafSum(t: Tree, frequencies: map<uint8, nat>)
    requires Weighted(t, frequencies)
    ensures Weight(t) == SumFrequencies(LeafBytes(t), frequencies)
  {
    match t
    case Nil =>
    case Node(_, _, left, right) =>
      if !IsLeaf(t) {
        WeightIsLeafSum(left, frequencies);
        WeightIsLeafSum(right, frequencies);
        SumFrequenciesAppend(LeafBytes(left), LeafBytes(right), frequencies);
      }
  }

  /** One more input byte `y` adds, over `bytes`, as many as `bytes` holds copies of `y`. */
  lemma {:induction false} SumFrequenciesSnoc(bytes: seq<uint8>, input: seq<uint8>, y: uint8)
    ensures SumFrequencies(bytes, Frequencies(input + [y])) == SumFrequencies(bytes, Frequencies(input)) + multiset(bytes)[y]
    decreases |bytes|
  {
    if |bytes| > 0 {
      SumFrequenciesSnoc(bytes[1..], input, y);
      assert bytes == [bytes[0]] + bytes[1..];
      assert multiset(input + [y]) == multiset(input) + multiset{y};
    }
  }

  /** Over a list holding each input byte exactly once, the counts add up to the input length. */
  lemma {:induction false} CountsAddUp(bytes: seq<uint8>, input: seq<uint8>)
    requires forall b :: b in input ==> multiset(bytes)[b] == 1
    ensures SumFrequencies(bytes, Frequencies(input)) == |input|
    decreases |input|
  {
    if |input| == 0 {
      ZeroCounts(bytes);
    } else {
      var init, y := input[..|input| - 1], input[|input| - 1];
      assert input == init + [y];
      CountsAddUp(bytes, init);
      SumFrequenciesSnoc(bytes, init, y);
    }
  }

  lemma {:induction false} ZeroCounts(bytes: seq<uint8>)
    ensures SumFrequencies(bytes, Frequencies([])) == 0
    decreases |bytes|
  {
    if |bytes| > 0 {
      ZeroCounts(bytes[1..]);
    }
  }

  /** The root of the tree built for a non-empty input weighs the input length. */
  lemma RootFrequency(t: Tree, input: seq<uint8>)
    requires |input| > 0 && HuffmanTreeFor(t, Frequencies(input))
    ensures t.Node? && t.frequency == |input|
  {
    var frequencies := Frequencies(input);
    assert input[0] in frequencies.Keys;
    WeightIsLeafSum(t, frequencies);
    forall b | b in input
      ensures multiset(LeafBytes(t))[b] == 1
    {
      assert b in frequencies.Keys;
    }
    CountsAddUp(LeafBytes(t), input);
  }

  /** The tree for a single distinct byte is determined: the leaf under an internal node, both weighing the input length. */
  lemma SingleSymbolTree(t: Tree, input: seq<uint8>)
    requires |Symbols(input)| == 1 && HuffmanTreeFor(t, Frequencies(input))
    ensures t == Internal(|input|, Leaf(input[0], |input|), Nil)
  {
    RootFrequency(t, input);
    assert LeafBytes(t) == LeafBytes(t.left) == [t.left.data];
    assert input[0] in Frequencies(input).Keys;
    assert multiset(LeafBytes(t))[input[0]] == 1;
    assert t.left.data == input[0];
  }

  // ---------------------------------------------------------------------------
  // Sizes
  // ---------------------------------------------------------------------------

  /** The byte values below n. */
  function Below(n: nat): (s: set<uint8>)
    requires n <= 0x100
    ensures |s| == n
    ensures forall b: uint8 :: b in s <==> (b as int) < n
  {
    if n == 0 then {} else Below(n - 1) + {(n - 1) as uint8}
  }

  lemma {:induction false} SubsetSize(a: set<uint8>, b: set<uint8>)
    requires a <= b
    ensures |a| <= |b|
  {
    if a != {} {
      var x :| x in a;
      SubsetSize(a - {x}, b - {x});
    }
  }

  /** A tree built for any input has at most 256 leaves and serialises to at most 767 bytes. */
  lemma SerializeBound(t: Tree, frequencies: map<uint8, nat>)
    requires |frequencies.Keys| >= 1 && HuffmanTreeFor(t, frequencies)
    ensures |Serialize(t)| <= 767
  {
    SubsetSize(frequencies.Keys, Below(0x100));
    assert |LeafBytes(t)| == |multiset(LeafBytes(t))| == |frequencies.Keys|;
    if |frequencies.Keys| >= 2 {
      SerializeLength(t);
    } else {
      assert Serialize(t) == [0] + Serialize(t.left);
    }
  }

  // ---------------------------------------------------------------------------
  // compress
  // ---------------------------------------------------------------------------

  /** The code bits of the input under the tree's code table. */
  function EncodedBits(input: seq<uint8>, t: Tree): seq<bool> {
    EncodeAll(GenerateCodes(t, []), input)
  }

  /**
   * compress's output given the tree build_tree returned: nothing for an
   * empty input, otherwise the tree length (truncated to 32 bits), the
   * tree, the padding byte and the packed code bits.
   */
  function Compressed(input: seq<uint8>, t: Tree): seq<uint8> {
    if |input| == 0 then []
    else
      var tree := Serialize(t);
      var bits := EncodedBits(input, t);
      BigEndian32(|tree| % TwoTo32) + tree + [Padding(|bits|)] + Pack(bits)
  }

  lemma SmallLength(n: nat)
    requires n <= 767
    ensures n % TwoTo32 == n
  {
  }

  /** The fields of a frame: the length, the tree bytes, the padding byte and the payload, each where decompress reads it. */
  lemma FrameFields(tree: seq<uint8>, padding: uint8, payload: seq<uint8>)
    requires |tree| < TwoTo32
    ensures var out := BigEndian32(|tree|) + tree + [padding] + payload;
      && ReadBigEndian32(out) == |tree|
      && |out| == 5 + |tree| + |payload|
      && out[4..4 + |tree|] == tree
      && out[4 + |tree|] == padding
      && out[5 + |tree|..] == payload
  {
    var rest := tree + [padding] + payload;
    assert BigEndian32(|tree|) + tree + [padding] + payload == BigEndian32(|tree|) + rest;
    ReadBigEndian32Write(|tree|, rest);
  }

  /**
   * Where the fields sit: bytes 0..3 read back as the tree length, the tree
   * bytes follow, then the padding byte (below 8) and ceil(bits/8) payload
   * bytes; every input byte has a code of at least one bit.
   */
  lemma CompressedLayout(input: seq<uint8>, t: Tree)
    requires |input| > 0 && HuffmanTreeFor(t, Frequencies(input))
    ensures var out, tree, bits := Compressed(input, t), Serialize(t), EncodedBits(input, t);
      && ReadBigEndian32(out) == |tree|
      && |out| == 5 + |tree| + (|bits| + 7) / 8
      && out[4..4 + |tree|] == tree
      && out[4 + |tree|] == Padding(|bits|) < 8
      && out[5 + |tree|..] == Pack(bits)
    ensures forall b :: b in input ==> b in GenerateCodes(t, []) && |GenerateCodes(t, [])[b]| > 0
  {
    var tree, bits := Serialize(t), EncodedBits(input, t);
    assert input[0] in Frequencies(input).Keys;
    SerializeBound(t, Frequencies(input));
    SmallLength(|tree|);
    assert Compressed(input, t) == BigEndian32(|tree|) + tree + [Padding(|bits|)] + Pack(bits);
    FrameFields(tree, Padding(|bits|), Pack(bits));
    forall b | b in input
      ensures b in GenerateCodes(t, []) && |GenerateCodes(t, [])[b]| > 0
    {
      TreeCodes(t, input, b);
    }
  }

  /** Every input byte has a code, and no code is empty: the root is not a leaf. */
  lemma TreeCodes(t: Tree, input: seq<uint8>, b: uint8)
    requires HuffmanTreeFor(t, Frequencies(input)) && b in input
    ensures t.Node? && !IsLeaf(t) && b in LeafBytes(t)
    ensures b in GenerateCodes(t, []) && |GenerateCodes(t, [])[b]| > 0
  {
    assert b in Frequencies(input).Keys;
    assert multiset(LeafBytes(t))[b] == 1;
    CodesKeys(t, []);
    CodesLonger(t, [], b);
  }

  // ---------------------------------------------------------------------------
  // decompress
  // ---------------------------------------------------------------------------

  /**
   * decompress as written: empty for fewer than 5 bytes, when 4 plus the
   * declared tree length reaches the end, or when the parsed root is null.
   * The tree is parsed from the whole input, not from the declared tree
   * bytes, and the padding byte is read wherever the parse stopped, which
   * can be past the end. The payload bits are then walked from the root.
   */
  function Decompressed(input: seq<uint8>): Outcome {
    if |input| < 5 then Returned([])
    else
      var treeSize := ReadBigEndian32(input);
      if 4 + treeSize >= |input| then Returned([])
      else
        var parsed := Deserialize(input, 4);
        var root, index := parsed.tree, parsed.next;
        if root == Nil then Returned([])
        else if index >= |input| then Undefined
        else Walk(root, root, Unpack(input[index + 1..], input[index]))
  }

  /**
   * decompress with the tree parse confined to the declared tree bytes and
   * the padding byte taken right after them.
   */
  function DecompressedBounded(input: seq<uint8>): Outcome {
    if |input| < 5 then Returned([])
    else
      var treeSize := ReadBigEndian32(input);
      if 4 + treeSize >= |input| then Returned([])
      else
        var root := Deserialize(input[..4 + treeSize], 4).tree;
        if root == Nil then Returned([])
        else Walk(root, root, Unpack(input[5 + treeSize..], input[4 + treeSize]))
  }

  /** Walking the code bits of the input through the parsed tree gives the input back. */
  lemma DecodeEncoded(input: seq<uint8>, t: Tree)
    requires |input| > 0 && HuffmanTreeFor(t, Frequencies(input))
    ensures Strip(t).Node? && Walk(Strip(t), Strip(t), EncodedBits(input, t)) == Returned(input)
  {
    TreeCodes(t, input, input[0]);
    forall b | b in input
      ensures b in LeafBytes(Strip(t))
    {
      TreeCodes(t, input, b);
    }
    CodesStrip(t, []);
    WalkEncodeAll(Strip(t), input);
  }

  /** decompress undoes compress for every input with at least two distinct bytes and every tree build_tree may return. */
  lemma DecompressCompress(input: seq<uint8>, t: Tree)
    requires |Symbols(input)| >= 2 && HuffmanTreeFor(t, Frequencies(input))
    ensures Decompressed(Compressed(input, t)) == Returned(input)
  {
    assert input[0] in Symbols(input);
    var out, tree, bits := Compressed(input, t), Serialize(t), EncodedBits(input, t);
    CompressedLayout(input, t);
    DeserializeSerialize(t, out, 4);
    UnpackPack(bits);
    DecodeEncoded(input, t);
    WrittenFields(out, |tree|, Strip(t), 4 + |tree|);
  }

  /** Decompressed unfolded, once the length field, the bound and the parse of the whole input are known. */
  lemma WrittenFields(out: seq<uint8>, size: nat, root: Tree, next: nat)
    requires |out| >= 5 && ReadBigEndian32(out) == size && 4 + size < |out|
    requires Deserialize(out, 4) == Parsed(root, next) && root.Node? && next < |out|
    ensures Decompressed(out) == Walk(root, root, Unpack(out[next + 1..], out[next]))
  {
  }

  /**
   * With one distinct byte decompress does not undo compress: "a" compresses
   * to nine bytes whose padding byte the tree parse takes for a node marker,
   * so the parse runs to the end and the padding read falls past it.
   */
  lemma SingleSymbolOverrun(t: Tree)
    requires HuffmanTreeFor(t, Frequencies([0x61]))
    ensures Compressed([0x61], t) == [0, 0, 0, 3, 0, 1, 0x61, 7, 0]
    ensures Decompressed(Compressed([0x61], t)) == Undefined
  {
    var input: seq<uint8> := [0x61];
    assert Symbols(input) == {0x61};
    SingleSymbolTree(t, input);
    OverrunBytes();
    OverrunParse();
  }

  /** The nine bytes compress writes for "a". */
  lemma OverrunBytes()
    ensures Compressed([0x61], Internal(1, Leaf(0x61, 1), Nil)) == [0, 0, 0, 3, 0, 1, 0x61, 7, 0]
  {
    var t := Internal(1, Leaf(0x61, 1), Nil);
    var input: seq<uint8> := [0x61];
    OverrunBits();
    assert Serialize(t) == [0, 1, 0x61];
    assert BigEndian32(3) == [0, 0, 0, 3];
    assert Padding(1) == 7;
    calc {
      Compressed(input, t);
      BigEndian32(3) + [0, 1, 0x61] + [Padding(1)] + Pack([false]);
      [0, 0, 0, 3] + [0, 1, 0x61] + [7] + [0];
    }
  }

  /** The code of 'a' in that tree is the single bit 0, packed into the byte 0. */
  lemma OverrunBits()
    ensures EncodedBits([0x61], Internal(1, Leaf(0x61, 1), Nil)) == [false]
    ensures Pack([false]) == [0]
  {
    var t := Internal(1, Leaf(0x61, 1), Nil);
    assert GenerateCodes(t, []) == map[0x61 := [false]] by {
      CodesOfNode(t, []);
      assert [] + [false] == [false];
      assert GenerateCodes(t.left, [false]) == map[0x61 := [false]];
      assert GenerateCodes(t.right, [true]) == map[];
    }
    assert EncodeAll(map[0x61 := [false]], [0x61]) == [false] + EncodeAll(map[0x61 := [false]], []);
    assert Pack([false]) == [PackByte([false])];
    BitsOfZero(8);
    SameBits(PackByte([false]), 0);
  }

  /** The parse of those nine bytes: the padding byte 7 is taken for an internal node, whose children run to the end. */
  lemma OverrunParse()
    ensures Deserialize([0, 0, 0, 3, 0, 1, 0x61, 7, 0], 4) == Parsed(Internal(0, Leaf(0x61, 0), Internal(0, Internal(0, Nil, Nil), Nil)), 9)
    ensures Decompressed([0, 0, 0, 3, 0, 1, 0x61, 7, 0]) == Undefined
  {
    var out: seq<uint8> := [0, 0, 0, 3, 0, 1, 0x61, 7, 0];
    assert Deserialize(out, 9) == Parsed(Nil, 9);
    assert Deserialize(out, 8) == Parsed(Internal(0, Nil, Nil), 9);
    assert Deserialize(out, 7) == Parsed(Internal(0, Internal(0, Nil, Nil), Nil), 9);
    assert Deserialize(out, 5) == Parsed(Leaf(0x61, 0), 7);
    assert ReadBigEndian32(out) == 3;
  }

  /**
   * No input with one distinct byte survives compress and decompress as
   * written. The tree parse takes the padding byte for a node marker. When
   * the length is 7 modulo 8 that marker is 1, a leaf: seven bytes then leave
   * no padding byte to read, and longer inputs decode the rest of the payload
   * as 15 bytes fewer than were written. Every other length makes the marker
   * an internal node whose subtrees run to the end of the input, and the
   * padding read falls past it.
   */
  lemma SingleSymbolNoRoundTrip(input: seq<uint8>, t: Tree)
    requires |Symbols(input)| == 1 && HuffmanTreeFor(t, Frequencies(input))
    ensures |input| % 8 == 7 && |input| >= 15 ==> Decompressed(Compressed(input, t)) == Returned(seq(|input| - 15, _ => input[0]))
    ensures !(|input| % 8 == 7 && |input| >= 15) ==> Decompressed(Compressed(input, t)) == Undefined
    ensures Decompressed(Compressed(input, t)) != Returned(input)
  {
    SingleSymbolFrame(input, t);
    FrameOutcome(Compressed(input, t), input[0], |input|);
  }

  /** How decompress as written reads a single-symbol frame of a given length. */
  lemma FrameOutcome(out: seq<uint8>, b: uint8, n: nat)
    requires n > 0 && |out| == 8 + (n + 7) / 8 && out[..8] == [0, 0, 0, 3, 0, 1, b, Padding(n)]
    requires forall i :: 8 <= i < |out| ==> out[i] == 0
    ensures n % 8 == 7 && n >= 15 ==> Decompressed(out) == Returned(seq(n - 15, _ => b))
    ensures !(n % 8 == 7 && n >= 15) ==> Decompressed(out) == Undefined
  {
    LengthClasses(n);
    if n % 8 == 7 {
      LeafMarkerFrame(out, b);
    } else {
      NodeMarkerFrame(out, b, Padding(n));
    }
  }

  /** The padding byte is 1 exactly for lengths 7 modulo 8; those fill one payload byte at 7 and 8(k - 2) + 15 bits at k bytes. */
  lemma LengthClasses(n: nat)
    requires n > 0
    ensures Padding(n) == 1 <==> n % 8 == 7
    ensures n % 8 == 7 && n < 15 ==> (n + 7) / 8 == 1
    ensures n % 8 == 7 && n >= 15 ==> 8 * ((n + 7) / 8 - 2) == n - 15
  {
    var q := n / 8;
    assert n == 8 * q + n % 8;
    if n % 8 == 7 {
      assert (n + 7) / 8 == q + 1;
    }
  }

  /** The frame compress writes for n copies of one byte: the tree [0, 1, byte], the padding byte and ceil(n / 8) zero bytes. */
  lemma SingleSymbolFrame(input: seq<uint8>, t: Tree)
    requires |Symbols(input)| == 1 && HuffmanTreeFor(t, Frequencies(input))
    ensures |Compressed(input, t)| == 8 + (|input| + 7) / 8
    ensures Compressed(input, t)[..8] == [0, 0, 0, 3, 0, 1, input[0], Padding(|input|)]
    ensures forall i :: 8 <= i < |Compressed(input, t)| ==> Compressed(input, t)[i] == 0
  {
    var n, b := |input|, input[0];
    SingleSymbolParts(input, t);
    PackZeros(n);
    assert BigEndian32(3) == [0, 0, 0, 3];
    assert Compressed(input, t) == [0, 0, 0, 3] + [0, 1, b] + [Padding(n)] + seq((n + 7) / 8, _ => 0 as uint8);
  }

  /** With one distinct byte the tree serialises to [0, 1, byte] and the input encodes to one clear bit per byte. */
  lemma SingleSymbolParts(input: seq<uint8>, t: Tree)
    requires |Symbols(input)| == 1 && HuffmanTreeFor(t, Frequencies(input))
    ensures Serialize(t) == [0, 1, input[0]]
    ensures EncodedBits(input, t) == seq(|input|, _ => false)
  {
    var b := input[0];
    SingleSymbolTree(t, input);
    forall c | c in input
      ensures c == b
    {
      assert c in Frequencies(input).Keys;
      assert multiset(LeafBytes(t))[c] == 1;
    }
    assert GenerateCodes(t, []) == map[b := [false]] by {
      CodesOfNode(t, []);
      assert [] + [false] == [false];
      assert GenerateCodes(t.left, [false]) == map[b := [false]];
      assert GenerateCodes(t.right, [true]) == map[];
    }
    EncodeRepeated(b, input);
  }

  /** Encoding copies of the one byte that has the code 0 gives a clear bit per byte. */
  lemma {:induction false} EncodeRepeated(b: uint8, input: seq<uint8>)
    requires forall c :: c in input ==> c == b
    ensures EncodeAll(map[b := [false]], input) == seq(|input|, _ => false)
    decreases |input|
  {
    if |input| > 0 {
      assert forall c :: c in input[1..] ==> c in input;
      assert input[0] in input;
      EncodeRepeated(b, input[1..]);
      assert EncodeAll(map[b := [false]], input) == [false] + EncodeAll(map[b := [false]], input[1..]);
      assert [false] + seq(|input| - 1, _ => false) == seq(|input|, _ => false);
    }
  }

  /** A single-symbol frame whose padding byte is 1: that byte parses as a leaf, and what follows is decoded. */
  lemma LeafMarkerFrame(out: seq<uint8>, b: uint8)
    requires |out| >= 9 && out[..8] == [0, 0, 0, 3, 0, 1, b, 1]
    requires forall i :: 8 <= i < |out| ==> out[i] == 0
    ensures |out| == 9 ==> Decompressed(out) == Undefined
    ensures |out| > 9 ==> Decompressed(out) == Returned(seq(8 * (|out| - 10), _ => b))
  {
    assert out[4] == 0 && out[5] == 1 && out[6] == b && out[7] == 1 && out[8] == 0;
    assert Deserialize(out, 5) == Parsed(Leaf(b, 0), 7);
    assert Deserialize(out, 7) == Parsed(Leaf(0, 0), 9);
    ParseInternal(out, 4, 2, 2, Leaf(b, 0), Leaf(0, 0));
    var root := Internal(0, Leaf(b, 0), Leaf(0, 0));
    assert ReadBigEndian32(out) == 3;
    if |out| > 9 {
      assert out[10..] == seq(|out| - 10, _ => 0 as uint8);
      UnpackZeros(|out| - 10);
      WalkZeros(root, 8 * (|out| - 10));
      WrittenFields(out, 3, root, 9);
    }
  }

  /** A single-symbol frame whose padding byte is not 1: the tree parse runs to the end of the input. */
  lemma NodeMarkerFrame(out: seq<uint8>, b: uint8, p: uint8)
    requires |out| >= 9 && out[..8] == [0, 0, 0, 3, 0, 1, b, p] && p != 1
    requires forall i :: 8 <= i < |out| ==> out[i] == 0
    ensures Decompressed(out) == Undefined
  {
    assert out[4] == 0 && out[5] == 1 && out[6] == b && out[7] == p;
    assert Deserialize(out, 5) == Parsed(Leaf(b, 0), 7);
    ZerosParse(out, 8);
    assert Deserialize(out, 7).next == |out|;
    assert Deserialize(out, 4).next == |out|;
    assert ReadBigEndian32(out) == 3;
  }

  /** With the tree parse bounded, decompress undoes compress for every non-empty input, one distinct byte included. */
  lemma DecompressBoundedCompress(input: seq<uint8>, t: Tree)
    requires |input| > 0 && HuffmanTreeFor(t, Frequencies(input))
    ensures DecompressedBounded(Compressed(input, t)) == Returned(input)
  {
    var out, tree, bits := Compressed(input, t), Serialize(t), EncodedBits(input, t);
    CompressedLayout(input, t);
    BoundedParse(input, t);
    DecodeEncoded(input, t);
    UnpackPack(bits);
    BoundedFields(out, |tree|, Strip(t));
  }

  /** The declared tree bytes of compress's output parse back to the stripped tree, one distinct byte included. */
  lemma BoundedParse(input: seq<uint8>, t: Tree)
    requires |input| > 0 && HuffmanTreeFor(t, Frequencies(input))
    ensures var out, tree := Compressed(input, t), Serialize(t);
      4 + |tree| <= |out| && Deserialize(out[..4 + |tree|], 4).tree == Strip(t)
  {
    assert input[0] in Symbols(input);
    CompressedLayout(input, t);
    ParseDeclaredTree(Compressed(input, t), t);
  }

  /** A full tree, or a node over one leaf and null, parses back from its bytes cut out of `out` at offset 4. */
  lemma ParseDeclaredTree(out: seq<uint8>, t: Tree)
    requires Full(t) || (t.Node? && IsLeaf(t.left) && t.right == Nil)
    requires 4 + |Serialize(t)| <= |out| && out[4..4 + |Serialize(t)|] == Serialize(t)
    ensures Deserialize(out[..4 + |Serialize(t)|], 4).tree == Strip(t)
  {
    var tree := Serialize(t);
    var prefix := out[..4 + |tree|];
    assert prefix[4..4 + |tree|] == prefix[4..] == tree;
    if Full(t) {
      DeserializeSerialize(t, prefix, 4);
    } else {
      DeserializeSingleSymbol(t, prefix, 4);
    }
    assert Deserialize(prefix, 4) == Parsed(Strip(t), 4 + |tree|);
  }

  /** DecompressedBounded unfolded, once the length field, the bound and the parsed root are known. */
  lemma BoundedFields(out: seq<uint8>, size: nat, root: Tree)
    requires |out| >= 5 && ReadBigEndian32(out) == size && 4 + size < |out|
    requires Deserialize(out[..4 + size], 4).tree == root && root.Node?
    ensures DecompressedBounded(out) == Walk(root, root, Unpack(out[5 + size..], out[4 + size]))
  {
  }
}
