/**
 * The HuffmanCoder class of huffman.h: the tree and code table it keeps,
 * build_tree's priority-queue loop, and the loops of compress and
 * decompress. Each method is proved to compute what HuffmanSpec describes,
 * so the layout and round-trip lemmas there apply to the class.
 */
module HuffmanCoder {
  import opened HuffmanTree
  import opened HuffmanBits
  import HuffmanSpec

  /** The leaf bytes of a forest of trees, all together. */
  ghost function ForestLeaves(pq: seq<Tree>): multiset<uint8>
    decreases |pq|
  {
    if |pq| == 0 then multiset{} else ForestLeaves(pq[..|pq| - 1]) + multiset(LeafBytes(pq[|pq| - 1]))
  }

  lemma ForestLeavesAppend(pq: seq<Tree>, t: Tree)
    ensures ForestLeaves(pq + [t]) == ForestLeaves(pq) + multiset(LeafBytes(t))
  {
    assert (pq + [t])[..|pq|] == pq;
  }

  /** Taking tree k out of the forest takes out its leaves. */
  lemma {:induction false} ForestLeavesRemove(pq: seq<Tree>, k: nat)
    requires k < |pq|
    ensures ForestLeaves(pq) == ForestLeaves(pq[..k] + pq[k + 1..]) + multiset(LeafBytes(pq[k]))
    decreases |pq|
  {
    var n := |pq| - 1;
    var init := pq[..n];
    assert ForestLeaves(pq) == ForestLeaves(init) + multiset(LeafBytes(pq[n]));
    if k == n {
      assert pq[..k] + pq[k + 1..] == init;
    } else {
      var removed := init[..k] + init[k + 1..];
      ForestLeavesRemove(init, k);
      assert init[k] == pq[k];
      RemoveLast(pq, k);
      ForestLeavesAppend(removed, pq[n]);
    }
  }

  lemma RemoveLast(pq: seq<Tree>, k: nat)
    requires k < |pq| - 1
    ensures pq[..k] + pq[k + 1..] == (pq[..|pq| - 1][..k] + pq[..|pq| - 1][k + 1..]) + [pq[|pq| - 1]]
  {
  }

  /** Some tree of a non-empty forest has the least frequency. */
  lemma {:induction false} MinimumExists(pq: seq<Tree>)
    requires |pq| > 0 && forall t :: t in pq ==> t.Node?
    ensures exists k :: 0 <= k < |pq| && forall m :: 0 <= m < |pq| ==> pq[k].frequency <= pq[m].frequency
    decreases |pq|
  {
    if |pq| > 1 {
      var init := pq[..|pq| - 1];
      MinimumExists(init);
      var k :| 0 <= k < |init| && forall m :: 0 <= m < |init| ==> init[k].frequency <= init[m].frequency;
      if pq[|pq| - 1].frequency < pq[k].frequency {
        assert forall m :: 0 <= m < |pq| ==> pq[|pq| - 1].frequency <= pq[m].frequency;
      } else {
        assert forall m :: 0 <= m < |pq| ==> pq[k].frequency <= pq[m].frequency;
      }
    } else {
      assert forall m :: 0 <= m < |pq| ==> pq[0].frequency <= pq[m].frequency;
    }
  }

  class HuffmanCoder {
    /** The tree of the last compress or decompress; Nil before either. */
    var root: Tree
    /** The code of each byte, from the last compress. */
    var huffmanCodes: map<uint8, seq<bool>>

    constructor ()
      ensures root == Nil && huffmanCodes == map[]
    {
      root := Nil;
      huffmanCodes := map[];
    }

    /** Step 1 of compress: every byte of the input counted. */
    static method CountFrequencies(input: seq<uint8>) returns (frequencies: map<uint8, nat>)
      ensures forall b :: b in frequencies <==> b in input
      ensures forall b :: b in frequencies ==> frequencies[b] == multiset(input)[b]
    {
      frequencies := map[];
      var i := 0;
      while i < |input|
        invariant 0 <= i <= |input|
        invariant forall b :: b in frequencies <==> b in input[..i]
        invariant forall b :: b in frequencies ==> frequencies[b] == multiset(input[..i])[b]
      {
        var b := input[i];
        var count := if b in frequencies then frequencies[b] else 0;
        assert input[..i + 1] == input[..i] + [b];
        frequencies := frequencies[b := count + 1];
        i := i + 1;
      }
      assert input[..i] == input;
    }

    /**
     * Pops a tree of least frequency off the queue; which of several equal
     * ones is left open, as std::priority_queue leaves it.
     */
    static method PopMin(pq: seq<Tree>) returns (min: Tree, rest: seq<Tree>, k: nat)
      requires |pq| > 0 && forall t :: t in pq ==> t.Node?
      ensures k < |pq| && min == pq[k] && rest == pq[..k] + pq[k + 1..]
      ensures forall t :: t in pq ==> min.frequency <= t.frequency
    {
      MinimumExists(pq);
      k :| 0 <= k < |pq| && forall m :: 0 <= m < |pq| ==> pq[k].frequency <= pq[m].frequency;
      min := pq[k];
      rest := pq[..k] + pq[k + 1..];
    }

    /** The byte values below b that have a table entry, as the first loop has pushed them. */
    static ghost function KeysBelow(frequencies: map<uint8, nat>, b: nat): set<uint8>
      requires b <= 0x100
    {
      frequencies.Keys * HuffmanSpec.Below(b)
    }

    /** One more byte value b: its entry, if any, joins those below b. */
    static lemma KeysBelowStep(frequencies: map<uint8, nat>, b: nat)
      requires b < 0x100
      ensures multiset(KeysBelow(frequencies, b + 1))
        == multiset(KeysBelow(frequencies, b)) + (if b as uint8 in frequencies then multiset{b as uint8} else multiset{})
    {
      var key := b as uint8;
      var below := HuffmanSpec.Below(b);
      assert HuffmanSpec.Below(b + 1) == below + {key};
      assert key !in below;
      if key in frequencies {
        assert KeysBelow(frequencies, b + 1) == KeysBelow(frequencies, b) + {key};
        MultisetAdd(KeysBelow(frequencies, b), key);
      } else {
        assert KeysBelow(frequencies, b + 1) == KeysBelow(frequencies, b);
      }
    }

    /** Adding a new element to a set adds one occurrence to its multiset. */
    static lemma MultisetAdd(s: set<uint8>, x: uint8)
      requires x !in s
      ensures multiset(s + {x}) == multiset(s) + multiset{x}
    {
      forall y | true
        ensures multiset(s + {x})[y] == (multiset(s) + multiset{x})[y]
      {
      }
    }

    static lemma KeysBelowAll(frequencies: map<uint8, nat>)
      ensures KeysBelow(frequencies, 0x100) == frequencies.Keys
    {
    }

    /**
     * build_tree: a leaf per table entry into the queue; one entry gets an
     * artificial parent with a null right child; otherwise the two least
     * frequent trees are merged under a parent weighing their sum until one
     * tree is left.
     */
    static method BuildTree(frequencies: map<uint8, nat>) returns (root: Tree)
      requires |frequencies.Keys| >= 1
      ensures HuffmanSpec.HuffmanTreeFor(root, frequencies)
    {
      var pq := PushLeaves(frequencies);
      if |pq| == 1 {
        var single := pq[0];
        assert single in pq;
        assert pq == [][..0] + [single];
        root := Internal(single.frequency, single, Nil);
        return;
      }
      root := MergeTrees(frequencies, pq);
    }

    /** The first loop of build_tree: a leaf per table entry, in ascending byte order. */
    static method PushLeaves(frequencies: map<uint8, nat>) returns (pq: seq<Tree>)
      ensures forall t :: t in pq ==> IsLeaf(t) && HuffmanSpec.Weighted(t, frequencies)
      ensures ForestLeaves(pq) == multiset(frequencies.Keys)
      ensures |pq| == |frequencies.Keys|
    {
      pq := [];
      var b := 0;
      while b < 0x100
        invariant 0 <= b <= 0x100
        invariant forall t :: t in pq ==> IsLeaf(t) && HuffmanSpec.Weighted(t, frequencies)
        invariant ForestLeaves(pq) == multiset(KeysBelow(frequencies, b))
      {
        var key := b as uint8;
        KeysBelowStep(frequencies, b);
        if key in frequencies {
          ForestLeavesAppend(pq, Leaf(key, frequencies[key]));
          pq := pq + [Leaf(key, frequencies[key])];
        }
        b := b + 1;
      }
      KeysBelowAll(frequencies);
      SizedForest(pq);
    }

    /** Every tree of the queue is full and weighted. */
    static ghost predicate FullForest(pq: seq<Tree>, frequencies: map<uint8, nat>) {
      forall t :: t in pq ==> Full(t) && HuffmanSpec.Weighted(t, frequencies)
    }

    /**
     * One round of the merge loop: the two least frequent trees come off the
     * queue and their parent goes on, so the queue shrinks by one and holds
     * the same leaves. `left` is the first tree popped, at index i of the
     * queue, and `right` the second, at index j of what the first pop left.
     */
    static method MergeTwo(frequencies: map<uint8, nat>, pq: seq<Tree>)
      returns (next: seq<Tree>, ghost left: Tree, ghost right: Tree, ghost i: nat, ghost j: nat)
      requires |pq| > 1 && FullForest(pq, frequencies)
      ensures i < |pq| && left == pq[i] && left.Node?
      ensures forall t :: t in pq ==> left.frequency <= t.frequency
      ensures j < |pq| - 1 && right == (pq[..i] + pq[i + 1..])[j] && right.Node?
      ensures forall t :: t in pq[..i] + pq[i + 1..] ==> t.Node? && right.frequency <= t.frequency
      ensures var rest := pq[..i] + pq[i + 1..];
        next == rest[..j] + rest[j + 1..] + [Internal(left.frequency + right.frequency, left, right)]
      ensures |next| == |pq| - 1 && FullForest(next, frequencies)
      ensures ForestLeaves(next) == ForestLeaves(pq)
    {
      var first, rest, k := PopMin(pq);
      RemovedIn(pq, k);
      var second, remaining, m := PopMin(rest);
      next := remaining + [Internal(first.frequency + second.frequency, first, second)];
      MergedForest(frequencies, pq, k, rest, m, remaining);
      left, right, i, j := first, second, k, m;
    }

    /**
     * Taking the tree at index k of the queue, then the one at index m of
     * what is left, and queueing their parent keeps the queue full and
     * weighted with the same leaves.
     */
    static lemma MergedForest(frequencies: map<uint8, nat>, pq: seq<Tree>, k: nat, rest: seq<Tree>, m: nat, remaining: seq<Tree>)
      requires FullForest(pq, frequencies) && k < |pq| && rest == pq[..k] + pq[k + 1..]
      requires m < |rest| && remaining == rest[..m] + rest[m + 1..]
      ensures pq[k].Node? && rest[m].Node?
      ensures FullForest(remaining + [Internal(pq[k].frequency + rest[m].frequency, pq[k], rest[m])], frequencies)
      ensures ForestLeaves(remaining + [Internal(pq[k].frequency + rest[m].frequency, pq[k], rest[m])]) == ForestLeaves(pq)
    {
      var first, second := pq[k], rest[m];
      RemovedIn(pq, k);
      RemovedIn(rest, m);
      assert first in pq && second in rest;
      MergedTree(first, second, frequencies);
      MergedLeaves(pq, k, rest, m, remaining, Internal(first.frequency + second.frequency, first, second));
    }

    /** The leaves of the queue after the merge: those of the rest and of the two merged trees. */
    static lemma MergedLeaves(pq: seq<Tree>, k: nat, rest: seq<Tree>, m: nat, remaining: seq<Tree>, parent: Tree)
      requires k < |pq| && rest == pq[..k] + pq[k + 1..]
      requires m < |rest| && remaining == rest[..m] + rest[m + 1..]
      requires LeafBytes(parent) == LeafBytes(pq[k]) + LeafBytes(rest[m])
      ensures ForestLeaves(remaining + [parent]) == ForestLeaves(pq)
    {
      ForestLeavesRemove(pq, k);
      ForestLeavesRemove(rest, m);
      ForestLeavesAppend(remaining, parent);
      calc {
        ForestLeaves(remaining + [parent]);
        ForestLeaves(remaining) + multiset(LeafBytes(pq[k]) + LeafBytes(rest[m]));
        ForestLeaves(remaining) + multiset(LeafBytes(rest[m])) + multiset(LeafBytes(pq[k]));
        ForestLeaves(pq);
      }
    }

    /** The merge loop of build_tree, from a queue of two or more trees. */
    static method MergeTrees(frequencies: map<uint8, nat>, leaves: seq<Tree>) returns (root: Tree)
      requires |leaves| >= 2
      requires forall t :: t in leaves ==> IsLeaf(t) && HuffmanSpec.Weighted(t, frequencies)
      requires ForestLeaves(leaves) == multiset(frequencies.Keys) && |leaves| == |frequencies.Keys|
      ensures HuffmanSpec.HuffmanTreeFor(root, frequencies)
    {
      var pq := leaves;
      while |pq| > 1
        invariant |pq| >= 1
        invariant FullForest(pq, frequencies)
        invariant ForestLeaves(pq) == multiset(frequencies.Keys)
        decreases |pq|
      {
        ghost var left, right, i, j;
        pq, left, right, i, j := MergeTwo(frequencies, pq);
      }
      root := pq[0];
      assert pq == [][..0] + [root];
      assert root in pq;
      LastTree(root, frequencies, |leaves|);
    }

    /** A parent over two full, weighted trees, weighing their sum, is full and weighted. */
    static lemma MergedTree(left: Tree, right: Tree, frequencies: map<uint8, nat>)
      requires Full(left) && HuffmanSpec.Weighted(left, frequencies)
      requires Full(right) && HuffmanSpec.Weighted(right, frequencies)
      ensures Full(Internal(left.frequency + right.frequency, left, right))
      ensures HuffmanSpec.Weighted(Internal(left.frequency + right.frequency, left, right), frequencies)
      ensures LeafBytes(Internal(left.frequency + right.frequency, left, right)) == LeafBytes(left) + LeafBytes(right)
    {
    }

    /** Whatever is left after taking one tree out was in the queue. */
    static lemma RemovedIn(pq: seq<Tree>, k: nat)
      requires k < |pq|
      ensures forall t :: t in pq[..k] + pq[k + 1..] ==> t in pq
    {
      forall t | t in pq[..k] + pq[k + 1..]
        ensures t in pq
      {
        var m :| 0 <= m < |pq[..k] + pq[k + 1..]| && (pq[..k] + pq[k + 1..])[m] == t;
        if m < k {
          assert pq[m] == t;
        } else {
          assert pq[m + 1] == t;
        }
      }
    }

    /** The tree left in the queue holds every entry once; with two or more entries it is not a leaf. */
    static lemma LastTree(root: Tree, frequencies: map<uint8, nat>, count: nat)
      requires Full(root) && HuffmanSpec.Weighted(root, frequencies)
      requires ForestLeaves([root]) == multiset(frequencies.Keys)
      requires count == |frequencies.Keys| >= 2
      ensures HuffmanSpec.HuffmanTreeFor(root, frequencies)
    {
      assert ForestLeaves([root]) == multiset(LeafBytes(root)) by {
        assert [root][..0] == [];
      }
      assert |multiset(frequencies.Keys)| == |frequencies.Keys|;
    }

    /** A forest of leaves holds one leaf byte per tree. */
    static lemma {:induction false} SizedForest(pq: seq<Tree>)
      requires forall t :: t in pq ==> IsLeaf(t)
      ensures |ForestLeaves(pq)| == |pq|
      decreases |pq|
    {
      if |pq| > 0 {
        var init, last := pq[..|pq| - 1], pq[|pq| - 1];
        assert forall t :: t in init ==> t in pq;
        SizedForest(init);
        assert last in pq;
        assert LeafBytes(last) == [last.data];
        assert ForestLeaves(pq) == ForestLeaves(init) + multiset{last.data};
      }
    }

    /**
     * compress: nothing for an empty input; otherwise counts the bytes,
     * builds the tree and its code table (kept in the fields), and writes
     * the tree length, the tree, the padding byte and the packed code bits.
     */
    method Compress(input: seq<uint8>) returns (output: seq<uint8>)
      modifies this
      ensures |input| == 0 ==> root == old(root) && huffmanCodes == old(huffmanCodes)
      ensures |input| > 0 ==> HuffmanSpec.HuffmanTreeFor(root, HuffmanSpec.Frequencies(input)) && huffmanCodes == GenerateCodes(root, [])
      ensures output == HuffmanSpec.Compressed(input, root)
    {
      if |input| == 0 {
        return [];
      }
      var frequencies := CountFrequencies(input);
      assert frequencies == HuffmanSpec.Frequencies(input);
      assert input[0] in frequencies.Keys;
      root := BuildTree(frequencies);
      huffmanCodes := GenerateCodes(root, []);
      var treeData := Serialize(root);
      var treeSize := |treeData| % TwoTo32;
      output := BigEndian32(treeSize) + treeData;
      var encodedBits := EncodeBits(huffmanCodes, input);
      var padding := Padding(|encodedBits|);
      output := output + [padding];
      var payload := PackBits(encodedBits);
      output := output + payload;
    }

    /** Step 5 of compress: the codes of the input bytes, one after another. */
    static method EncodeBits(codes: map<uint8, seq<bool>>, input: seq<uint8>) returns (bits: seq<bool>)
      ensures bits == EncodeAll(codes, input)
    {
      bits := [];
      var i := 0;
      while i < |input|
        invariant 0 <= i <= |input|
        invariant bits + EncodeAll(codes, input[i..]) == EncodeAll(codes, input)
      {
        var code := if input[i] in codes then codes[input[i]] else [];
        assert input[i..][1..] == input[i + 1..];
        bits := bits + code;
        i := i + 1;
      }
    }

    /** The packing loop of compress: eight bits to a byte, most significant first. */
    static method PackBits(bits: seq<bool>) returns (bytes: seq<uint8>)
      ensures bytes == Pack(bits)
    {
      bytes := [];
      var i := 0;
      while i < |bits|
        invariant 0 <= i
        invariant bytes + Pack(Remaining(bits, i)) == Pack(bits)
        decreases |bits| - i
      {
        var byte := PackChunk(bits, i);
        PackStep(bits[i..]);
        assert Remaining(bits, i) == bits[i..];
        if |bits| - i > 8 {
          assert bits[i..][..8] == bits[i..i + 8];
          assert Remaining(bits, i + 8) == bits[i..][8..];
        } else {
          assert Remaining(bits, i + 8) == [];
        }
        bytes := bytes + [byte];
        i := i + 8;
      }
    }

    /** The bits from position i on; none once i has passed the end. */
    static function Remaining(bits: seq<bool>, i: nat): seq<bool> {
      if i >= |bits| then [] else bits[i..]
    }

    /** The inner loop of the packing: the byte of the (up to) eight bits from position i. */
    static method PackChunk(bits: seq<bool>, i: nat) returns (byte: uint8)
      requires i < |bits|
      ensures byte == PackByte(if |bits| - i <= 8 then bits[i..] else bits[i..i + 8])
    {
      byte := 0;
      BitsOfZero(8);
      var j := 0;
      while j < 8 && i + j < |bits|
        invariant 0 <= j <= 8 && i + j <= |bits|
        invariant BitsOf(byte as nat, 8) == bits[i..i + j] + seq(8 - j, _ => false)
      {
        assert bits[i..i + j + 1] == bits[i..i + j] + [bits[i + j]];
        NextBit(bits[i..i + j]);
        if bits[i + j] {
          byte := SetBit(byte, j);
        }
        j := j + 1;
      }
      assert bits[i..i + j] == if |bits| - i <= 8 then bits[i..] else bits[i..i + 8];
      SameBits(byte, PackByte(bits[i..i + j]));
    }

    /** Writing bit |prefix| of a byte whose first bits are `prefix` and whose others are clear. */
    static lemma NextBit(prefix: seq<bool>)
      requires |prefix| < 8
      ensures (prefix + seq(8 - |prefix|, _ => false))[|prefix| := true] == prefix + [true] + seq(7 - |prefix|, _ => false)
      ensures prefix + seq(8 - |prefix|, _ => false) == prefix + [false] + seq(7 - |prefix|, _ => false)
    {
    }

    /** The first payload byte packs the first (up to) eight bits; the rest packs the others. */
    static lemma PackStep(bits: seq<bool>)
      requires |bits| > 0
      ensures Pack(bits) == [PackByte(if |bits| <= 8 then bits else bits[..8])] + Pack(if |bits| <= 8 then [] else bits[8..])
    {
    }

    /**
     * decompress: empty for fewer than 5 bytes, for a declared tree that
     * reaches the end, or for a null parsed root; undefined when the parse
     * leaves no byte for the padding; otherwise the payload walked through
     * the parsed tree, which is kept in `root`.
     */
    method Decompress(input: seq<uint8>) returns (result: Outcome)
      modifies this
      ensures result == HuffmanSpec.Decompressed(input)
      ensures |input| < 5 ==> result == Returned([])
      ensures |input| >= 5 && 4 + ReadBigEndian32(input) >= |input| ==> result == Returned([])
      ensures |input| >= 5 && 4 + ReadBigEndian32(input) < |input| ==> root == Deserialize(input, 4).tree
      ensures root == Nil ==> result == Returned([])
      ensures huffmanCodes == old(huffmanCodes)
    {
      if |input| < 5 {
        return Returned([]);
      }
      var treeSize := ReadBigEndian32(input);
      var index := 4;
      if index + treeSize >= |input| {
        return Returned([]);
      }
      var parsed := Deserialize(input, index);
      root := parsed.tree;
      index := parsed.next;
      if root == Nil {
        return Returned([]);
      }
      if index >= |input| {
        return Undefined;
      }
      var padding := input[index];
      index := index + 1;
      result := DecodePayload(root, input[index..], padding);
    }

    /**
     * The decoding loop of decompress over the payload bytes: eight bits of
     * each, 8 - padding of the last, each moving `current` down the tree;
     * a leaf emits its byte and sends `current` back to the root.
     */
    static method DecodePayload(root: Tree, payload: seq<uint8>, padding: uint8) returns (result: Outcome)
      requires root.Node?
      ensures result == Walk(root, root, Unpack(payload, padding))
    {
      var output: seq<uint8> := [];
      var current := root;
      ghost var target := Walk(root, root, Unpack(payload, padding));
      var i := 0;
      while i < |payload|
        invariant 0 <= i <= |payload|
        invariant current.Node?
        invariant Extend(output, Walk(root, current, Unpack(payload[i..], padding))) == target
      {
        var byte := payload[i];
        var bitsToProcess := if i == |payload| - 1 then LastCount(padding) else 8;
        UnpackStep(payload[i..], padding);
        assert payload[i..][1..] == payload[i + 1..];
        ghost var later := Unpack(payload[i + 1..], padding);
        var stuck, next, emitted := DecodeBits(root, current, byte, bitsToProcess, later);
        if stuck {
          return Undefined;
        }
        ExtendExtend(output, emitted, Walk(root, next, later));
        output, current := output + emitted, next;
        i := i + 1;
      }
      result := Returned(output);
    }

    /**
     * The inner loop of decompress over the first `count` bits of one payload
     * byte, from node `start`: each bit moves down the tree, a leaf emits its
     * byte and restarts at the root, a null child stops the decoding. The bits
     * `later` that follow this byte are carried along only for the proof.
     */
    static method DecodeBits(root: Tree, start: Tree, byte: uint8, count: nat, ghost later: seq<bool>)
      returns (stuck: bool, current: Tree, emitted: seq<uint8>)
      requires root.Node? && start.Node? && count <= 8
      ensures stuck ==> Walk(root, start, ByteBits(byte, count) + later) == Undefined
      ensures !stuck ==> current.Node? && Walk(root, start, ByteBits(byte, count) + later) == Extend(emitted, Walk(root, current, later))
    {
      ghost var bits := ByteBits(byte, count);
      current, emitted, stuck := start, [], false;
      var j := 0;
      while j < count
        invariant 0 <= j <= count
        invariant current.Node?
        invariant Extend(emitted, Walk(root, current, bits[j..] + later)) == Walk(root, start, bits + later)
      {
        var bit := Bit(byte, j);
        ghost var rest := bits[j..] + later;
        assert rest[0] == bit && rest[1..] == bits[j + 1..] + later;
        if bit {
          current := current.right;
        } else {
          current := current.left;
        }
        if current == Nil {
          return true, current, emitted;
        }
        if IsLeaf(current) {
          emitted := emitted + [current.data];
          current := root;
        }
        j := j + 1;
      }
      assert bits[j..] + later == later;
    }

    /** Extending by two prefixes is extending by their concatenation. */
    static lemma ExtendExtend(first: seq<uint8>, second: seq<uint8>, o: Outcome)
      ensures Extend(first, Extend(second, o)) == Extend(first + second, o)
    {
      if o.Returned? {
        assert first + (second + o.output) == first + second + o.output;
      }
    }

    /** The bits of a payload: those of its first byte, then those of the rest. */
    static lemma UnpackStep(payload: seq<uint8>, padding: uint8)
      requires |payload| > 0
      ensures Unpack(payload, padding) == ByteBits(payload[0], if |payload| == 1 then LastCount(padding) else 8) + Unpack(payload[1..], padding)
    {
    }
  }

  /** `prefix` in front of an outcome's output. */
  function Extend(prefix: seq<uint8>, o: Outcome): (r: Outcome)
    ensures o.Returned? ==> r == Returned(prefix + o.output)
    ensures o.Undefined? ==> r.Undefined?
  {
    match o
    case Returned(output) => Returned(prefix + output)
    case Undefined => Undefined
  }
}
