/**
 * The coding tree of huffman.h and the recursive walks over it: the
 * pre-order serialisation (serialize_tree), its parser (deserialize_tree),
 * the code table (generate_codes) and the bit-by-bit walk of decompress.
 * HuffmanNode is a value here; a null child is Nil.
 */
module HuffmanTree {

  /** unsigned char: the bytes of the input, the output and the tree. */
  newtype uint8 = x: int | 0 <= x < 0x100

  /** A tree node as HuffmanNode holds it: the byte, the frequency and two children. */
  datatype Tree = Nil | Node(data: uint8, frequency: nat, left: Tree, right: Tree)

  /** HuffmanNode::is_leaf: a node whose children are both null. */
  predicate IsLeaf(t: Tree) {
    t.Node? && t.left == Nil && t.right == Nil
  }

  /** The node the leaf constructor builds. */
  function Leaf(data: uint8, frequency: nat): (t: Tree)
    ensures IsLeaf(t) && t.data == data && t.frequency == frequency
  {
    Node(data, frequency, Nil, Nil)
  }

  /** The node the internal-node constructor builds: its byte is 0. */
  function Internal(frequency: nat, left: Tree, right: Tree): (t: Tree)
    ensures t.Node? && t.data == 0 && t.frequency == frequency && t.left == left && t.right == right
  {
    Node(0, frequency, left, right)
  }

  /** Every node is a leaf or has two non-null children. */
  predicate Full(t: Tree) {
    t.Node? && (IsLeaf(t) || (t.left != Nil && t.right != Nil && Full(t.left) && Full(t.right)))
  }

  /** The bytes of the leaves, left to right. */
  function LeafBytes(t: Tree): seq<uint8> {
    match t
    case Nil => []
    case Node(data, _, left, right) => if IsLeaf(t) then [data] else LeafBytes(left) + LeafBytes(right)
  }

  // ---------------------------------------------------------------------------
  // serialize_tree / deserialize_tree
  // ---------------------------------------------------------------------------

  /** Pre-order: [1, byte] for a leaf, [0] then both children for any other node, nothing for null. */
  function Serialize(t: Tree): seq<uint8> {
    match t
    case Nil => []
    case Node(data, _, left, right) => if IsLeaf(t) then [1, data] else [0] + Serialize(left) + Serialize(right)
  }

  /** A parsed tree and the index just after its bytes. */
  datatype Parsed = Parsed(tree: Tree, next: nat)

  /**
   * deserialize_tree from `index`: the tree and the index after it. Reading
   * past the end gives null; marker 1 is a leaf (null when its byte is
   * missing, after the marker was consumed); any other marker is an internal
   * node whose children are parsed in turn, null or not. Parsed nodes have
   * frequency 0.
   */
  function Deserialize(data: seq<uint8>, index: nat): (r: Parsed)
    ensures index <= r.next
    ensures index < |data| ==> index < r.next <= |data|
    ensures index >= |data| ==> r == Parsed(Nil, index)
    decreases |data| - index
  {
    if index >= |data| then Parsed(Nil, index)
    else if data[index] == 1 then
      if index + 1 >= |data| then Parsed(Nil, index + 1)
      else Parsed(Leaf(data[index + 1], 0), index + 2)
    else
      var left := Deserialize(data, index + 1);
      var right := Deserialize(data, left.next);
      Parsed(Internal(0, left.tree, right.tree), right.next)
  }

  /** What a parse gives back: the same shape and leaf bytes, every frequency and internal byte 0. */
  function Strip(t: Tree): (s: Tree)
    ensures s.Nil? <==> t.Nil?
    ensures IsLeaf(s) <==> IsLeaf(t)
    ensures LeafBytes(s) == LeafBytes(t)
  {
    match t
    case Nil => Nil
    case Node(data, _, left, right) => if IsLeaf(t) then Leaf(data, 0) else Internal(0, Strip(left), Strip(right))
  }

  /** A full tree of n leaves serialises to 3n - 1 bytes. */
  lemma {:induction false} SerializeLength(t: Tree)
    requires Full(t)
    ensures |Serialize(t)| == 3 * |LeafBytes(t)| - 1
  {
    if !IsLeaf(t) {
      SerializeLength(t.left);
      SerializeLength(t.right);
    }
  }

  /**
   * A marker other than 1 followed by a left subtree of nl bytes and a right
   * subtree of nr bytes parses as their parent, nl + nr + 1 bytes long.
   */
  lemma ParseInternal(data: seq<uint8>, index: nat, nl: nat, nr: nat, left: Tree, right: Tree)
    requires index < |data| && data[index] != 1
    requires Deserialize(data, index + 1) == Parsed(left, index + 1 + nl)
    requires Deserialize(data, index + 1 + nl) == Parsed(right, index + 1 + nl + nr)
    ensures Deserialize(data, index) == Parsed(Internal(0, left, right), index + 1 + nl + nr)
  {
  }

  /** A run of zero bytes to the end of the data parses as internal nodes that reach that end. */
  lemma {:induction false} ZerosParse(data: seq<uint8>, index: nat)
    requires index <= |data| && forall i :: index <= i < |data| ==> data[i] == 0
    ensures Deserialize(data, index).next == |data|
    decreases |data| - index
  {
    if index < |data| {
      ZerosParse(data, index + 1);
    }
  }

  lemma SliceOfSlice(data: seq<uint8>, lo: nat, hi: nat, i: nat, j: nat)
    requires lo <= hi <= |data| && i <= j <= hi - lo
    ensures data[lo..hi][i..j] == data[lo + i..lo + j]
  {
    forall k | 0 <= k < j - i
      ensures data[lo..hi][i..j][k] == data[lo + i..lo + j][k]
    {
    }
  }

  /**
   * Parsing the serialisation of a full tree, wherever it sits in `data`,
   * rebuilds the tree's shape and leaf bytes and consumes exactly its bytes.
   */
  lemma DeserializeSerialize(t: Tree, data: seq<uint8>, index: nat)
    requires Full(t)
    requires index + |Serialize(t)| <= |data| && data[index..index + |Serialize(t)|] == Serialize(t)
    ensures Deserialize(data, index) == Parsed(Strip(t), index + |Serialize(t)|)
  {
    SerializedAtSlice(t, data, index);
    SerialSizeIs(t);
    DeserializeAt(t, data, index);
  }

  /** The number of bytes Serialize writes for `t`. */
  function SerialSize(t: Tree): nat {
    match t
    case Nil => 0
    case Node(_, _, left, right) => if IsLeaf(t) then 2 else 1 + SerialSize(left) + SerialSize(right)
  }

  lemma {:induction false} SerialSizeIs(t: Tree)
    ensures |Serialize(t)| == SerialSize(t)
  {
    if t.Node? && !IsLeaf(t) {
      SerialSizeIs(t.left);
      SerialSizeIs(t.right);
      SerializeInternal(t);
    }
  }

  /** The bytes of Serialize(t) sit in `data` from `index` on, described node by node. */
  ghost predicate SerializedAt(data: seq<uint8>, index: nat, t: Tree)
    decreases t
  {
    match t
    case Nil => true
    case Node(b, _, left, right) =>
      index < |data| &&
      if IsLeaf(t) then data[index] == 1 && index + 1 < |data| && data[index + 1] == b
      else data[index] == 0 && SerializedAt(data, index + 1, left) && SerializedAt(data, index + 1 + SerialSize(left), right)
  }

  lemma {:induction false} SerializedAtSlice(t: Tree, data: seq<uint8>, index: nat)
    requires index + |Serialize(t)| <= |data| && data[index..index + |Serialize(t)|] == Serialize(t)
    ensures SerializedAt(data, index, t)
  {
    if t.Node? {
      if IsLeaf(t) {
        assert Serialize(t) == [1, t.data];
        assert data[index] == 1 && data[index + 1] == t.data;
      } else {
        var sl, sr := Serialize(t.left), Serialize(t.right);
        SerializeInternal(t);
        SplitSerialized(data, index, sl, sr);
        SerialSizeIs(t.left);
        SerializedAtSlice(t.left, data, index + 1);
        SerializedAtSlice(t.right, data, index + 1 + |sl|);
        assert SerializedAt(data, index + 1 + SerialSize(t.left), t.right);
      }
    }
  }

  /** Parsing where a full tree's bytes sit gives back its stripped copy and the index after its bytes. */
  lemma {:induction false} DeserializeAt(t: Tree, data: seq<uint8>, index: nat)
    requires Full(t) && SerializedAt(data, index, t)
    ensures Deserialize(data, index) == Parsed(Strip(t), index + SerialSize(t))
  {
    if !IsLeaf(t) {
      DeserializeAt(t.left, data, index + 1);
      DeserializeAt(t.right, data, index + 1 + SerialSize(t.left));
      ParseInternal(data, index, SerialSize(t.left), SerialSize(t.right), Strip(t.left), Strip(t.right));
      StripInternal(t);
    }
  }

  /** A node that is not a leaf serialises to the marker 0 and its two subtrees. */
  lemma SerializeInternal(t: Tree)
    requires t.Node? && !IsLeaf(t)
    ensures Serialize(t) == [0] + Serialize(t.left) + Serialize(t.right)
  {
  }

  /** Where [0] + sl + sr sits in `data`, the marker, sl and sr sit one after another. */
  lemma SplitSerialized(data: seq<uint8>, index: nat, sl: seq<uint8>, sr: seq<uint8>)
    requires index + 1 + |sl| + |sr| <= |data| && data[index..index + 1 + |sl| + |sr|] == [0] + sl + sr
    ensures data[index] == 0
    ensures data[index + 1..index + 1 + |sl|] == sl
    ensures data[index + 1 + |sl|..index + 1 + |sl| + |sr|] == sr
  {
    var s := [0] + sl + sr;
    assert data[index] == s[0];
    SliceOfSlice(data, index, index + |s|, 1, 1 + |sl|);
    assert s[1..1 + |sl|] == sl;
    SliceOfSlice(data, index, index + |s|, 1 + |sl|, |s|);
    assert s[1 + |sl|..|s|] == sr;
  }

  /** Stripping a node that is not a leaf strips its children under a 0 node. */
  lemma StripInternal(t: Tree)
    requires t.Node? && !IsLeaf(t)
    ensures Strip(t) == Internal(0, Strip(t.left), Strip(t.right))
  {
  }

  /**
   * The tree build_tree makes for a single distinct byte, an internal node
   * with that leaf on the left and a null right child, serialises to three
   * bytes; parsed from data that ends right after them, it comes back whole.
   */
  lemma DeserializeSingleSymbol(t: Tree, data: seq<uint8>, index: nat)
    requires t.Node? && IsLeaf(t.left) && t.right == Nil
    requires |data| == index + 3 && data[index..] == Serialize(t)
    ensures Serialize(t) == [0, 1, t.left.data]
    ensures Deserialize(data, index) == Parsed(Strip(t), index + 3)
  {
    assert Serialize(t) == [0] + Serialize(t.left) + [];
    assert data[index] == 0 && data[index + 1] == 1 && data[index + 2] == t.left.data;
    assert Deserialize(data, index + 1) == Parsed(Leaf(t.left.data, 0), index + 3);
    ParseInternal(data, index, 2, 0, Leaf(t.left.data, 0), Nil);
  }

  // ---------------------------------------------------------------------------
  // generate_codes
  // ---------------------------------------------------------------------------

  /**
   * generate_codes(node, code) into an empty table: a leaf gets `code`, an
   * internal node passes code + "0" to the left and code + "1" to the
   * right, the right subtree's entries overwriting. A bit is true for '1'.
   */
  function GenerateCodes(t: Tree, code: seq<bool>): map<uint8, seq<bool>> {
    match t
    case Nil => map[]
    case Node(data, _, left, right) =>
      if IsLeaf(t) then map[data := code]
      else GenerateCodes(left, code + [false]) + GenerateCodes(right, code + [true])
  }

  /** `a` is a prefix of `b`. */
  predicate IsPrefix(a: seq<bool>, b: seq<bool>) {
    |a| <= |b| && b[..|a|] == a
  }

  /** The table has an entry for exactly the leaf bytes. */
  lemma {:induction false} CodesKeys(t: Tree, code: seq<bool>)
    ensures forall b :: b in GenerateCodes(t, code) <==> b in LeafBytes(t)
  {
    match t
    case Nil =>
    case Node(_, _, left, right) =>
      if !IsLeaf(t) {
        CodesKeys(left, code + [false]);
        CodesKeys(right, code + [true]);
      }
  }

  /** Extending a prefix by one bit: the shorter one is still a prefix, and the bit sits right after it. */
  lemma PrefixStep(a: seq<bool>, x: bool, s: seq<bool>)
    requires IsPrefix(a + [x], s)
    ensures IsPrefix(a, s) && s[|a|] == x
  {
    assert s[..|a|] == s[..|a| + 1][..|a|];
    assert s[|a|] == s[..|a| + 1][|a|];
  }

  /** The table of a node that is not a leaf: the right subtree's entries over the left's. */
  lemma CodesOfNode(t: Tree, code: seq<bool>)
    requires t.Node? && !IsLeaf(t)
    ensures GenerateCodes(t, code) == GenerateCodes(t.left, code + [false]) + GenerateCodes(t.right, code + [true])
  {
  }

  /** Every code extends the code passed in. */
  lemma {:induction false} CodesExtend(t: Tree, code: seq<bool>, b: uint8)
    requires b in GenerateCodes(t, code)
    ensures IsPrefix(code, GenerateCodes(t, code)[b])
  {
    match t
    case Node(_, _, left, right) =>
      if IsLeaf(t) {
        assert GenerateCodes(t, code)[b] == code;
      } else {
        CodesOfNode(t, code);
        if b in GenerateCodes(right, code + [true]) {
          CodesExtend(right, code + [true], b);
          PrefixStep(code, true, GenerateCodes(t, code)[b]);
        } else {
          CodesExtend(left, code + [false], b);
          PrefixStep(code, false, GenerateCodes(t, code)[b]);
        }
      }
  }

  /** Below a node that is not a leaf, every code is longer than the code passed in. */
  lemma CodesLonger(t: Tree, code: seq<bool>, b: uint8)
    requires t.Node? && !IsLeaf(t) && b in GenerateCodes(t, code)
    ensures |GenerateCodes(t, code)[b]| > |code|
  {
    CodesOfNode(t, code);
    if b in GenerateCodes(t.right, code + [true]) {
      CodesExtend(t.right, code + [true], b);
    } else {
      CodesExtend(t.left, code + [false], b);
    }
  }

  /** No code is a prefix of the code of another byte. */
  lemma {:induction false} CodesPrefixFree(t: Tree, code: seq<bool>, a: uint8, b: uint8)
    requires a in GenerateCodes(t, code) && b in GenerateCodes(t, code) && a != b
    ensures !IsPrefix(GenerateCodes(t, code)[a], GenerateCodes(t, code)[b])
  {
    match t
    case Node(_, _, left, right) =>
      if !IsLeaf(t) {
        CodesOfNode(t, code);
        var l, r := GenerateCodes(left, code + [false]), GenerateCodes(right, code + [true]);
        var codes := GenerateCodes(t, code);
        if a in r && b in r {
          CodesPrefixFree(right, code + [true], a, b);
        } else if a !in r && b !in r {
          CodesPrefixFree(left, code + [false], a, b);
        } else {
          var x := a in r;
          CodesExtend(if x then right else left, code + [x], a);
          CodesExtend(if x then left else right, code + [!x], b);
          PrefixStep(code, x, codes[a]);
          PrefixStep(code, !x, codes[b]);
        }
      }
  }

  /** Parsing discards frequencies and internal bytes, which the codes never look at. */
  lemma {:induction false} CodesStrip(t: Tree, code: seq<bool>)
    ensures GenerateCodes(Strip(t), code) == GenerateCodes(t, code)
  {
    match t
    case Nil =>
    case Node(_, _, left, right) =>
      if !IsLeaf(t) {
        CodesStrip(left, code + [false]);
        CodesStrip(right, code + [true]);
      }
  }

  // ---------------------------------------------------------------------------
  // The walk of decompress
  // ---------------------------------------------------------------------------

  /** What decoding gives: the output bytes, or undefined behaviour (a null node dereferenced or a read past the end). */
  datatype Outcome = Returned(output: seq<uint8>) | Undefined

  /** `b` in front of the output; undefined stays undefined. */
  function Prepend(b: uint8, o: Outcome): (r: Outcome)
    ensures o.Returned? ==> r == Returned([b] + o.output)
    ensures o.Undefined? ==> r.Undefined?
  {
    match o
    case Returned(output) => Returned([b] + output)
    case Undefined => Undefined
  }

  /**
   * The decoding loop from node `current`: a set bit moves right, a clear bit
   * left; reaching a leaf emits its byte and restarts at `root`; stepping to
   * a null child and then asking it is_leaf is undefined.
   */
  function Walk(root: Tree, current: Tree, bits: seq<bool>): Outcome
    requires root.Node? && current.Node?
    decreases |bits|
  {
    if |bits| == 0 then Returned([])
    else
      var next := if bits[0] then current.right else current.left;
      if next == Nil then Undefined
      else if IsLeaf(next) then Prepend(next.data, Walk(root, root, bits[1..]))
      else Walk(root, next, bits[1..])
  }

  /**
   * Following the code of `b` from `current` (the part after the code that
   * reached `current`) ends at the leaf of `b`: the walk emits `b` and goes
   * on from the root.
   */
  lemma {:induction false} WalkCode(root: Tree, current: Tree, code: seq<bool>, b: uint8, rest: seq<bool>)
    requires root.Node? && current.Node? && !IsLeaf(current)
    requires b in GenerateCodes(current, code)
    ensures IsPrefix(code, GenerateCodes(current, code)[b])
    ensures Walk(root, current, GenerateCodes(current, code)[b][|code|..] + rest) == Prepend(b, Walk(root, root, rest))
    decreases current
  {
    CodesExtend(current, code, b);
    CodesOfNode(current, code);
    var full := GenerateCodes(current, code)[b];
    var bit := b in GenerateCodes(current.right, code + [true]);
    var next := if bit then current.right else current.left;
    var nextCode := code + [bit];
    assert full == GenerateCodes(next, nextCode)[b];
    CodesExtend(next, nextCode, b);
    PrefixStep(code, bit, full);
    var suffix := full[|code|..] + rest;
    assert suffix[0] == bit;
    assert suffix[1..] == full[|nextCode|..] + rest;
    if IsLeaf(next) {
      assert GenerateCodes(next, nextCode) == map[next.data := nextCode];
      assert full[|nextCode|..] == [];
    } else {
      WalkCode(root, next, nextCode, b, rest);
    }
  }

  /** From a root whose left child is a leaf, every clear bit emits that leaf's byte. */
  lemma {:induction false} WalkZeros(root: Tree, m: nat)
    requires root.Node? && IsLeaf(root.left)
    ensures Walk(root, root, seq(m, _ => false)) == Returned(seq(m, _ => root.left.data))
    decreases m
  {
    if m > 0 {
      var bits := seq(m, _ => false);
      assert bits[1..] == seq(m - 1, _ => false);
      WalkZeros(root, m - 1);
      assert [root.left.data] + seq(m - 1, _ => root.left.data) == seq(m, _ => root.left.data);
    }
  }

  /** The bits of `input`, each byte replaced by its code; a byte with no code contributes nothing. */
  function EncodeAll(codes: map<uint8, seq<bool>>, input: seq<uint8>): seq<bool>
    decreases |input|
  {
    if |input| == 0 then []
    else (if input[0] in codes then codes[input[0]] else []) + EncodeAll(codes, input[1..])
  }

  /** Walking the codes of every byte of `input` from the root gives `input` back. */
  lemma {:induction false} WalkEncodeAll(root: Tree, input: seq<uint8>)
    requires root.Node? && !IsLeaf(root)
    requires forall b :: b in input ==> b in LeafBytes(root)
    ensures Walk(root, root, EncodeAll(GenerateCodes(root, []), input)) == Returned(input)
    decreases |input|
  {
    if |input| > 0 {
      var codes := GenerateCodes(root, []);
      CodesKeys(root, []);
      var rest := EncodeAll(codes, input[1..]);
      WalkEncodeAll(root, input[1..]);
      WalkCode(root, root, [], input[0], rest);
      assert codes[input[0]][0..] == codes[input[0]];
      assert input == [input[0]] + input[1..];
    }
  }
}
