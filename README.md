# GSEA byte-transform engines in Dafny

GSEA is a small C++ file-processing tool. Its work is done by three
in-memory byte transforms: a Huffman coder (`huffman.h`), a simplified
four-round AES-like block cipher (`aes-chiper.h`) and a chained XOR stream
cipher (`xor.h`). This project models those three classes and proves
properties of them.

- **HuffmanCoder.** Compress counts byte frequencies and builds the Huffman
  tree from a min-priority queue. It derives the code table, serialises the
  tree in pre-order with 1/0 markers, and writes
  `[tree length: 4 bytes big-endian][tree][padding byte][payload]`. The
  payload packs the code bits eight to a byte, most significant bit first.
  Decompress reads the length, parses the tree and walks the payload bits.
  - `HuffmanTree.dfy` holds the tree, serialisation, the code table and the
    bit walk.
  - `HuffmanBits.dfy` holds the framing and bit packing.
  - `HuffmanSpec.dfy` states what compress and decompress compute, as
    functions, and proves the round trip.
  - `HuffmanCoder.dfy` holds the class. Its imperative `build_tree`,
    `compress` and `decompress` are proved against those functions.
- **AESCipher.** The constructor prepares a 16-byte key and expands it into
  five round keys. Each 16-byte block goes through AddRoundKey, then three
  rounds of SubBytes, ShiftRows, MixColumns and AddRoundKey, then a final
  round without MixColumns. Messages are padded as in section 6.3 of
  RFC 5652 (the PKCS #7 scheme) and processed block by block.
  - `AesSpec.dfy` holds the transforms as functions, with their inverse
    lemmas.
  - `GaloisField.dfy` holds GF(2^8) multiplication and the proof that the
    inverse column mix undoes the column mix.
  - `SBox.dfy` holds the two substitution tables shared by both ciphers.
  - `AesCipher.dfy` holds the class. It keeps its in-place array operations
    on `array<bv8>` blocks.
- **XORCipher.** The user key is hashed into a 256-byte expanded key. Each
  byte is XORed with a key byte and substituted through the S-box. It is
  then XORed with a running state, rotated by that state and XORed with its
  position. The state advances with the ciphertext byte.
  - `XorSpec.dfy` holds the functions and the round trip.
  - `XorCipher.dfy` holds the class with the source's loops.
  - `ByteOps.dfy` holds the byte rotations and the signed-`char` promotion
    used by both hashes.

Bytes are `bv8` in the ciphers and a `uint8` newtype over `int` in the Huffman
coder, where they are map keys. The ciphers' 32-bit hashes are `bv32`, so they
wrap around as the source's `uint32_t` does. Pointers to tree nodes become the
value type `Tree`, with `Nil` for `nullptr`. Undefined behaviour of the source
(an out-of-range read, a null dereference) is the outcome `Undefined`.

Two places where the code does less than it evidently sets out to do are
modelled as written:
- `build_tree` gives a single distinct byte an artificial parent so that its
  code is not empty (huffman.h:83-89), so such inputs are meant to
  round-trip. As written none does: see "## Findings".
- The only parse failure decompress reports is a null root
  (huffman.h:262-265). A parse that runs out of bytes deeper in the tree
  yields null children, and decompress walks into them; the model gives
  `Undefined` there.

## Model

| member | source | states |
|---|---|---|
| `HuffmanTree.Leaf` | huffman.h:21-22 | the leaf constructor: a node with no children (so `is_leaf` holds) carrying the byte and frequency |
| `HuffmanTree.Internal` | huffman.h:25-26 | the internal-node constructor: data byte 0, the given frequency and children |
| `HuffmanTree.Deserialize` | huffman.h:131-147 | the parse never moves the index backwards; from inside the data it consumes at least one and at most all remaining bytes; at or past the end it returns null and leaves the index |
| `HuffmanTree.Strip` | huffman.h:139-145 | the tree deserialize rebuilds (every frequency 0, internal data 0) is null exactly when the original is, a leaf exactly when the original is, and has the same leaf bytes in order |
| `HuffmanTree.SerializeLength` | huffman.h:113-128 | a full tree with n leaves serialises to 3n − 1 bytes |
| `HuffmanTree.DeserializeSerialize` | huffman.h:113-147 | parsing the serialisation of a full tree at any offset of any buffer rebuilds the tree (up to frequencies) and stops right after its bytes |
| `HuffmanTree.DeserializeAt` | huffman.h:131-147 | the same round trip stated on the per-node layout predicate, by induction on the tree |
| `HuffmanTree.SerializedAtSlice` | huffman.h:113-128 | bytes equal to a serialisation lay out every subtree at its pre-order offset |
| `HuffmanTree.ParseInternal` | huffman.h:141-146 | a non-leaf marker parses the left subtree right after it and the right subtree where the left one stopped |
| `HuffmanTree.ZerosParse` | huffman.h:131-147 | a run of zero bytes to the end of the data parses as internal nodes whose subtrees reach exactly that end |
| `HuffmanTree.DeserializeSingleSymbol` | huffman.h:84-89 | the single-symbol tree serialises to [0, 1, b] and, with nothing after it, parses back to itself in three bytes |
| `HuffmanTree.CodesKeys` | huffman.h:59-71 | generate_codes assigns a code to exactly the leaf bytes of the tree |
| `HuffmanTree.CodesExtend` | huffman.h:59-71 | every code extends the path code of the subtree it was generated from |
| `HuffmanTree.CodesLonger` | huffman.h:68-70 | below an internal node every code is strictly longer than the node's path, so codes from a non-leaf root are non-empty |
| `HuffmanTree.CodesPrefixFree` | huffman.h:59-71 | for two distinct bytes in the table, neither code is a prefix of the other |
| `HuffmanTree.CodesStrip` | huffman.h:59-71 | the code table depends only on the tree's shape and leaf bytes, not on frequencies |
| `HuffmanTree.Prepend` | huffman.h:299-301 | a decoded byte goes in front of what the rest of the walk outputs; undefined stays undefined |
| `HuffmanTree.WalkCode` | huffman.h:287-302 | walking a byte's code from the node it was generated at emits that byte and resumes at the root |
| `HuffmanTree.WalkEncodeAll` | huffman.h:208-302 | walking the concatenated codes of an input from the root of a non-leaf tree that holds all its bytes gives the input back |
| `HuffmanTree.WalkZeros` | huffman.h:276-302 | from a root whose left child is a leaf, m clear bits decode to m copies of that leaf's byte |
| `HuffmanBits.ByteBits` | huffman.h:287-289 | the first n bits read from a byte are its bits counted from the most significant |
| `HuffmanBits.SetBit` | huffman.h:221-223 | OR-ing in the mask `1 << (7 - j)` sets bit j and keeps every other bit |
| `HuffmanBits.PackByte` | huffman.h:219-225 | bit j of a packed byte is set exactly when the j-th chunk bit is '1'; bits past the chunk are clear |
| `HuffmanBits.Pack` | huffman.h:218-226 | the payload has ceil(bits / 8) bytes |
| `HuffmanBits.PackZeros` | huffman.h:218-226 | m clear bits pack into ceil(m / 8) zero bytes |
| `HuffmanBits.UnpackZeros` | huffman.h:276-290 | k zero bytes with padding 0 read back as 8k clear bits |
| `HuffmanBits.Padding` | huffman.h:214 | the padding byte is below 8 and fills the bit count up to a multiple of 8 |
| `HuffmanBits.LastCount` | huffman.h:281-285 | the last payload byte contributes 8 − padding bits, none when the padding exceeds 8 |
| `HuffmanBits.UnpackLength` | huffman.h:277-289 | decompress reads 8 bits of every payload byte but the last and LastCount of the last: the padding bits are never read |
| `HuffmanBits.PackLayout` | huffman.h:217-226 | bit j of payload byte k is bit 8k + j of the code string, and clear past its end |
| `HuffmanBits.UnpackPack` | huffman.h:213-289 | unpacking the payload with the padding compress wrote gives back exactly the encoded bits |
| `HuffmanBits.BigEndian32` | huffman.h:198-202 | the tree length field is four bytes |
| `HuffmanBits.ReadBigEndian32` | huffman.h:248-252 | the length decompress reads is a 32-bit value |
| `HuffmanBits.ReadBigEndian32Write` | huffman.h:198-252 | reading back the four bytes written for a 32-bit length gives the length |
| `HuffmanSpec.Frequencies` | huffman.h:167-171 | the frequency table has an entry for exactly the bytes of the input |
| `HuffmanSpec.WeightIsLeafSum` | huffman.h:99-101 | a node's frequency is the sum of its leaves' counts |
| `HuffmanSpec.CountsAddUp` | huffman.h:167-171 | the counts of a set of distinct bytes covering the input add up to the input length |
| `HuffmanSpec.RootFrequency` | huffman.h:74-108 | the root of the tree built for a non-empty input weighs its length |
| `HuffmanSpec.SingleSymbolTree` | huffman.h:83-89 | with one distinct byte, the tree is an internal node of weight n with the leaf on the left and a null right child |
| `HuffmanSpec.SerializeBound` | huffman.h:113-128 | a tree for at most 256 symbols serialises to at most 767 bytes, so the 32-bit length never truncates |
| `HuffmanSpec.CompressedLayout` | huffman.h:193-226 | the output is the tree length (read back exactly), the tree, the padding byte (below 8) and ceil(bits / 8) payload bytes; every input byte has a non-empty code |
| `HuffmanSpec.TreeCodes` | huffman.h:179-181 | the tree for an input is not a leaf and gives every input byte a non-empty code |
| `HuffmanSpec.DecodeEncoded` | huffman.h:207-302 | walking the encoded bits through the rebuilt tree returns the input |
| `HuffmanSpec.DecompressCompress` | huffman.h:159-310 | decompress as written undoes compress for every input with two or more distinct bytes |
| `HuffmanSpec.WrittenFields` | huffman.h:240-289 | when the header is valid and the parse ends inside the input, decompress walks the bits after the padding byte found where the parse stopped |
| `HuffmanSpec.SingleSymbolOverrun` | huffman.h:254-271 | for the input [0x61] compress writes [0,0,0,3,0,1,0x61,7,0], and decompress as written reads the padding byte past the end |
| `HuffmanSpec.SingleSymbolNoRoundTrip` | huffman.h:254-271 | for every input with one distinct byte, decompress as written fails to undo compress: undefined unless the length n is 7 modulo 8 and at least 15, and then n - 15 copies of the byte |
| `HuffmanSpec.SingleSymbolFrame` | huffman.h:193-226 | compress of n copies of one byte writes the length field 3, the tree [0, 1, b], the padding byte and ceil(n / 8) zero bytes |
| `HuffmanSpec.EncodeRepeated` | huffman.h:207-213 | when the byte's code is the single bit 0, encoding n copies of it gives n clear bits |
| `HuffmanSpec.LeafMarkerFrame` | huffman.h:254-302 | with padding byte 1 the tree parses as two leaves; nine bytes leave no padding to read, longer frames decode the remaining zero bytes as eight copies each |
| `HuffmanSpec.NodeMarkerFrame` | huffman.h:254-271 | with a padding byte other than 1 the parse runs to the end of the input and the padding read is undefined |
| `HuffmanSpec.OverrunBytes` | huffman.h:193-226 | the compressed bytes of [0x61] |
| `HuffmanSpec.OverrunBits` | huffman.h:207-226 | the code bits and payload of [0x61] |
| `HuffmanSpec.OverrunParse` | huffman.h:131-147 | the parse of those bytes runs into the padding and payload and stops at the end of the input |
| `HuffmanSpec.DecompressBoundedCompress` | huffman.h:237-310 | decompress with the tree parse confined to the declared tree bytes undoes compress for every non-empty input, a single distinct byte included |
| `HuffmanSpec.BoundedParse` | huffman.h:254-261 | parsing only the declared tree bytes rebuilds the tree compress wrote |
| `HuffmanSpec.ParseDeclaredTree` | huffman.h:131-147 | both tree shapes build_tree returns parse back from exactly their declared bytes |
| `HuffmanSpec.BoundedFields` | huffman.h:240-289 | the bounded decompress walks the payload after the declared tree and its padding byte |
| `HuffmanCoder.HuffmanCoder.constructor` | huffman.h:151 | a new coder has a null root and no codes |
| `HuffmanCoder.HuffmanCoder.CountFrequencies` | huffman.h:168-171 | every input byte has an entry holding its number of occurrences, and no other byte has one |
| `HuffmanCoder.MinimumExists` | huffman.h:35-40 | a non-empty queue holds a tree of least frequency |
| `HuffmanCoder.HuffmanCoder.PopMin` | huffman.h:94-97 | pop returns a tree of least frequency and the queue without it |
| `HuffmanCoder.HuffmanCoder.PushLeaves` | huffman.h:79-81 | the queue starts with one leaf per table entry, carrying its count |
| `HuffmanCoder.HuffmanCoder.MergeTwo` | huffman.h:94-104 | the first tree taken off is of least frequency in the queue and the second of least frequency among the rest; the new queue is the rest with their parent, weighing their sum, appended, so it is one shorter, stays full and weighted, and holds the same leaves |
| `HuffmanCoder.HuffmanCoder.MergedForest` | huffman.h:94-104 | replacing two trees of a full weighted queue by their parent keeps it full and weighted with the same leaves |
| `HuffmanCoder.HuffmanCoder.MergedLeaves` | huffman.h:94-104 | the leaves of the merged queue are those of the remaining trees and of the two children |
| `HuffmanCoder.HuffmanCoder.MergedTree` | huffman.h:99-101 | the parent of two full weighted trees is full, weighs their sum and has their leaves in order |
| `HuffmanCoder.HuffmanCoder.MergeTrees` | huffman.h:92-108 | the merge loop returns a full weighted tree with one leaf per table entry |
| `HuffmanCoder.HuffmanCoder.LastTree` | huffman.h:107-108 | the last tree in the queue is a tree for the whole table |
| `HuffmanCoder.HuffmanCoder.SizedForest` | huffman.h:79-81 | a queue of leaves holds as many leaf bytes as trees |
| `HuffmanCoder.HuffmanCoder.BuildTree` | huffman.h:74-109 | the returned tree has one leaf per entry, consistent weights, and is the single-symbol shape for one entry and a full non-leaf tree otherwise |
| `HuffmanCoder.HuffmanCoder.Compress` | huffman.h:159-234 | empty input gives empty output and leaves the coder alone; otherwise the root is a tree built for the input's frequencies, the codes are generated from it and the output is the compressed frame |
| `HuffmanCoder.HuffmanCoder.EncodeBits` | huffman.h:208-211 | the code string is the concatenation of the input bytes' codes |
| `HuffmanCoder.HuffmanCoder.PackBits` | huffman.h:218-226 | the packing loop produces the payload |
| `HuffmanCoder.HuffmanCoder.PackChunk` | huffman.h:219-224 | one pass of the inner loop packs the next eight bits, or the remaining ones |
| `HuffmanCoder.HuffmanCoder.Decompress` | huffman.h:237-310 | decompress computes the as-written decompress; short inputs, a length past the end and a null root give empty output; the stored root is the parsed tree |
| `HuffmanCoder.HuffmanCoder.DecodePayload` | huffman.h:274-304 | the byte loop walks the bits the payload holds |
| `HuffmanCoder.HuffmanCoder.DecodeBits` | huffman.h:287-303 | the bit loop over one byte walks its bits, stopping at a null child |
| `HuffmanCoder.Extend` | huffman.h:300 | the bytes emitted so far precede what the rest of the walk outputs |
| `AesCipher.AESCipher.constructor` | aes-chiper.h:367-392 | the key schedule is the expansion of the prepared 16-byte key |
| `AesCipher.AESCipher.PrepareKey` | aes-chiper.h:371-386 | the loops compute the prepared key |
| `AesSpec.PrepareKeyPrefix` | aes-chiper.h:371-378 | the first 16 key bytes survive as the prepared key, or as its prefix for a shorter key |
| `AesCipher.AESCipher.HashKey` | aes-chiper.h:379-382 | the hash loop computes DJB2 over the key with signed characters |
| `AesCipher.AESCipher.ExpandKey` | aes-chiper.h:83-109 | the expansion loop computes the 80-byte schedule |
| `AesCipher.AESCipher.NextRoundKey` | aes-chiper.h:91-103 | one round key from the previous: each byte rotated by the round, substituted and XORed with the round |
| `AesSpec.KeyScheduleRounds` | aes-chiper.h:83-106 | round key 0 is the key and round key r is derived from round key r − 1 |
| `AesSpec.ScheduleUpToRounds` | aes-chiper.h:90-106 | the same relation after n rounds of the loop |
| `GaloisField.GaloisMultiply` | aes-chiper.h:56-73 | the shift-and-add loop computes the product in GF(2^8) |
| `GaloisField.MulIsXTimeSum` | aes-chiper.h:56-73 | that product equals the sum of xtime^k(a) over the set bits k of b, as section 4.2.1 of FIPS-197 defines it |
| `GaloisField.InvMixWordMixWord` | aes-chiper.h:223-249 | the inverse column mix (14, 11, 13, 9) undoes the column mix (2, 3, 1, 1) |
| `AesCipher.AESCipher.SubBytes` | aes-chiper.h:119-123 | every state byte replaced by its S-box entry |
| `AesCipher.AESCipher.InvSubBytes` | aes-chiper.h:128-132 | every state byte replaced by its inverse S-box entry |
| `AesSpec.InvSubBytesSubBytes` | aes-chiper.h:119-132 | inverse substitution undoes substitution |
| `SBox.InvSboxSbox` | aes-chiper.h:485-521 | the inverse table undoes the forward table for all 256 bytes |
| `AesCipher.AESCipher.ShiftRows` | aes-chiper.h:148-172 | the swaps compute the row shift |
| `AesCipher.AESCipher.InvShiftRows` | aes-chiper.h:177-201 | the swaps compute the inverse row shift |
| `AesSpec.ShiftRowsRotatesRows` | aes-chiper.h:138-147 | row r of the 4×4 state rotates left by r; the inverse rotates it right by r |
| `AesSpec.InvShiftRowsShiftRows` | aes-chiper.h:148-201 | the inverse shift undoes the shift |
| `AesSpec.ShiftRowsInvShiftRows` | aes-chiper.h:174-201 | the shift undoes the inverse shift |
| `AesCipher.AESCipher.MixColumns` | aes-chiper.h:214-228 | the column loop computes the column mix |
| `AesCipher.AESCipher.InvMixColumns` | aes-chiper.h:233-251 | the column loop computes the inverse column mix |
| `AesSpec.InvMixGroupMixGroup` | aes-chiper.h:223-249 | the inverse mix of one column undoes its mix |
| `AesSpec.InvMixColumnsMixColumns` | aes-chiper.h:214-251 | the inverse column mix undoes the column mix on a whole state |
| `AesCipher.AESCipher.AddRoundKey` | aes-chiper.h:261-266 | the state XORed with the 16 bytes of the round's key |
| `AesSpec.AddRoundKeyTwice` | aes-chiper.h:257-266 | adding the same round key twice restores the state |
| `AesCipher.AESCipher.EncryptBlock` | aes-chiper.h:275-291 | the in-place steps compute the block encryption |
| `AesCipher.AESCipher.MainRounds` | aes-chiper.h:280-285 | the round loop applies rounds 1 to 3 with their keys |
| `AesCipher.AESCipher.FinalRound` | aes-chiper.h:288-290 | the last round: substitute, shift, add round key 4 |
| `AesCipher.AESCipher.DecryptBlock` | aes-chiper.h:297-313 | the in-place steps compute the block decryption |
| `AesCipher.AESCipher.InvMainRounds` | aes-chiper.h:304-309 | the descending loop undoes rounds 3 to 1 |
| `AesCipher.AESCipher.InvFinalRound` | aes-chiper.h:299-301 | undoes the last round |
| `AesSpec.InvRoundRound` | aes-chiper.h:280-309 | one inverse round undoes one round with the same key |
| `AesSpec.InvFinalRoundFinalRound` | aes-chiper.h:288-301 | the inverse final round undoes the final round |
| `AesSpec.UndoApplyRounds` | aes-chiper.h:280-309 | undoing rounds in reverse order undoes any sequence of rounds |
| `AesSpec.DecryptEncryptBlock` | aes-chiper.h:275-313 | block decryption undoes block encryption for every block and schedule |
| `AesCipher.AESCipher.AddPadding` | aes-chiper.h:323-333 | the loop appends the padding |
| `AesSpec.PadShape` | aes-chiper.h:319-333 | the padded message is a whole number of blocks, 1 to 16 bytes longer, keeps the data as prefix, and every padding byte is the padding count |
| `AesCipher.AESCipher.RemovePadding` | aes-chiper.h:338-360 | the checks and the loop compute the unpadding |
| `AesSpec.Unpad` | aes-chiper.h:338-360 | valid padding is stripped; invalid padding returns the data unchanged |
| `AesSpec.WholeBlocksNotPastStart` | aes-chiper.h:350-355 | on a non-empty whole number of blocks the check loop never reads before the first byte |
| `AesSpec.UnpadPad` | aes-chiper.h:323-360 | unpadding undoes padding |
| `AesCipher.AESCipher.Encrypt` | aes-chiper.h:397-433 | empty input gives empty output; otherwise each block of the padded message is encrypted |
| `AesCipher.AESCipher.Decrypt` | aes-chiper.h:438-478 | empty or ragged input gives empty output; otherwise each block is decrypted and the padding removed |
| `AesCipher.AESCipher.EncryptBlocks` | aes-chiper.h:413-428 | the block loop encrypts the message block by block |
| `AesCipher.AESCipher.DecryptBlocks` | aes-chiper.h:456-471 | the block loop decrypts the message block by block |
| `AesCipher.AESCipher.EncryptBlockOnto` | aes-chiper.h:414-427 | one block copied out, encrypted and appended |
| `AesCipher.AESCipher.DecryptBlockOnto` | aes-chiper.h:457-470 | one block copied out, decrypted and appended |
| `AesSpec.EcbAppend` | aes-chiper.h:413-428 | processing block by block distributes over concatenation |
| `AesSpec.EcbInverse` | aes-chiper.h:413-471 | block-wise decryption undoes block-wise encryption |
| `AesSpec.DecryptEncrypt` | aes-chiper.h:397-478 | decrypt undoes encrypt for every message, the empty one included |
| `ByteOps.RotateRightLeft` | xor.h:48-57 | rotating right undoes rotating left by the same amount |
| `ByteOps.RotateLeftRight` | xor.h:48-57 | rotating left undoes rotating right by the same amount |
| `XorCipher.XORCipher.constructor` | xor.h:113-115 | the key is stored and the expanded key is its expansion |
| `XorCipher.XORCipher.ExpandKey` | xor.h:18-45 | the loops compute the 256-byte expanded key and keep the key |
| `XorCipher.XORCipher.MixKey` | xor.h:32-35 | the inner loop runs one DJB2 step per key byte |
| `XorSpec.ExpandKeyShape` | xor.h:18-42 | whatever the key, the expanded key has 256 bytes, and an empty key leaves all 256 of them zero |
| `XorCipher.XORCipher.InitialState` | xor.h:133-136 | the starting state is the XOR of all expanded-key bytes |
| `XorCipher.XORCipher.Encrypt` | xor.h:118-172 | empty input gives empty output; otherwise the chained byte encryption |
| `XorCipher.XORCipher.EncryptBytes` | xor.h:141-167 | the byte loop, with its state, computes the chained encryption |
| `XorCipher.XORCipher.Decrypt` | xor.h:175-230 | empty input gives empty output; otherwise the chained byte decryption |
| `XorCipher.XORCipher.DecryptBytes` | xor.h:198-225 | the byte loop, with its state, computes the chained decryption |
| `XorSpec.UnmixMix` | xor.h:151-211 | the three inverse steps undo the state XOR, rotation and position XOR |
| `XorSpec.DecryptEncryptByte` | xor.h:144-217 | decrypting a byte with the same key byte, state and position undoes its encryption |
| `XorSpec.EncryptAt` | xor.h:141-166 | ciphertext byte n is the encryption of plaintext byte n with key byte n mod 256 and the n-th state |
| `XorSpec.DecryptAt` | xor.h:198-224 | plaintext byte n is the decryption of ciphertext byte n with the same key byte and state |
| `XorSpec.ChainDecryptEncrypt` | xor.h:141-225 | because both sides advance the state from the ciphertext byte, the chained decryption undoes the chained encryption |
| `XorSpec.DecryptEncrypt` | xor.h:118-230 | decrypt undoes encrypt for every message and expanded key |
| `XorSpec.EncryptPrefix` | xor.h:141-167 | encryption is streaming: the ciphertext of a prefix is the prefix of the ciphertext |

## Left out

- Console output (`std::cout`, `std::cerr`), the code listing that compress prints, and `XORCipher::print_hex` are I/O and are not modelled. The errors they report are modelled as the empty result the code returns.
- `delete_tree` and the destructor only free memory. Trees are values here, so there is nothing to free.
- The order in which `std::priority_queue` pops nodes of equal frequency is not modelled. `HuffmanCoder.HuffmanCoder.PopMin` returns some tree of least frequency. The properties therefore hold for every tree build_tree could return.
- HuffmanCoder.HuffmanCoder.BuildTree: states the tree's leaves, weights and shape. It does not state that the code is optimal, which the source does not promise.
- Frequencies are unbounded naturals. The source's `unsigned int` counts and sums would wrap only for inputs of 2^32 bytes or more.
- `huffman_codes[byte]` inserts an empty code for a byte that has none. Compress never looks up such a byte (`HuffmanSpec.TreeCodes`), so that insertion is not modelled.
- HuffmanCoder.HuffmanCoder.Decompress: a null child reached while walking the payload is a null dereference in the source. The model returns `Undefined` instead of crashing, and does not state the stored root on the error paths where the tree is not parsed.
- AesCipher.AESCipher.constructor: when the user key is shorter than 16 bytes, key bytes 4 and above come from `hash >> (i * 8)` with a shift of 32 bits or more. That is undefined in C++. These bytes are a constructor parameter (`filler`), and nothing proved depends on their value.
- AesCipher.AESCipher.RemovePadding: requires that the check loop does not read before the first byte. That read is undefined behaviour in the source. `AesSpec.WholeBlocksNotPastStart` shows it cannot happen where decrypt calls the method.
- The `expanded_key.empty()` branches of `XORCipher::encrypt` and `decrypt` cannot fire: the constructor always leaves 256 bytes (`XorCipher.XORCipher.Valid`).
- `main.cpp`, `file_manager.h` and `inspector.cpp` (the command line, files, directories and diagnostics) are not part of this model.

## Findings

| source | as written | input that shows it | evidently intended | confidence | as-written member | corrected member |
|---|---|---|---|---|---|---|
| huffman.h:254-271 | decompress parses the tree from the whole input, not from the `tree_size` bytes the header declares, and reads the padding byte wherever the parse stopped. The single-symbol tree `[0, 1, b]` has a null right child, which serialise writes as nothing, so the parse takes the padding byte as the marker of the right subtree. No input with one distinct byte round-trips. For a length that is not 7 modulo 8 the marker is not 1, the right subtree runs to the end of the input, and the padding read `input[index++]` is past the end. For length 7 the marker 1 makes a leaf that ends exactly at the end of the input, so the padding read is again past it. For a length n >= 15 with n = 7 modulo 8 the parse ends inside the payload, and decompress returns n - 15 copies of the byte. | `[0x61]`, compressed to `[0,0,0,3,0,1,0x61,7,0]` (undefined); fifteen bytes `0x41`, compressed to `[0,0,0,3,0,1,0x41,1,0,0]`, which decompress to nothing | the tree is parsed from the declared `tree_size` bytes and the padding byte is taken right after them, so every non-empty input round-trips | not executed | `HuffmanSpec.SingleSymbolNoRoundTrip` (all single-symbol inputs), `HuffmanSpec.SingleSymbolOverrun` (`[0x61]`) | `HuffmanSpec.DecompressBoundedCompress` |
